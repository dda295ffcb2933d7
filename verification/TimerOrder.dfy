/** The order in which the sorted timer list serves its timers, as plain values.

An entry pairs a timer (of any identity type) with its expiry time and with a
stamp: the number of insertions and adjustments that preceded its own last one.
Everything the pointer-based list does is specified by the functions below. */
module TimerOrder {
  import opened Chains

  datatype Entry<K> = Entry(key: K, expire: int, stamp: nat)

  /** Earlier expiry first; among equals, the one touched longer ago first. */
  predicate Before<K>(a: Entry<K>, b: Entry<K>) {
    a.expire < b.expire || (a.expire == b.expire && a.stamp < b.stamp)
  }

  ghost predicate Sorted<K>(es: seq<Entry<K>>) {
    forall i, j {:trigger Before(es[i], es[j])} :: 0 <= i < j < |es| ==> Before(es[i], es[j])
  }

  /** The stamps in use are all below the stamp that the next touch will get. */
  ghost predicate Stamped<K>(es: seq<Entry<K>>, next: nat) {
    forall i :: 0 <= i < |es| ==> es[i].stamp < next
  }

  /** The first position whose entry expires strictly after `t`. */
  function Position<K>(es: seq<Entry<K>>, t: int): (p: nat)
    ensures p <= |es|
    ensures forall i :: 0 <= i < p ==> es[i].expire <= t
    ensures p < |es| ==> t < es[p].expire
  {
    if es == [] || t < es[0].expire then 0 else 1 + Position(es[1..], t)
  }

  function Insert<K>(es: seq<Entry<K>>, e: Entry<K>): seq<Entry<K>> {
    InsertAt(es, Position(es, e.expire), e)
  }

  /** What adjusting entry `i` to expiry `t` does: it only ever moves it backwards. */
  function Adjust<K>(es: seq<Entry<K>>, i: nat, t: int, stamp: nat): seq<Entry<K>>
    requires i < |es|
  {
    var e := Entry(es[i].key, t, stamp);
    if i + 1 == |es| || t < es[i + 1].expire then es[i := e] else Insert(RemoveAt(es, i), e)
  }

  lemma PositionIs<K>(es: seq<Entry<K>>, t: int, p: nat)
    requires p <= |es|
    requires forall i :: 0 <= i < p ==> es[i].expire <= t
    requires p < |es| ==> t < es[p].expire
    ensures Position(es, t) == p
  {
  }

  lemma InsertKeepsOrder<K>(es: seq<Entry<K>>, e: Entry<K>)
    requires Sorted(es) && Stamped(es, e.stamp)
    ensures Sorted(Insert(es, e)) && Stamped(Insert(es, e), e.stamp + 1)
  {
    var p := Position(es, e.expire);
    forall i | p <= i < |es| ensures e.expire < es[i].expire {
      if p < i { assert Before(es[p], es[i]); }
    }
  }

  lemma RemoveKeepsOrder<K>(es: seq<Entry<K>>, i: nat, next: nat)
    requires Sorted(es) && Stamped(es, next) && i < |es|
    ensures Sorted(RemoveAt(es, i)) && Stamped(RemoveAt(es, i), next)
  {
  }

  /** Adjusting keeps the list in order exactly when the new expiry is not below
  the predecessor's; raising an expiry always satisfies that. */
  lemma AdjustOrder<K>(es: seq<Entry<K>>, i: nat, t: int, stamp: nat)
    requires Sorted(es) && Stamped(es, stamp) && i < |es|
    ensures Sorted(Adjust(es, i, t, stamp)) <==> i == 0 || es[i - 1].expire <= t
    ensures Stamped(Adjust(es, i, t, stamp), stamp + 1)
  {
    var r := Adjust(es, i, t, stamp);
    if i + 1 == |es| || t < es[i + 1].expire {
      if i == 0 || es[i - 1].expire <= t {
        forall j, k | 0 <= j < k < |r| ensures Before(r[j], r[k]) {
          assert j < i - 1 ==> Before(es[j], es[i - 1]);
          assert i + 1 < k ==> Before(es[i + 1], es[k]);
          assert j != i && k != i ==> Before(es[j], es[k]);
        }
      } else {
        assert !Before(r[i - 1], r[i]);
      }
    } else {
      RemoveKeepsOrder(es, i, stamp);
      InsertKeepsOrder(RemoveAt(es, i), Entry(es[i].key, t, stamp));
      assert i > 0 ==> Before(es[i - 1], es[i + 1]);
    }
  }

  /** When the order is kept, adjusting is the same as removing and inserting anew. */
  lemma AdjustIsReinsert<K>(es: seq<Entry<K>>, i: nat, t: int, stamp: nat)
    requires Sorted(es) && i < |es| && (i == 0 || es[i - 1].expire <= t)
    ensures Adjust(es, i, t, stamp) == Insert(RemoveAt(es, i), Entry(es[i].key, t, stamp))
  {
    if i + 1 == |es| || t < es[i + 1].expire {
      assert forall j :: 0 <= j < i - 1 ==> Before(es[j], es[i - 1]);
      PositionIs(RemoveAt(es, i), t, i);
    }
  }
}
