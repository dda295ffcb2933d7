/** The hashed time wheel as plain values: what each operation does to the slots,
and how many ticks every timer still has to wait. */
module WheelModel {
  import opened Chains

  const N := 60   // slots on the wheel
  const SI := 1   // seconds between two ticks

  datatype Timer<K> = Timer(key: K, rotation: nat)
  datatype Wheel<K> = Wheel(slots: seq<seq<Timer<K>>>, cur: nat)

  predicate WellFormed<K>(w: Wheel<K>) {
    |w.slots| == N && w.cur < N
  }

  /** A timeout in seconds as a number of ticks, rounded up to at least one. */
  function TicksOf(timeout: nat): nat {
    if timeout < SI then 1 else timeout / SI
  }

  /** A timer of `timeout` seconds is to wait for `n` visits: as many whole slot intervals
  as there are in the timeout, and one if there are none. */
  predicate Waits(timeout: nat, n: nat) {
    if timeout < SI then n == 1 else n * SI <= timeout < (n + 1) * SI
  }

  lemma TicksWait(timeout: nat)
    ensures Waits(timeout, TicksOf(timeout)) && forall n :: Waits(timeout, n) ==> n == TicksOf(timeout)
  {
  }

  function SlotFor(cur: nat, ticks: nat): nat {
    (cur + ticks % N) % N
  }

  function Add<K>(w: Wheel<K>, key: K, ticks: nat): Wheel<K>
    requires WellFormed(w)
  {
    var ts := SlotFor(w.cur, ticks);
    w.(slots := w.slots[ts := InsertAt(w.slots[ts], 0, Timer(key, ticks / N))])
  }

  function Delete<K>(w: Wheel<K>, s: nat, i: nat): Wheel<K>
    requires s < |w.slots| && i < |w.slots[s]|
  {
    w.(slots := w.slots[s := RemoveAt(w.slots[s], i)])
  }

  /** What a visit leaves in the current slot: one rotation less for each timer not due. */
  function Survivors<K>(ts: seq<Timer<K>>): seq<Timer<K>> {
    if ts == [] then []
    else (if ts[0].rotation > 0 then [Timer(ts[0].key, ts[0].rotation - 1)] else []) + Survivors(ts[1..])
  }

  /** The timers that a visit fires, in slot order. */
  function Due<K>(ts: seq<Timer<K>>): seq<K> {
    if ts == [] then []
    else (if ts[0].rotation > 0 then [] else [ts[0].key]) + Due(ts[1..])
  }

  function Tick<K>(w: Wheel<K>): (Wheel<K>, seq<K>)
    requires WellFormed(w)
  {
    (Wheel(w.slots[w.cur := Survivors(w.slots[w.cur])], (w.cur + 1) % N), Due(w.slots[w.cur]))
  }

  /** Visits still to come before the one that fires a timer of slot `s`. */
  function Remaining(cur: nat, s: nat, rotation: nat): nat {
    rotation * N + (s - cur) % N
  }

  lemma VisitOne<K>(ts: seq<Timer<K>>, t: Timer<K>)
    ensures Due(ts + [t]) == Due(ts) + if t.rotation > 0 then [] else [t.key]
    ensures Survivors(ts + [t]) == Survivors(ts) + if t.rotation > 0 then [Timer(t.key, t.rotation - 1)] else []
  {
    if ts != [] {
      VisitOne(ts[1..], t);
      assert (ts + [t])[1..] == ts[1..] + [t];
    }
  }

  /** Serving timer `i` of a slot in place. */
  function Serve<K>(ts: seq<Timer<K>>, i: nat): seq<Timer<K>>
    requires i < |ts|
  {
    if ts[i].rotation > 0 then ts[i := Timer(ts[i].key, ts[i].rotation - 1)] else RemoveAt(ts, i)
  }

  /** A slot of which the first `k` timers have been served. */
  function Midway<K>(ts: seq<Timer<K>>, k: nat): (r: seq<Timer<K>>)
    requires k <= |ts|
    ensures |r| == Kept(ts, k) + |ts| - k
  {
    Survivors(ts[..k]) + ts[k..]
  }

  function Kept<K>(ts: seq<Timer<K>>, k: nat): nat
    requires k <= |ts|
  {
    |Survivors(ts[..k])|
  }

  lemma MidwayEnds<K>(ts: seq<Timer<K>>)
    ensures Midway(ts, 0) == ts && Kept(ts, 0) == 0 && Due(ts[..0]) == []
    ensures Midway(ts, |ts|) == Survivors(ts) && Due(ts[..|ts|]) == Due(ts)
  {
    assert ts[..|ts|] == ts && ts[|ts|..] == [] && ts[..0] == [] && ts[0..] == ts;
  }

  /** Serving the next timer in place is one step of Survivors and of Due. */
  lemma ServeStep<K>(ts: seq<Timer<K>>, k: nat)
    requires k < |ts|
    ensures Kept(ts, k) < |Midway(ts, k)| && Midway(ts, k)[Kept(ts, k)] == ts[k]
    ensures Serve(Midway(ts, k), Kept(ts, k)) == Midway(ts, k + 1)
    ensures Kept(ts, k + 1) == Kept(ts, k) + if ts[k].rotation > 0 then 1 else 0
    ensures Due(ts[..k + 1]) == Due(ts[..k]) + if ts[k].rotation > 0 then [] else [ts[k].key]
  {
    assert ts[..k + 1] == ts[..k] + [ts[k]];
    VisitOne(ts[..k], ts[k]);
    ServeBetween(Survivors(ts[..k]), ts[k], ts[k + 1..]);
    assert ts[k..] == [ts[k]] + ts[k + 1..];
  }

  lemma ServeBetween<K>(before: seq<Timer<K>>, t: Timer<K>, after: seq<Timer<K>>)
    ensures var s := before + ([t] + after);
            && s[|before|] == t
            && Serve(s, |before|) ==
               before + (if t.rotation > 0 then [Timer(t.key, t.rotation - 1)] else []) + after
  {
    var s := before + ([t] + after);
    assert s[..|before|] == before && s[|before| + 1..] == after;
  }

  /** Slot and rotation say neither more nor less than the remaining visits do. */
  lemma PlaceIsRemaining(cur: nat, s: nat, rotation: nat, r: nat)
    requires cur < N && s < N
    ensures Remaining(cur, s, rotation) == r <==> s == SlotFor(cur, r) && rotation == r / N
  {
  }

  lemma SurvivorsOf<K>(ts: seq<Timer<K>>, t: Timer<K>)
    ensures t in Survivors(ts) <==> Timer(t.key, t.rotation + 1) in ts
  {
    if ts != [] {
      SurvivorsOf(ts[1..], t);
      assert ts == [ts[0]] + ts[1..];
      assert Survivors(ts) == (if ts[0].rotation > 0 then [Timer(ts[0].key, ts[0].rotation - 1)] else []) + Survivors(ts[1..]);
    }
  }

  lemma DueOf<K>(ts: seq<Timer<K>>, k: K)
    ensures k in Due(ts) <==> Timer(k, 0) in ts
  {
    if ts != [] {
      DueOf(ts[1..], k);
      assert ts == [ts[0]] + ts[1..];
      assert Due(ts) == (if ts[0].rotation > 0 then [] else [ts[0].key]) + Due(ts[1..]);
    }
  }

  lemma SurvivorsDistinct<K>(ts: seq<Timer<K>>)
    requires Distinct(ts)
    ensures Distinct(Survivors(ts))
  {
    if ts != [] && ts[0].rotation > 0 {
      var t := Timer(ts[0].key, ts[0].rotation - 1);
      SurvivorsDistinct(ts[1..]);
      SurvivorsOf(ts[1..], t);
      assert ts[0] !in ts[1..];
      assert Survivors(ts) == [t] + Survivors(ts[1..]);
    }
  }

  /** One tick: exactly the timers with nothing remaining fire, and every other
  timer has exactly one visit less to wait, whatever else is on the wheel. */
  lemma TickLowersRemaining<K>(w: Wheel<K>, s: nat, t: Timer<K>)
    requires WellFormed(w) && s < N && t in w.slots[s]
    ensures var (w', fired) := Tick(w);
            if Remaining(w.cur, s, t.rotation) == 0 then
              s == w.cur && t.key in fired
            else
              exists rot ::
                Timer(t.key, rot) in w'.slots[s] &&
                Remaining(w'.cur, s, rot) == Remaining(w.cur, s, t.rotation) - 1
  {
    var (w', fired) := Tick(w);
    if s == w.cur {
      DueOf(w.slots[s], t.key);
      if t.rotation > 0 {
        SurvivorsOf(w.slots[s], Timer(t.key, t.rotation - 1));
        assert Timer(t.key, t.rotation - 1) in w'.slots[s];
      }
    } else {
      assert Timer(t.key, t.rotation) in w'.slots[s];
    }
  }

  /** Nothing fires, and nothing stays, that was not there before. */
  lemma TickInventsNothing<K>(w: Wheel<K>, s: nat, t: Timer<K>, k: K)
    requires WellFormed(w) && s < N
    ensures var (w', fired) := Tick(w);
            && (k in fired ==> Timer(k, 0) in w.slots[w.cur])
            && (t in w'.slots[s] ==>
                  var rot := if s == w.cur then t.rotation + 1 else t.rotation;
                  Timer(t.key, rot) in w.slots[s] &&
                  Remaining(w'.cur, s, t.rotation) == Remaining(w.cur, s, rot) - 1)
  {
    DueOf(w.slots[w.cur], k);
    SurvivorsOf(w.slots[w.cur], t);
  }
}
