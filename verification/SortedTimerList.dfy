/** The ascending doubly linked timer list, with its real links. */
module SortedTimerList {
  import opened Chains
  import opened TimerOrder

  /** What a timer carries: its absolute expiry time and whose timer it is. */
  datatype Payload = Payload(expire: int, user: nat)

  type UtilTimer = Node<Payload>

  /** `es` lists exactly the nodes `ns`, none of which has been freed. */
  ghost predicate Lists(es: seq<Entry<UtilTimer>>, ns: seq<UtilTimer>, freed: set<UtilTimer>) {
    |es| == |ns| && forall i :: 0 <= i < |ns| ==> es[i].key == ns[i] && ns[i] !in freed
  }

  /** The recorded expiries are the nodes' own. */
  ghost predicate Current(es: seq<Entry<UtilTimer>>, ns: seq<UtilTimer>)
    requires |es| == |ns|
    reads ns`item
  {
    forall i :: 0 <= i < |ns| ==> es[i].expire == ns[i].item.expire
  }

  /** The same, but for the node whose expiry has just been set by its owner. */
  ghost predicate CurrentExcept(es: seq<Entry<UtilTimer>>, ns: seq<UtilTimer>, k: nat)
    requires |es| == |ns|
    reads ns`item
  {
    forall i :: 0 <= i < |ns| && i != k ==> es[i].expire == ns[i].item.expire
  }

  lemma InsertLists(es: seq<Entry<UtilTimer>>, ns: seq<UtilTimer>, p: nat, e: Entry<UtilTimer>, freed: set<UtilTimer>)
    requires Lists(es, ns, freed) && Current(es, ns) && p <= |ns|
    requires e.key !in freed && e.expire == e.key.item.expire
    ensures Lists(InsertAt(es, p, e), InsertAt(ns, p, e.key), freed)
    ensures Current(InsertAt(es, p, e), InsertAt(ns, p, e.key))
  {
    var es', ns' := InsertAt(es, p, e), InsertAt(ns, p, e.key);
    forall i | 0 <= i < |ns'| ensures es'[i].key == ns'[i] && ns'[i] !in freed && es'[i].expire == ns'[i].item.expire {
      var j := if i < p then i else i - 1;
      assert i != p ==> es'[i] == es[j] && ns'[i] == ns[j];
    }
  }

  lemma RemoveLists(es: seq<Entry<UtilTimer>>, ns: seq<UtilTimer>, i: nat, freed: set<UtilTimer>)
    requires Lists(es, ns, freed) && CurrentExcept(es, ns, i) && i < |ns| && Distinct(ns)
    ensures Lists(RemoveAt(es, i), RemoveAt(ns, i), freed + {ns[i]})
    ensures Current(RemoveAt(es, i), RemoveAt(ns, i))
  {
    var es', ns' := RemoveAt(es, i), RemoveAt(ns, i);
    forall k | 0 <= k < |ns'|
      ensures es'[k].key == ns'[k] && ns'[k] !in freed + {ns[i]} && es'[k].expire == ns'[k].item.expire
    {
      var j := if k < i then k else k + 1;
      assert es'[k] == es[j] && ns'[k] == ns[j];
    }
  }

  lemma NoneBelow(es: seq<Entry<UtilTimer>>, i: nat, t: int)
    requires Sorted(es) && i + 1 < |es| && es[i + 1].expire <= t
    ensures forall k :: 0 <= k <= i ==> RemoveAt(es, i)[k].expire <= t
  {
    assert forall k :: 0 <= k <= i ==> Before(es[k], es[i + 1]);
  }

  ghost function Members(ns: seq<UtilTimer>): set<UtilTimer> {
    set n | n in ns
  }

  lemma MembersMore(ns: seq<UtilTimer>, n: UtilTimer)
    ensures Members(ns + [n]) == Members(ns) + {n}
  {
  }

  lemma Shift<T>(a: seq<T>, b: seq<T>)
    requires b != []
    ensures (a + [b[0]]) + b[1..] == a + b
  {
  }

  lemma Apart<T>(a: seq<T>, b: seq<T>)
    ensures (a + b)[..|a|] == a && (a + b)[|a|..] == b
  {
  }

  lemma DuePrefix(gone: seq<Entry<UtilTimer>>, rest: seq<Entry<UtilTimer>>, now: int)
    requires forall i :: 0 <= i < |gone| ==> gone[i].expire <= now
    requires rest != [] ==> now < rest[0].expire
    ensures Position(gone + rest, now) == |gone|
  {
    var es := gone + rest;
    assert forall i :: 0 <= i < |gone| ==> es[i] == gone[i];
    PositionIs(es, now, |gone|);
  }

  lemma DropFirst(es: seq<Entry<UtilTimer>>, ns: seq<UtilTimer>, freed: set<UtilTimer>, touches: nat)
    requires Lists(es, ns, freed) && Current(es, ns) && ns != [] && Distinct(ns)
    requires Sorted(es) && Stamped(es, touches)
    ensures Lists(es[1..], ns[1..], freed + {ns[0]}) && Current(es[1..], ns[1..])
    ensures Sorted(es[1..]) && Stamped(es[1..], touches)
  {
    RemoveKeepsOrder(es, 0, touches);
    RemoveLists(es, ns, 0, freed);
    assert RemoveAt(es, 0) == es[1..] && RemoveAt(ns, 0) == ns[1..];
  }

  class SortTimerList {
    var head: Node?<Payload>
    var tail: Node?<Payload>

    ghost var nodes: seq<UtilTimer>         // first to last
    ghost var model: seq<Entry<UtilTimer>>  // the same nodes with expiry and stamp
    ghost var touches: nat                  // insertions and adjustments so far
    ghost var freed: set<UtilTimer>         // timers given back to the allocator

    /** Well-formedness of the links.  `tail` is meaningful only while there is a
    head: ticking the list empty leaves a stale `tail` behind. */
    ghost predicate Shape()
      reads `head, `tail, `nodes, nodes`prev, nodes`next
    {
      && Chain(nodes)
      && head == At(nodes, 0)
      && (head != null ==> tail == At(nodes, |nodes| - 1))
    }

    /** The model lists the nodes in service order. */
    ghost predicate Ordered()
      reads this
    {
      Lists(model, nodes, freed) && Sorted(model) && Stamped(model, touches)
    }

    ghost predicate Valid()
      reads this, nodes
    {
      Shape() && Ordered() && Current(model, nodes)
    }

    constructor ()
      ensures Valid() && model == [] && nodes == [] && freed == {}
    {
      head, tail := null, null;
      nodes, model, touches, freed := [], [], 0, {};
    }

    /** Puts `timer` between two neighbours. */
    method Link(timer: UtilTimer, prev: Node?<Payload>, next: Node?<Payload>, ghost p: nat)
      requires Shape() && timer !in nodes && p <= |nodes|
      requires prev == At(nodes, p - 1) && next == At(nodes, p)
      modifies `head, `tail, `nodes, nodes`prev, nodes`next, timer`prev, timer`next
      ensures Shape() && nodes == InsertAt(old(nodes), p, timer)
    {
      ghost var ns := nodes;
      if prev == null { head := timer; }
      if next == null { tail := timer; }
      nodes := InsertAt(nodes, p, timer);
      Splice(ns, p, timer, prev, next);
    }

    /** The same at the place that the order calls for. */
    method LinkInOrder(timer: UtilTimer, prev: Node?<Payload>, next: Node?<Payload>)
      requires Valid() && timer !in nodes && timer !in freed
      requires prev == At(nodes, Position(model, timer.item.expire) - 1)
      requires next == At(nodes, Position(model, timer.item.expire))
      modifies this, nodes`prev, nodes`next, timer`prev, timer`next
      ensures Valid()
      ensures model == Insert(old(model), Entry(timer, timer.item.expire, old(touches)))
      ensures nodes == InsertAt(old(nodes), Position(old(model), timer.item.expire), timer)
      ensures touches == old(touches) + 1 && freed == old(freed)
    {
      ghost var p, e := Position(model, timer.item.expire), Entry(timer, timer.item.expire, touches);
      InsertKeepsOrder(model, e);
      InsertLists(model, nodes, p, e, freed);
      model, touches := Insert(model, e), touches + 1;
      Link(timer, prev, next, p);
    }

    /** The private overload: search for the place from `lstHead` onwards. */
    method AddAfter(timer: UtilTimer, lstHead: UtilTimer, ghost at: nat)
      requires Valid() && timer !in nodes && timer !in freed
      requires at < |nodes| && nodes[at] == lstHead
      requires forall i :: 0 <= i <= at ==> model[i].expire <= timer.item.expire
      modifies this, nodes`prev, nodes`next, timer`prev, timer`next
      ensures Valid()
      ensures model == Insert(old(model), Entry(timer, timer.item.expire, old(touches)))
      ensures nodes == InsertAt(old(nodes), Position(old(model), timer.item.expire), timer)
      ensures touches == old(touches) + 1 && freed == old(freed)
    {
      var prev := lstHead;
      var tmp := lstHead.next;
      ghost var p := at + 1;
      while tmp != null && timer.item.expire >= tmp.item.expire
        invariant at < p <= |nodes|
        invariant prev == nodes[p - 1] && tmp == At(nodes, p)
        invariant forall i :: 0 <= i < p ==> model[i].expire <= timer.item.expire
        decreases |nodes| - p
      {
        prev := tmp;
        tmp := tmp.next;
        p := p + 1;
      }
      PositionIs(model, timer.item.expire, p);
      LinkInOrder(timer, prev, tmp);
    }

    /** Adds a timer; a null timer is ignored. */
    method AddTimer(timer: Node?<Payload>)
      requires Valid()
      requires timer != null ==> timer !in nodes && timer !in freed && timer.prev == null && timer.next == null
      modifies this, nodes`prev, nodes`next
      modifies (if timer == null then {} else {timer})`prev, (if timer == null then {} else {timer})`next
      ensures Valid() && freed == old(freed)
      ensures timer == null ==> model == old(model) && nodes == old(nodes) && touches == old(touches)
      ensures timer != null ==> touches == old(touches) + 1
      ensures timer != null ==> model == Insert(old(model), Entry(timer, timer.item.expire, old(touches)))
      ensures timer != null ==> nodes == InsertAt(old(nodes), Position(old(model), timer.item.expire), timer)
    {
      if timer == null { return; }
      if head == null || timer.item.expire < head.item.expire {
        LinkInOrder(timer, null, head);
        return;
      }
      AddAfter(timer, head, 0);
    }

    /** Takes `timer` out of the chain, whichever end it is at. */
    method Unlink(timer: UtilTimer, ghost i: nat)
      requires Shape() && i < |nodes| && nodes[i] == timer
      modifies `head, `tail, `nodes, nodes`prev, nodes`next
      ensures Shape() && nodes == RemoveAt(old(nodes), i) && timer !in nodes
      ensures timer.prev == old(timer.prev) && timer.next == old(timer.next)
    {
      ghost var ns := nodes;
      if timer == head && timer == tail {
        head, tail := null, null;
      } else if timer == head {
        head := timer.next;
      } else if timer == tail {
        tail := timer.prev;
      }
      nodes := RemoveAt(nodes, i);
      Unsplice(ns, i, timer);
    }

    /** Deletes a timer; its node goes back to the allocator. */
    method DelTimer(timer: Node?<Payload>, ghost i: nat)
      requires Valid()
      requires timer != null ==> i < |nodes| && nodes[i] == timer
      modifies this, nodes`prev, nodes`next
      ensures Valid() && touches == old(touches)
      ensures timer == null ==> model == old(model) && nodes == old(nodes) && freed == old(freed)
      ensures timer != null ==> model == RemoveAt(old(model), i) && nodes == RemoveAt(old(nodes), i)
      ensures timer != null ==> freed == old(freed) + {timer}
    {
      if timer == null { return; }
      RemoveKeepsOrder(model, i, touches);
      RemoveLists(model, nodes, i, freed);
      model := RemoveAt(model, i);
      freed := freed + {timer};
      Unlink(timer, i);
    }

    /** Takes a timer, whose expiry may have changed, out of the list. */
    method TakeOut(timer: UtilTimer, ghost i: nat)
      requires Shape() && Ordered() && CurrentExcept(model, nodes, i) && i < |nodes| && nodes[i] == timer
      modifies `head, `tail, `nodes, `model, nodes`prev, nodes`next
      ensures Valid() && timer !in nodes && timer !in freed
      ensures model == RemoveAt(old(model), i) && nodes == RemoveAt(old(nodes), i)
    {
      RemoveKeepsOrder(model, i, touches);
      RemoveLists(model, nodes, i, freed);
      model := RemoveAt(model, i);
      Unlink(timer, i);
    }

    /** Takes a timer out and searches for its place behind its old successor. */
    method Reinsert(timer: UtilTimer, next: UtilTimer, ghost i: nat)
      requires Shape() && Ordered() && CurrentExcept(model, nodes, i)
      requires i + 1 < |nodes| && nodes[i] == timer && nodes[i + 1] == next
      requires next.item.expire <= timer.item.expire
      modifies this, nodes`prev, nodes`next
      ensures Valid() && freed == old(freed) && touches == old(touches) + 1
      ensures model == Insert(RemoveAt(old(model), i), Entry(timer, timer.item.expire, old(touches)))
    {
      NoneBelow(model, i, timer.item.expire);
      TakeOut(timer, i);
      AddAfter(timer, next, i);
    }

    /** Moves a timer whose expiry its owner has just changed.  Only later places
    are searched, so the list stays in order exactly when the new expiry is not
    below the predecessor's. */
    method AdjustTimer(timer: Node?<Payload>, ghost i: nat)
      requires if timer == null then Valid() else i < |nodes| && nodes[i] == timer
      requires Shape() && Ordered() && CurrentExcept(model, nodes, i)
      modifies this, nodes`prev, nodes`next
      ensures Shape() && Lists(model, nodes, freed) && Current(model, nodes) && freed == old(freed)
      ensures timer == null ==> model == old(model) && nodes == old(nodes) && touches == old(touches)
      ensures timer != null ==> model == Adjust(old(model), i, timer.item.expire, old(touches))
      ensures timer != null ==> touches == old(touches) + 1
      ensures Valid() <==> timer == null || i == 0 || old(model)[i - 1].expire <= timer.item.expire
    {
      if timer == null { return; }
      var tmp := timer.next;
      AdjustOrder(model, i, timer.item.expire, touches);
      if tmp == null || timer.item.expire < tmp.item.expire {
        model := model[i := Entry(timer, timer.item.expire, touches)];
        touches := touches + 1;
        return;
      }
      Reinsert(timer, tmp, i);
    }

    /** Makes the second node the head; `tail` is left alone. */
    method UnlinkHead()
      requires Shape() && head != null
      modifies `head, `nodes, nodes`prev
      ensures Shape() && nodes == old(nodes)[1..]
    {
      nodes := nodes[1..];
      head := head.next;
      if head != null { head.prev := null; }
    }

    /** Takes the head, whose callback is then run, and frees it. */
    method PopHead() returns (timer: UtilTimer)
      requires Valid() && head != null
      modifies `head, `nodes, `model, `freed, nodes`prev
      ensures Valid() && model == old(model)[1..] && nodes == old(nodes)[1..]
      ensures timer == old(nodes)[0] && freed == old(freed) + {timer}
    {
      DropFirst(model, nodes, freed, touches);
      timer := head;
      model := model[1..];
      freed := freed + {timer};
      UnlinkHead();
    }

    /** A tick that began with nodes `ns`, entries `es` and freed timers `was` has fired `fired`, whose
    entries are `gone`. */
    ghost predicate Ticking(fired: seq<UtilTimer>, gone: seq<Entry<UtilTimer>>,
                            ns: seq<UtilTimer>, es: seq<Entry<UtilTimer>>,
                            was: set<UtilTimer>, now: int, repr: set<UtilTimer>)
      reads this
    {
      && fired + nodes == ns && gone + model == es && |fired| == |gone|
      && (forall i :: 0 <= i < |gone| ==> gone[i].expire <= now)
      && (forall i :: 0 <= i < |nodes| ==> nodes[i] in repr) && freed == was + Members(fired)
    }

    /** One turn of the tick's loop. */
    method FireHead(fired: seq<UtilTimer>, ghost gone: seq<Entry<UtilTimer>>,
                    ghost ns: seq<UtilTimer>, ghost es: seq<Entry<UtilTimer>>, ghost was: set<UtilTimer>,
                    now: int, ghost repr: set<UtilTimer>)
      returns (fired': seq<UtilTimer>, ghost gone': seq<Entry<UtilTimer>>)
      requires Valid() && Ticking(fired, gone, ns, es, was, now, repr) && head != null && head.item.expire <= now
      modifies `head, `nodes, `model, `freed, repr`prev
      ensures Valid() && Ticking(fired', gone', ns, es, was, now, repr) && |nodes| < old(|nodes|)
    {
      Shift(fired, nodes);
      Shift(gone, model);
      gone' := gone + [model[0]];
      var timer := PopHead();
      MembersMore(fired, timer);
      fired' := fired + [timer];
    }

    method TickLoop(now: int, ghost repr: set<UtilTimer>) returns (fired: seq<UtilTimer>, ghost gone: seq<Entry<UtilTimer>>)
      requires Valid() && forall i :: 0 <= i < |nodes| ==> nodes[i] in repr
      modifies `head, `nodes, `model, `freed, repr`prev
      ensures Valid() && Ticking(fired, gone, old(nodes), old(model), old(freed), now, repr)
      ensures nodes != [] ==> now < model[0].expire
    {
      fired, gone := [], [];
      while head != null && now >= head.item.expire
        invariant Valid() && Ticking(fired, gone, old(nodes), old(model), old(freed), now, repr)
        decreases |nodes|
      {
        fired, gone := FireHead(fired, gone, old(nodes), old(model), old(freed), now, repr);
      }
    }

    /** Fires every timer due at time `now`, in service order. */
    method Tick(now: int) returns (fired: seq<UtilTimer>)
      requires Valid()
      modifies `head, `nodes, `model, `freed, nodes`prev
      ensures Valid()
      ensures fired == old(nodes)[..Position(old(model), now)]
      ensures nodes == old(nodes)[Position(old(model), now)..]
      ensures model == old(model)[Position(old(model), now)..]
      ensures freed == old(freed) + Members(fired)
    {
      ghost var gone;
      fired, gone := TickLoop(now, Members(nodes));
      DuePrefix(gone, model, now);
      Apart(gone, model);
      Apart(fired, nodes);
    }
  }
}
