/** The time wheel with its real slot array and linked slot lists. */
module HashedWheel {
  import opened Chains
  import opened WheelModel

  datatype Item = Item(rotation: nat, timeSlot: nat)

  type TwTimer = Node<Item>

  /** A slot list in the heap and its description by values. */
  ghost predicate SlotOk(head: Node?<Item>, ns: seq<TwTimer>, ts: seq<Timer<TwTimer>>, s: nat)
    reads ns
  {
    && Chain(ns) && head == At(ns, 0)
    && |ts| == |ns|
    && forall i :: 0 <= i < |ns| ==> ts[i].key == ns[i] && ns[i].item == Item(ts[i].rotation, s)
  }

  class TimeWheel {
    var slots: array<Node?<Item>>
    var curSlot: nat

    ghost var lists: seq<seq<TwTimer>>         // the nodes of each slot
    ghost var model: seq<seq<Timer<TwTimer>>>  // the same with their rotations

    ghost predicate Valid()
      reads this, slots, set s, i | 0 <= s < |lists| && 0 <= i < |lists[s]| :: lists[s][i]
    {
      && slots.Length == |lists| == |model| == N && curSlot < N
      && forall s :: 0 <= s < N ==> SlotOk(slots[s], lists[s], model[s], s)
    }

    ghost function View(): Wheel<TwTimer>
      reads this
    {
      Wheel(model, curSlot)
    }

    constructor ()
      ensures Valid() && fresh(slots) && View() == Wheel(seq(N, _ => []), 0)
      ensures lists == seq(N, _ => [])
    {
      slots := new Node?<Item>[N](_ => null);
      curSlot := 0;
      lists, model := seq(N, _ => []), seq(N, _ => []);
    }

    /** Slot lists share no node, since every node knows its slot. */
    lemma SlotsApart(s: nat)
      requires Valid() && s < N
      ensures forall t, i :: 0 <= t < N && t != s && 0 <= i < |lists[t]| ==> lists[t][i] !in lists[s]
    {
      forall t, i | 0 <= t < N && t != s && 0 <= i < |lists[t]| ensures lists[t][i] !in lists[s] {
        assert SlotOk(slots[t], lists[t], model[t], t) && SlotOk(slots[s], lists[s], model[s], s);
        assert lists[t][i].item.timeSlot == t;
      }
    }

    /** Creates a timer and puts it at the front of its slot; null for a negative timeout. */
    method AddTimer(timeout: int) returns (timer: Node?<Item>)
      requires Valid()
      modifies slots, `lists, `model, set s, i | 0 <= s < |lists| && 0 <= i < |lists[s]| :: lists[s][i]
      ensures Valid()
      ensures timer == null <==> timeout < 0
      ensures timer == null ==> View() == old(View()) && lists == old(lists)
      ensures timer != null ==> fresh(timer) && View() == Add(old(View()), timer, TicksOf(timeout))
      ensures timer != null ==>
                var ts := SlotFor(curSlot, TicksOf(timeout));
                lists == old(lists)[ts := InsertAt(old(lists)[ts], 0, timer)]
      ensures timer != null ==>
                && timer.item.timeSlot < N
                && Waits(timeout, Remaining(curSlot, timer.item.timeSlot, timer.item.rotation))
    {
      if timeout < 0 { return null; }
      var node := NewTimer(timeout);
      timer := node;
      Push(node, node.item.timeSlot);
    }

    /** A node with the rotation and the slot for its timeout. */
    method NewTimer(timeout: nat) returns (timer: TwTimer)
      requires curSlot < N
      ensures fresh(timer) && timer.prev == null && timer.next == null
      ensures timer.item == Item(TicksOf(timeout) / N, SlotFor(curSlot, TicksOf(timeout))) && timer.item.timeSlot < N
      ensures Waits(timeout, Remaining(curSlot, timer.item.timeSlot, timer.item.rotation))
    {
      var ticks := if timeout < SI then 1 else timeout / SI;
      var rotation := ticks / N;
      var ts := (curSlot + ticks % N) % N;
      timer := new Node(Item(rotation, ts));
      PlaceIsRemaining(curSlot, ts, rotation, ticks);
      TicksWait(timeout);
    }

    method Push(timer: TwTimer, ts: nat)
      requires Valid() && ts < N && timer.item.timeSlot == ts
      requires forall s, i :: 0 <= s < N && 0 <= i < |lists[s]| ==> lists[s][i] != timer
      modifies slots, `lists, `model, lists[ts]`prev, lists[ts]`next, timer`prev, timer`next
      ensures Valid()
      ensures model == old(model)[ts := InsertAt(old(model)[ts], 0, Timer(timer, timer.item.rotation))]
      ensures lists == old(lists)[ts := InsertAt(old(lists)[ts], 0, timer)]
    {
      SlotsApart(ts);
      assert SlotOk(slots[ts], lists[ts], model[ts], ts);
      ghost var ns := lists[ts];
      var first := slots[ts];
      slots[ts] := timer;
      model := model[ts := InsertAt(model[ts], 0, Timer(timer, timer.item.rotation))];
      lists := lists[ts := InsertAt(lists[ts], 0, timer)];
      Splice(ns, 0, timer, null, first);
      forall s | 0 <= s < N ensures SlotOk(slots[s], lists[s], model[s], s) {
        if s != ts { assert old(SlotOk(slots[s], lists[s], model[s], s)); }
      }
    }

    /** Takes a node out of slot `s`, resetting the slot's head if it was the head. */
    method Unlink(timer: TwTimer, s: nat, ghost i: nat)
      requires Valid() && s < N && i < |lists[s]| && lists[s][i] == timer
      modifies slots, `lists, `model, lists[s]`prev, lists[s]`next
      ensures Valid() && timer.next == old(timer.next)
      ensures model == old(model)[s := RemoveAt(old(model)[s], i)]
      ensures lists == old(lists)[s := RemoveAt(old(lists)[s], i)]
    {
      SlotsApart(s);
      assert SlotOk(slots[s], lists[s], model[s], s);
      ghost var ns := lists[s];
      if timer == slots[s] { slots[s] := timer.next; }
      model := model[s := RemoveAt(model[s], i)];
      lists := lists[s := RemoveAt(lists[s], i)];
      Unsplice(ns, i, timer);
      forall t | 0 <= t < N ensures SlotOk(slots[t], lists[t], model[t], t) {
        if t != s { assert old(SlotOk(slots[t], lists[t], model[t], t)); }
      }
    }

    /** Deletes a timer, which knows the slot it is in. */
    method DelTimer(timer: Node?<Item>, ghost i: nat)
      requires Valid()
      requires timer != null ==> var s := timer.item.timeSlot; s < N && i < |lists[s]| && lists[s][i] == timer
      modifies slots, `lists, `model
      modifies (if timer != null then set n | n in lists[timer.item.timeSlot] else {})`prev
      modifies (if timer != null then set n | n in lists[timer.item.timeSlot] else {})`next
      ensures Valid()
      ensures timer == null ==> View() == old(View()) && lists == old(lists)
      ensures timer != null ==> |old(model)[timer.item.timeSlot]| == |old(lists)[timer.item.timeSlot]|
      ensures timer != null ==> View() == Delete(old(View()), timer.item.timeSlot, i)
      ensures timer != null ==>
                var s := timer.item.timeSlot; lists == old(lists)[s := RemoveAt(old(lists)[s], i)]
    {
      if timer == null { return; }
      Unlink(timer, timer.item.timeSlot, i);
    }

    /** One rotation less for a timer that is not due on this visit. */
    method Skip(timer: TwTimer, s: nat, ghost i: nat)
      requires Valid() && s < N && i < |lists[s]| && lists[s][i] == timer && timer.item.rotation > 0
      modifies `model, timer`item
      ensures Valid()
      ensures model == old(model)[s := old(model)[s][i := Timer(timer, old(timer.item.rotation) - 1)]]
    {
      SlotsApart(s);
      assert SlotOk(slots[s], lists[s], model[s], s);
      timer.item := timer.item.(rotation := timer.item.rotation - 1);
      model := model[s := model[s][i := Timer(timer, timer.item.rotation)]];
      forall t | 0 <= t < N ensures SlotOk(slots[t], lists[t], model[t], t) {
        if t != s { assert old(SlotOk(slots[t], lists[t], model[t], t)); }
      }
    }

    /** Serves one node of the current slot and steps to the next. */
    method Visit(timer: TwTimer, ghost k: nat, ghost repr: set<TwTimer>) returns (fires: bool, next: Node?<Item>)
      requires Valid() && k < |lists[curSlot]| && lists[curSlot][k] == timer
      requires forall i :: 0 <= i < |lists[curSlot]| ==> lists[curSlot][i] in repr
      modifies slots, `lists, `model, repr
      ensures Valid() && k < |old(model)[curSlot]| && old(model)[curSlot][k].key == timer
      ensures fires <==> old(model)[curSlot][k].rotation == 0
      ensures model == old(model)[curSlot := Serve(old(model)[curSlot], k)] && |lists[curSlot]| == |model[curSlot]|
      ensures forall i :: 0 <= i < |lists[curSlot]| ==> lists[curSlot][i] in repr
      ensures next == At(lists[curSlot], if fires then k else k + 1)
    {
      assert SlotOk(slots[curSlot], lists[curSlot], model[curSlot], curSlot);
      next := timer.next;
      fires := timer.item.rotation == 0;
      if fires {
        Unlink(timer, curSlot, k);
      } else {
        Skip(timer, curSlot, k);
      }
    }

    /** A visit that found the slots `before` has served `k` timers of the current one and
    fired `fired`, has come to node `tmp`, and may change the nodes in `repr`. */
    ghost predicate Visiting(before: seq<seq<Timer<TwTimer>>>, k: nat, fired: seq<TwTimer>, tmp: Node?<Item>,
                             repr: set<TwTimer>)
      requires curSlot < |before| && curSlot < |lists|
      reads this
    {
      var was := before[curSlot];
      && k <= |was| && model == before[curSlot := Midway(was, k)] && fired == Due(was[..k])
      && |lists[curSlot]| == |model[curSlot]| && tmp == At(lists[curSlot], Kept(was, k))
      && forall i :: 0 <= i < |lists[curSlot]| ==> lists[curSlot][i] in repr
    }

    /** One turn of the loop over the current slot. */
    method ServeOne(ghost before: seq<seq<Timer<TwTimer>>>, ghost k: nat, fired: seq<TwTimer>, timer: TwTimer,
                    ghost repr: set<TwTimer>)
      returns (fired': seq<TwTimer>, next: Node?<Item>)
      requires Valid() && |before| == N && Visiting(before, k, fired, timer, repr)
      modifies slots, `lists, `model, repr
      ensures Valid() && Visiting(before, k + 1, fired', next, repr)
    {
      ServeStep(before[curSlot], k);
      var fires;
      fires, next := Visit(timer, Kept(before[curSlot], k), repr);
      fired' := if fires then fired + [timer] else fired;
    }

    /** Visits every node of the current slot. */
    method ServeSlot(ghost repr: set<TwTimer>) returns (fired: seq<TwTimer>)
      requires Valid()
      requires forall i :: 0 <= i < |lists[curSlot]| ==> lists[curSlot][i] in repr
      modifies slots, `lists, `model, repr
      ensures Valid()
      ensures fired == Due(old(model)[curSlot])
      ensures model == old(model)[curSlot := Survivors(old(model)[curSlot])]
    {
      fired := [];
      ghost var before, k := model, 0;  // k nodes visited so far
      var tmp := slots[curSlot];
      assert SlotOk(slots[curSlot], lists[curSlot], model[curSlot], curSlot);
      MidwayEnds(before[curSlot]);
      while tmp != null
        invariant Valid() && Visiting(before, k, fired, tmp, repr)
        decreases |before[curSlot]| - k
      {
        fired, tmp := ServeOne(before, k, fired, tmp, repr);
        k := k + 1;
      }
      assert k == |before[curSlot]|;
    }

    /** Serves the current slot, then moves on to the next one. */
    method Tick() returns (fired: seq<TwTimer>)
      requires Valid()
      modifies slots, `lists, `model, `curSlot, lists[curSlot]
      ensures Valid()
      ensures (View(), fired) == WheelModel.Tick(old(View()))
    {
      fired := ServeSlot(set n | n in lists[curSlot]);
      curSlot := (curSlot + 1) % N;
    }
  }
}
