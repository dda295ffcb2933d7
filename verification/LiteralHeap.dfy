/** The timer heap with its indices exactly as they are written: percolate_down stops
one cell short of the last, and add_timer starts one cell beyond the first free one. */
module LiteralHeap {
  import opened TimeHeap

  predicate Due(t: HeapTimer?, now: int) {
    Key(t) <= now
  }

  /** All cells but the last are in order: what the bound as written can promise. */
  ghost predicate AlmostHeap(s: seq<HeapTimer?>, n: nat) {
    Full(s, n) && (n > 0 ==> HeapFrom(s, 0, n - 1))
  }

  ghost predicate RootLeast(s: seq<HeapTimer?>, n: nat)
    requires n <= |s|
  {
    forall j :: 0 <= j < n ==> Key(s[0]) <= Key(s[j])
  }

  // ---------- construction ----------

  /** The heap that construction leaves has its minimum at the root exactly if the last of
  the given timers was not the only minimum. */
  lemma LiteralBound(s: seq<HeapTimer?>, r: seq<HeapTimer?>, n: nat)
    requires 1 < n <= |s| == |r| && multiset(r) == multiset(s) && HeapFrom(r, 0, n - 1)
    requires forall i :: n - 1 <= i < |s| ==> r[i] == s[i]
    ensures RootLeast(r, n) <==> exists i :: 0 <= i < n - 1 && Key(s[i]) <= Key(s[n - 1])
  {
    var m := n - 1;
    PrefixMultiset(s, r, m);
    forall j | 0 <= j < m ensures Key(r[0]) <= Key(r[j]) { RootIsMin(r, m, j); }
    assert r[..m][0] == r[0];
    assert r[0] in Bag(r[..m]) && r[0] in Bag(s[..m]);
    if i :| 0 <= i < m && Key(s[i]) <= Key(s[m]) {
      assert s[..m][i] in Bag(s[..m]) && s[i] in Bag(r[..m]);
      var j :| 0 <= j < m && r[..m][j] == s[i];
    }
    if RootLeast(r, n) {
      var i :| 0 <= i < m && s[..m][i] == r[0];
      assert Key(s[i]) <= Key(s[m]);
    }
  }

  // ---------- pop_timer ----------

  /** pop_timer with `n` timers: the last replaces the root and sinks among the first n - 2. */
  function AfterPop(s: seq<HeapTimer?>, n: nat): (r: seq<HeapTimer?>)
    requires 0 < n <= |s|
    ensures |r| == |s|
  {
    SiftDown(s[0 := s[n - 1]], 0, if n < 2 then 0 else n - 2)
  }

  /** It keeps what construction promised, loses exactly the root, and leaves the new
  last cell alone. */
  lemma PopKeeps(s: seq<HeapTimer?>, n: nat)
    requires 0 < n <= |s| && AlmostHeap(s, n)
    ensures AlmostHeap(AfterPop(s, n), n - 1) && Bag(s[..n]) == Bag(AfterPop(s, n)[..n - 1]) + multiset{s[0]}
    ensures n >= 3 ==> AfterPop(s, n)[n - 2] == s[n - 2]
  {
    var t, m := s[0 := s[n - 1]], if n < 2 then 0 else n - 2;
    LastToRoot(s, t, n - 1, m);
    SiftDownHeap(t, 0, 0, m);
    SiftDownPermutes(t, 0, m);
    PrefixMultiset(t, AfterPop(s, n), n - 1);
    assert forall i :: 0 <= i < n - 1 && i >= m ==> AfterPop(s, n)[i] == t[i];
  }

  /** With four timers left or more the root is a minimum again, even where the last cell
  was out of order before. */
  lemma PopRoot(s: seq<HeapTimer?>, n: nat)
    requires 5 <= n <= |s| && AlmostHeap(s, n)
    ensures RootLeast(AfterPop(s, n), n - 1)
  {
    var r, m := AfterPop(s, n), n - 2;
    PopKeeps(s, n);
    var k := FindAgain(s, n, Parent(m));
    assert Ok(s, m);
    forall j | 0 <= j < n - 1 ensures Key(r[0]) <= Key(r[j]) {
      RootIsMin(r, m, if j < m then j else k);
    }
  }

  /** The other timers that take part in the sift are still among its cells. */
  lemma FindAgain(s: seq<HeapTimer?>, n: nat, p: nat) returns (k: nat)
    requires 0 < p && p + 2 < n <= |s|
    ensures k < n - 2 && AfterPop(s, n)[k] == s[p]
  {
    var t, r, m := s[0 := s[n - 1]], AfterPop(s, n), n - 2;
    SiftDownPermutes(t, 0, m);
    PrefixMultiset(t, r, m);
    assert t[..m][p] == s[p] && s[p] in Bag(t[..m]);
    k :| 0 <= k < m && r[..m][k] == s[p];
  }

  // ---------- tick ----------

  datatype Ticked = Ticked(cells: seq<HeapTimer?>, size: nat, popped: seq<HeapTimer?>)

  function AfterTick(s: seq<HeapTimer?>, n: nat, now: int): (t: Ticked)
    requires n <= |s|
    ensures |t.cells| == |s| && t.size <= n
    decreases n
  {
    if n == 0 || !Due(s[0], now) then Ticked(s, n, [])
    else
      var t := AfterTick(AfterPop(s, n), n - 1, now);
      t.(popped := [s[0]] + t.popped)
  }

  /** No timer gets lost, only due ones are popped, and of those that stay all but the
  last are not due: a tick leaves at most one due timer behind, in the last cell. */
  lemma {:induction false} TickKeeps(s: seq<HeapTimer?>, n: nat, now: int)
    requires n <= |s| && AlmostHeap(s, n)
    ensures var t := AfterTick(s, n, now);
            && AlmostHeap(t.cells, t.size) && Bag(s[..n]) == Bag(t.cells[..t.size]) + multiset(t.popped)
            && (forall x :: x in t.popped ==> Key(x) <= now)
            && (forall j :: 0 <= j < t.size && Key(t.cells[j]) <= now ==> 0 < j == t.size - 1)
    decreases n
  {
    if n == 0 || !Due(s[0], now) {
      forall j | 0 <= j < n && Due(s[j], now) ensures 0 < j == n - 1 {
        if j < n - 1 { RootIsMin(s, n - 1, j); }
      }
    } else {
      PopKeeps(s, n);
      TickKeeps(AfterPop(s, n), n - 1, now);
      var t := AfterTick(AfterPop(s, n), n - 1, now);
      assert multiset([s[0]] + t.popped) == multiset{s[0]} + multiset(t.popped);
    }
  }

  /** The tick leaves a due timer in the heap. */
  ghost predicate Misses(s: seq<HeapTimer?>, n: nat, now: int)
    requires n <= |s|
  {
    var t := AfterTick(s, n, now);
    exists j :: 0 <= j < t.size && Key(t.cells[j]) <= now
  }

  /** The cells when four timers are left, whatever the time. */
  function Drain(s: seq<HeapTimer?>, n: nat): (t: seq<HeapTimer?>)
    requires 4 <= n <= |s|
    ensures |t| == |s|
    decreases n
  {
    if n == 4 then s else Drain(AfterPop(s, n), n - 1)
  }

  lemma {:induction false} DrainFrom(s: seq<HeapTimer?>, n: nat)
    requires 4 <= n <= |s| && AlmostHeap(s, n)
    ensures Drain(s, n)[0] in Bag(s[..n])
    decreases n
  {
    if n == 4 {
      assert s[..4][0] == s[0];
    } else {
      PopKeeps(s, n);
      DrainFrom(AfterPop(s, n), n - 1);
    }
  }

  /** When a tick misses a timer, in terms of the cells before it: with no timer due at
  the root, if the last one is due; else what counts is how the due and the later timers
  lie among the last three or four. */
  predicate WillMiss(s: seq<HeapTimer?>, n: nat, now: int)
    requires n <= |s|
  {
    if n < 2 then false
    else if !Due(s[0], now) then Due(s[n - 1], now)
    else if n == 2 then false
    else if n == 3 then Due(s[1], now) && !Due(s[2], now)
    else
      var t := Drain(s, n);
      Due(t[0], now) && (Due(t[1], now) <==> Due(t[3], now)) && (Due(t[2], now) <==> !Due(t[1], now))
  }

  lemma TwoLeft(s: seq<HeapTimer?>, now: int)
    requires 2 <= |s| && AlmostHeap(s, 2)
    ensures Misses(s, 2, now) <==> !Due(s[0], now) && Due(s[1], now)
  {
    TickKeeps(s, 2, now);
    if Due(s[0], now) {
      assert AfterPop(s, 2)[0] == s[1];
      assert AfterTick(AfterPop(s, 2), 1, now).size == if Due(s[1], now) then 0 else 1;
    }
  }

  lemma ThreeLeft(s: seq<HeapTimer?>, now: int)
    requires 3 <= |s| && AlmostHeap(s, 3)
    ensures Misses(s, 3, now) <==> if Due(s[0], now) then Due(s[1], now) && !Due(s[2], now) else Due(s[2], now)
  {
    TickKeeps(s, 3, now);
    if Due(s[0], now) {
      var r := AfterPop(s, 3);
      assert r[0] == s[2] && r[1] == s[1];
      PopKeeps(s, 3);
      TwoLeft(r, now);
      SameMiss(s, 3, now);
    }
  }

  lemma FourLeft(s: seq<HeapTimer?>, now: int)
    requires 4 <= |s| && AlmostHeap(s, 4) && Due(s[0], now)
    ensures Misses(s, 4, now) <==> (Due(s[1], now) <==> Due(s[3], now)) && (Due(s[2], now) <==> !Due(s[1], now))
  {
    var r, t := AfterPop(s, 4), s[0 := s[3]];
    assert SmallChild(t, 0, 2) == 1;
    assert SiftDown(Swap(t, 0, 1), 1, 2) == Swap(t, 0, 1);
    assert r == if Key(s[1]) < Key(s[3]) then Swap(t, 0, 1) else t;
    PopKeeps(s, 4);
    ThreeLeft(r, now);
    SameMiss(s, 4, now);
  }

  lemma SameMiss(s: seq<HeapTimer?>, n: nat, now: int)
    requires 0 < n <= |s| && Due(s[0], now)
    ensures Misses(s, n, now) <==> Misses(AfterPop(s, n), n - 1, now)
  {
    var t, u := AfterTick(s, n, now), AfterTick(AfterPop(s, n), n - 1, now);
    assert t.cells == u.cells && t.size == u.size;
  }

  /** The exact condition, for every heap that construction and pops as written produce. */
  lemma {:induction false} MissesExactly(s: seq<HeapTimer?>, n: nat, now: int)
    requires n <= |s| && AlmostHeap(s, n)
    ensures Misses(s, n, now) <==> WillMiss(s, n, now)
    decreases n
  {
    if n < 5 || !Due(s[0], now) {
      MissesFew(s, n, now);
    } else {
      MissesLater(s, n, now);
      if Due(AfterPop(s, n)[0], now) {
        PopKeeps(s, n);
        MissesExactly(AfterPop(s, n), n - 1, now);
      }
    }
  }

  lemma MissesFew(s: seq<HeapTimer?>, n: nat, now: int)
    requires n <= |s| && AlmostHeap(s, n) && (n < 5 || !Due(s[0], now))
    ensures Misses(s, n, now) <==> WillMiss(s, n, now)
  {
    if n == 0 || !Due(s[0], now) {
      TickKeeps(s, n, now);
    } else if n == 1 {
      assert AfterTick(AfterPop(s, 1), 0, now).size == 0;
    } else if n == 2 {
      TwoLeft(s, now);
    } else if n == 3 {
      ThreeLeft(s, now);
    } else {
      FourLeft(s, now);
    }
  }

  lemma MissesLater(s: seq<HeapTimer?>, n: nat, now: int)
    requires 5 <= n <= |s| && AlmostHeap(s, n) && Due(s[0], now)
    ensures Misses(s, n, now) <==> Misses(AfterPop(s, n), n - 1, now)
    ensures !Due(AfterPop(s, n)[0], now) ==> !Misses(s, n, now) && !WillMiss(s, n, now)
  {
    SameMiss(s, n, now);
    PopKeeps(s, n);
    PopRoot(s, n);
    var r := AfterPop(s, n);
    if !Due(r[0], now) {
      DrainFrom(r, n - 1);
      var j :| 0 <= j < n - 1 && r[..n - 1][j] == Drain(r, n - 1)[0];
    }
  }

  /** Once something was popped and four timers or more are left, the root is a minimum. */
  lemma {:induction false} TickRoot(s: seq<HeapTimer?>, n: nat, now: int)
    requires 0 < n <= |s| && AlmostHeap(s, n) && Due(s[0], now)
    ensures AfterTick(s, n, now).size >= 4 ==> RootLeast(AfterTick(s, n, now).cells, AfterTick(s, n, now).size)
    decreases n
  {
    var r := AfterPop(s, n);
    PopKeeps(s, n);
    if n > 1 && Due(r[0], now) {
      TickRoot(r, n - 1, now);
    } else if n >= 5 {
      PopRoot(s, n);
    }
  }

  /** So nothing is missed when the root is due and three timers are not. */
  lemma ThreeLaterSuffice(s: seq<HeapTimer?>, n: nat, now: int, later: multiset<HeapTimer?>)
    requires 0 < n <= |s| && AlmostHeap(s, n) && Due(s[0], now)
    requires later <= Bag(s[..n]) && |later| == 3 && forall x :: x in later ==> !Due(x, now)
    ensures !Misses(s, n, now)
  {
    var t := AfterTick(s, n, now);
    TickKeeps(s, n, now);
    TickRoot(s, n, now);
    var left := t.cells[..t.size];
    StillLeft(Bag(s[..n]), Bag(left), multiset(t.popped), later);
    assert t.size == |left| == |Bag(left)| >= 3;
    if t.size == 3 {
      assert left[2] in Bag(left);
      assert |Bag(left) - later| == 0;
      assert Bag(left) == later;
    }
  }

  lemma StillLeft(all: multiset<HeapTimer?>, left: multiset<HeapTimer?>, gone: multiset<HeapTimer?>, later: multiset<HeapTimer?>)
    requires all == left + gone && later <= all && forall x :: x in later ==> x !in gone
    ensures later <= left && |left| == |later| + |left - later|
  {
    forall x ensures later[x] <= left[x] {
      assert later[x] <= all[x] == left[x] + gone[x];
    }
    assert left == later + (left - later);
  }

  /** Three timers in heap order of which a tick pops the first and overlooks the second. */
  lemma MissesSecond(a: HeapTimer, b: HeapTimer, c: HeapTimer, now: int)
    requires a.expire <= b.expire <= now < c.expire
    ensures HeapFrom([a, b, c], 0, 3) && AfterTick([a, b, c], 3, now) == Ticked([c, b, c], 2, [a])
  {
    var s := [a, b, c];
    assert AfterPop(s, 3) == [c, b, c];
    assert AfterTick([c, b, c], 2, now) == Ticked([c, b, c], 2, []);
  }

  /** Two timers whose order construction as written does not repair, so that a tick
  between the two overlooks the earlier; the intended bound would repair it. */
  lemma LiteralBoundMissesTimer(late: HeapTimer, soon: HeapTimer, now: int)
    requires soon.expire <= now < late.expire
    ensures SiftDown([late, soon], 0, 2 - 1) == [late, soon]
    ensures AfterTick([late, soon], 2, now) == Ticked([late, soon], 2, []) && Misses([late, soon], 2, now)
    ensures SiftDown([late, soon], 0, 2) == [soon, late]
  {
    assert SmallChild([late, soon], 0, 2) == 1;
    assert Swap([late, soon], 0, 1) == [soon, late];
    assert Due([late, soon][1], now);
  }

  // ---------- add_timer ----------

  /** The cells after the resize test of add_timer. */
  function Grown(s: seq<HeapTimer?>, n: nat): seq<HeapTimer?>
    requires n <= |s|
  {
    if n == |s| then s + seq(|s|, _ => null) else s
  }

  /** Cells off the path from the hole to the root are not written. */
  lemma {:induction false} OffPath(s: seq<HeapTimer?>, hole: nat, j: nat)
    requires hole < |s| && j < |s| && !OnPath(hole, j)
    ensures SiftUp(s, hole)[j] == s[j]
    decreases hole
  {
    if hole > 0 && Key(s[Parent(hole)]) > Key(s[hole]) {
      OffPath(Swap(s, hole, Parent(hole)), Parent(hole), j);
    }
  }

  lemma {:induction false} PathShrinks(hole: nat, j: nat)
    requires hole < j
    ensures !OnPath(hole, j)
    decreases hole
  {
    if hole > 0 { PathShrinks(Parent(hole), j); }
  }

  /** Started at ++cur_size, the rise never writes cell cur_size - 1, which was the first
  free one: what is counted as a heap of n + 1 timers has a hole exactly if that cell was
  empty, whatever the timers are. */
  lemma LiteralInsertLeavesHole(s: seq<HeapTimer?>, n: nat, timer: HeapTimer)
    requires 0 < n && n + 1 < |s| && Full(s, n)
    ensures var r := SiftUp(s[n + 1 := timer], n + 1);
            r[n] == s[n] && (Full(r, n + 1) <==> s[n] != null)
    ensures PathFull(s, n + 1)
  {
    var t := s[n + 1 := timer];
    PathShrinks(Parent(n + 1), n);
    SkipsCell(s, n);
    SkipsCell(t, n);
    OffPath(t, n + 1, n);
    RiseKeepsFull(t, n + 1, n);
  }

  lemma SkipsCell(s: seq<HeapTimer?>, n: nat)
    requires 0 < n && n + 1 < |s| && Full(s, n)
    ensures PathFull(s, n + 1)
  {
    PathShrinks(Parent(n + 1), n);
    forall j | 0 <= j < |s| && j != n + 1 && OnPath(n + 1, j) ensures s[j] != null { PathBelow(n + 1, j); }
  }

  /** A rise from beyond the first n cells leaves no hole among them. */
  lemma {:induction false} RiseKeepsFull(s: seq<HeapTimer?>, hole: nat, n: nat)
    requires hole < |s| && n <= |s| && Full(s, n) && s[hole] != null && PathFull(s, hole)
    ensures Full(SiftUp(s, hole), n)
    decreases hole
  {
    if hole > 0 && Key(s[Parent(hole)]) > Key(s[hole]) {
      var t, p := Swap(s, hole, Parent(hole)), Parent(hole);
      assert OnPath(p, p);
      forall j | 0 <= j < |t| && j != p && OnPath(p, j) ensures t[j] != null { PathBelow(p, j); }
      RiseKeepsFull(t, p, n);
    }
  }

  /** The first cell that the rise reads is among the n filled ones exactly if there are
  any; on an empty heap it is the free cell 0 itself. */
  lemma LiteralFirstRead(s: seq<HeapTimer?>, n: nat)
    requires n < |s| && Full(s, n) && s[n] == null
    ensures Parent(n + 1) < |s| && (s[Parent(n + 1)] == null <==> n == 0)
  {
  }

  /** The first cell that the rise writes, n + 1, is within the cells exactly if this add
  does not fill the last one, and does not have to grow a heap of capacity one. */
  lemma LiteralFirstWrite(s: seq<HeapTimer?>, n: nat)
    requires 0 < |s| && n <= |s|
    ensures n + 1 < |Grown(s, n)| <==> n + 1 != |s| && !(n == |s| == 1)
  {
  }

  /** A tick that ends as `all` has popped `popped` and gone on to `s`. */
  ghost predicate Leads(all: Ticked, popped: seq<HeapTimer?>, s: seq<HeapTimer?>, n: nat, now: int)
    requires n <= |s|
  {
    var t := AfterTick(s, n, now);
    all == t.(popped := popped + t.popped)
  }

  lemma LeadsOn(all: Ticked, popped: seq<HeapTimer?>, s: seq<HeapTimer?>, n: nat, now: int)
    requires 0 < n <= |s| && Due(s[0], now) && Leads(all, popped, s, n, now)
    ensures Leads(all, popped + [s[0]], AfterPop(s, n), n - 1, now)
  {
    var t := AfterTick(AfterPop(s, n), n - 1, now);
    assert popped + ([s[0]] + t.popped) == popped + [s[0]] + t.popped;
  }

  datatype AddOutcome = Added | NullRead | OutOfBounds

  // ---------- the object ----------

  class LiteralTimerHeap {
    var cells: array<HeapTimer?>
    var size: nat

    ghost predicate Valid()
      reads this, cells
    {
      0 < cells.Length && AlmostHeap(cells[..], size)
    }

    constructor (capacity: nat)
      requires capacity > 0
      ensures Valid() && fresh(cells) && size == 0 && cells.Length == capacity
      ensures forall i :: 0 <= i < capacity ==> cells[i] == null
    {
      cells := new HeapTimer?[capacity](_ => null);
      size := 0;
    }

    /** From given timers: a heap but for the last cell, whose root is the minimum exactly
    if the last timer given was not the only minimum. */
    constructor FromArray(init: seq<HeapTimer>, capacity: nat)
      requires |init| <= capacity && capacity > 0
      ensures Valid() && fresh(cells) && cells.Length == capacity && size == |init| && multiset(cells[..size]) == multiset(init)
      ensures size > 1 ==>
                (RootLeast(cells[..], size) <==> exists i :: 0 <= i < size - 1 && init[i].expire <= init[size - 1].expire)
    {
      cells := new HeapTimer?[capacity](i => if 0 <= i < |init| then init[i] else null);
      size := |init|;
      new;
      ghost var s := cells[..];
      assert s[..|init|] == init;
      if size != 0 {
        BuildHeap(cells, size, size - 1);
        PrefixMultiset(s, cells[..], size);
        if size > 1 { LiteralBound(s, cells[..], size); }
      }
    }

    method PopTimer() returns (timer: HeapTimer)
      requires Valid() && size > 0
      modifies `size, cells
      ensures Valid() && size == old(size) - 1 && timer == old(cells[0])
      ensures cells[..] == AfterPop(old(cells[..]), old(size))
    {
      PopKeeps(cells[..], size);
      timer := cells[0];
      ghost var t := cells[..][0 := cells[size - 1]];
      size := size - 1;
      cells[0] := cells[size];
      assert cells[..] == t;
      PercolateDown(cells, 0, if size == 0 then 0 else size - 1);
    }

    /** MissesExactly says when this leaves a due timer behind. */
    method Tick(now: int) returns (popped: seq<HeapTimer>, called: seq<HeapTimer>)
      requires Valid()
      modifies `size, cells
      ensures Valid() && called == Active(popped)
      ensures AfterTick(old(cells[..]), old(size), now) == Ticked(cells[..], size, popped)
    {
      ghost var all := AfterTick(cells[..], size, now);
      popped, called := [], [];
      while size > 0 && cells[0].expire <= now
        invariant Valid() && called == Active(popped)
        invariant Leads(all, popped, cells[..], size, now)
        decreases size
      {
        LeadsOn(all, popped, cells[..], size, now);
        var timer := PopTimer();
        ActiveMore(popped, timer);
        if timer.active { called := called + [timer]; }
        popped := popped + [timer];
      }
    }

    method Resize()
      requires Valid()
      modifies this
      ensures fresh(cells) && size == old(size) && cells.Length == 2 * old(cells.Length)
      ensures cells[..size] == old(cells[..size])
      ensures forall i :: size <= i < cells.Length ==> cells[i] == null
    {
      var temp := new HeapTimer?[2 * cells.Length](_ => null);
      for i := 0 to size
        modifies temp
        invariant forall j :: 0 <= j < temp.Length ==> temp[j] == if j < i then cells[j] else null
      {
        temp[i] := cells[i];
      }
      cells := temp;
    }

    /** What add_timer comes to: on an empty heap it reads through a null cell, at the end
    of the array it writes beyond it, and otherwise the timer rises from cell n + 1. */
    method AddTimer(timer: HeapTimer?) returns (r: AddOutcome)
      requires Valid()
      modifies this, cells
      ensures timer == null ==> r.Added? && size == old(size) && cells == old(cells) && cells[..] == old(cells[..])
      ensures timer != null ==>
                var s, n := Grown(old(cells[..]), old(size)), old(size);
                && (r.NullRead? <==> n == 0 && s[0] == null)
                && (r.OutOfBounds? <==> !r.NullRead? && n + 1 >= |s|)
                && (r.Added? ==> size == n + 1 && cells[..] == SiftUp(s[n + 1 := timer], n + 1))
                && (r.Added? && n > 0 ==> cells[n] == s[n] && (Full(cells[..], size) <==> s[n] != null))
    {
      if timer == null { return Added; }
      ghost var s, n := Grown(cells[..], size), size;
      if size >= cells.Length { Resize(); }
      assert cells[..] == s;
      size := size + 1;
      if cells[(size - 1) / 2] == null { return NullRead; }
      if size >= cells.Length { return OutOfBounds; }
      if n > 0 {
        LiteralInsertLeavesHole(s, n, timer);
      } else {
        assert Parent(1) == 0;
      }
      PercolateUp(cells, size, timer);
      r := Added;
    }
  }
}
