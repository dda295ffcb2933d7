/** The min-heap of timers with lazy deletion.  The sift-down takes its bound as a
parameter: the code passes one less than the number of cells. */
module TimeHeap {

  class HeapTimer {
    const expire: int
    var active: bool   // cb_func is set

    constructor (expire: int)
      ensures this.expire == expire && active
    {
      this.expire := expire;
      active := true;
    }
  }

  // ---------- heap order on sequences ----------

  function Bag(s: seq<HeapTimer?>): multiset<HeapTimer?> {
    multiset(s)
  }

  function Key(t: HeapTimer?): int {
    if t == null then 0 else t.expire
  }

  function Parent(j: nat): nat
    requires j > 0
  {
    (j - 1) / 2
  }

  /** Cell `j` is in order with its parent. */
  predicate Ok(s: seq<HeapTimer?>, j: nat)
    requires 0 < j < |s|
  {
    Key(s[Parent(j)]) <= Key(s[j])
  }

  /** Among the first `m` cells, everything below `lo` and its later siblings is in order. */
  ghost predicate HeapFrom(s: seq<HeapTimer?>, lo: nat, m: nat)
    requires m <= |s|
  {
    forall j {:trigger Ok(s, j)} :: 0 < j < m && lo <= Parent(j) ==> Ok(s, j)
  }

  /** The same except for the children of `hole`, which are in order with the parent of `hole`. */
  ghost predicate HeapButHole(s: seq<HeapTimer?>, lo: nat, m: nat, hole: nat)
    requires m <= |s| && hole < |s|
  {
    && (forall j {:trigger Ok(s, j)} :: 0 < j < m && lo <= Parent(j) && Parent(j) != hole ==> Ok(s, j))
    && (hole > 0 && lo <= Parent(hole) ==>
          && (2 * hole + 1 < m ==> Key(s[Parent(hole)]) <= Key(s[2 * hole + 1]))
          && (2 * hole + 2 < m ==> Key(s[Parent(hole)]) <= Key(s[2 * hole + 2])))
  }

  predicate Full(s: seq<HeapTimer?>, n: nat) {
    n <= |s| && forall i :: 0 <= i < n ==> s[i] != null
  }

  function Swap(s: seq<HeapTimer?>, i: nat, j: nat): seq<HeapTimer?>
    requires i < |s| && j < |s|
  {
    s[i := s[j]][j := s[i]]
  }

  lemma SwapMultiset(s: seq<HeapTimer?>, i: nat, j: nat)
    requires i < |s| && j < |s|
    ensures multiset(Swap(s, i, j)) == multiset(s)
  {
  }

  /** The smaller child of `hole`, as the sift chooses it. */
  ghost predicate SmallerChild(s: seq<HeapTimer?>, m: nat, hole: nat, child: nat)
    requires m <= |s|
  {
    && (child == 2 * hole + 1 || child == 2 * hole + 2) && child < m
    && (2 * hole + 1 < m ==> Key(s[child]) <= Key(s[2 * hole + 1]))
    && (2 * hole + 2 < m ==> Key(s[child]) <= Key(s[2 * hole + 2]))
  }

  /** Letting the smaller child rise keeps everything in order but the new hole. */
  lemma SiftStep(s: seq<HeapTimer?>, lo: nat, m: nat, hole: nat, child: nat)
    requires m <= |s| && lo <= hole < m && HeapButHole(s, lo, m, hole)
    requires SmallerChild(s, m, hole, child) && Key(s[child]) < Key(s[hole])
    ensures HeapButHole(Swap(s, hole, child), lo, m, child)
  {
    var t := Swap(s, hole, child);
    assert Parent(child) == hole;
    forall j | 0 < j < m && lo <= Parent(j) && Parent(j) != child ensures Ok(t, j) {
      assert Parent(j) != hole ==> Ok(s, j);
      assert Parent(j) == hole ==> j == 2 * hole + 1 || j == 2 * hole + 2;
    }
    assert 2 * child + 1 < m ==> Ok(s, 2 * child + 1);
    assert 2 * child + 2 < m ==> Ok(s, 2 * child + 2);
  }

  lemma SiftDone(s: seq<HeapTimer?>, lo: nat, m: nat, hole: nat)
    requires m <= |s| && hole < |s| && HeapButHole(s, lo, m, hole)
    requires 2 * hole + 1 < m ==> Key(s[hole]) <= Key(s[2 * hole + 1])
    requires 2 * hole + 2 < m ==> Key(s[hole]) <= Key(s[2 * hole + 2])
    ensures HeapFrom(s, lo, m)
  {
    forall j | 0 < j < m && lo <= Parent(j) ensures Ok(s, j) {
      assert Parent(j) == hole ==> j == 2 * hole + 1 || j == 2 * hole + 2;
    }
  }

  lemma {:induction false} RootIsMin(s: seq<HeapTimer?>, m: nat, j: nat)
    requires j < m <= |s| && HeapFrom(s, 0, m)
    ensures Key(s[0]) <= Key(s[j])
  {
    if j > 0 {
      RootIsMin(s, m, Parent(j));
      assert Ok(s, j);
    }
  }

  function SmallChild(s: seq<HeapTimer?>, hole: nat, m: nat): (child: nat)
    requires 2 * hole + 1 < m <= |s|
    ensures SmallerChild(s, m, hole, child)
  {
    var child := 2 * hole + 1;
    if child + 1 < m && Key(s[child + 1]) < Key(s[child]) then child + 1 else child
  }

  /** What the sift computes: swaps along the path of smaller children. */
  function SiftDown(s: seq<HeapTimer?>, hole: nat, m: nat): (r: seq<HeapTimer?>)
    requires m <= |s| && hole < |s|
    ensures |r| == |s|
    decreases |s| - hole
  {
    if 2 * hole + 1 >= m then s
    else
      var child := SmallChild(s, hole, m);
      if Key(s[child]) < Key(s[hole]) then SiftDown(Swap(s, hole, child), child, m) else s
  }

  lemma {:induction false} SiftDownHeap(s: seq<HeapTimer?>, lo: nat, hole: nat, m: nat)
    requires lo <= hole < |s| && m <= |s| && HeapButHole(s, lo, m, hole)
    ensures |SiftDown(s, hole, m)| == |s| && HeapFrom(SiftDown(s, hole, m), lo, m)
    decreases |s| - hole
  {
    if 2 * hole + 1 < m {
      var child := SmallChild(s, hole, m);
      if Key(s[child]) < Key(s[hole]) {
        SiftStep(s, lo, m, hole, child);
        SiftDownHeap(Swap(s, hole, child), lo, child, m);
        return;
      }
    }
    SiftDone(s, lo, m, hole);
  }

  /** It permutes the cells, and only those from `hole` up to `m`. */
  lemma {:induction false} SiftDownPermutes(s: seq<HeapTimer?>, hole: nat, m: nat)
    requires m <= |s| && hole < |s|
    ensures var r := SiftDown(s, hole, m);
            && |r| == |s| && multiset(r) == multiset(s) && (Full(s, m) ==> Full(r, m))
            && forall i :: 0 <= i < hole || m <= i < |s| ==> r[i] == s[i]
    decreases |s| - hole
  {
    if 2 * hole + 1 < m {
      var child := SmallChild(s, hole, m);
      if Key(s[child]) < Key(s[hole]) {
        SwapMultiset(s, hole, child);
        SiftDownPermutes(Swap(s, hole, child), child, m);
      }
    }
  }

  /** percolate_down: lets the cell at `start` sink among the first `m` cells. */
  method PercolateDown(a: array<HeapTimer?>, start: nat, m: nat)
    requires start < a.Length && m <= a.Length && Full(a[..], m)
    modifies a
    ensures a[..] == SiftDown(old(a[..]), start, m)
  {
    ghost var goal := SiftDown(a[..], start, m);
    ghost var s := a[..];   // the cells with `temp` back in the hole
    var hole, temp := start, a[start];
    while hole * 2 + 1 < m
      invariant start <= hole < a.Length && Full(a[..], m) && |s| == a.Length
      invariant s[hole] == temp && forall i :: 0 <= i < |s| && i != hole ==> s[i] == a[i]
      invariant SiftDown(s, hole, m) == goal
      decreases m - hole
    {
      var child := hole * 2 + 1;
      if child + 1 < m && a[child + 1].expire < a[child].expire { child := child + 1; }
      assert child == SmallChild(s, hole, m);
      if a[child].expire >= temp.expire { break; }
      s := Swap(s, hole, child);
      a[hole] := a[child];
      hole := child;
    }
    a[hole] := temp;
    assert a[..] == s;
  }

  /** Bottom-up construction with bound `m` makes a heap of the first `m` of `n` cells. */
  method BuildHeap(a: array<HeapTimer?>, n: nat, m: nat)
    requires 0 < n <= a.Length && m <= n && Full(a[..], n)
    modifies a
    ensures Full(a[..], n) && HeapFrom(a[..], 0, m)
    ensures multiset(a[..]) == multiset(old(a[..]))
    ensures forall i :: m <= i < a.Length ==> a[i] == old(a[i])
  {
    var i: nat := (n - 1) / 2 + 1;
    while i > 0
      invariant i <= n && Full(a[..], n) && HeapFrom(a[..], i, m)
      invariant multiset(a[..]) == multiset(old(a[..]))
      invariant forall j :: m <= j < a.Length ==> a[j] == old(a[j])
    {
      i := i - 1;
      ghost var s := a[..];
      HeapGrows(s, i, m);
      SiftDownHeap(s, i, i, m);
      SiftDownPermutes(s, i, m);
      PercolateDown(a, i, m);
    }
  }

  lemma HeapGrows(s: seq<HeapTimer?>, i: nat, m: nat)
    requires m <= |s| && i < |s| && HeapFrom(s, i + 1, m)
    ensures HeapButHole(s, i, m, i)
  {
    forall j | 0 < j < m && i <= Parent(j) && Parent(j) != i ensures Ok(s, j) {
      assert i + 1 <= Parent(j);
    }
  }

  // ---------- sifting up ----------

  ghost predicate HeapButLeaf(s: seq<HeapTimer?>, m: nat, hole: nat)
    requires m <= |s| && hole < |s|
  {
    && (forall j {:trigger Ok(s, j)} :: 0 < j < m && j != hole ==> Ok(s, j))
    && (hole > 0 ==>
          && (2 * hole + 1 < m ==> Key(s[Parent(hole)]) <= Key(s[2 * hole + 1]))
          && (2 * hole + 2 < m ==> Key(s[Parent(hole)]) <= Key(s[2 * hole + 2])))
  }

  function SiftUp(s: seq<HeapTimer?>, hole: nat): (r: seq<HeapTimer?>)
    requires hole < |s|
    ensures |r| == |s|
    decreases hole
  {
    if hole == 0 || Key(s[Parent(hole)]) <= Key(s[hole]) then s else SiftUp(Swap(s, hole, Parent(hole)), Parent(hole))
  }

  lemma RiseStep(s: seq<HeapTimer?>, m: nat, hole: nat)
    requires 0 < hole < m <= |s| && HeapButLeaf(s, m, hole) && Key(s[hole]) < Key(s[Parent(hole)])
    ensures HeapButLeaf(Swap(s, hole, Parent(hole)), m, Parent(hole))
  {
    var p := Parent(hole);
    var t := Swap(s, hole, p);
    forall j | 0 < j < m && j != p ensures Ok(t, j) {
      assert j != hole ==> Ok(s, j);
      assert Parent(j) == hole ==> j == 2 * hole + 1 || j == 2 * hole + 2;
    }
    if p > 0 {
      assert Ok(s, p);
      assert 2 * p + 1 < m && 2 * p + 1 != hole ==> Ok(s, 2 * p + 1);
      assert 2 * p + 2 < m && 2 * p + 2 != hole ==> Ok(s, 2 * p + 2);
    }
  }

  lemma {:induction false} SiftUpHeap(s: seq<HeapTimer?>, m: nat, hole: nat)
    requires hole < m <= |s| && HeapButLeaf(s, m, hole)
    ensures |SiftUp(s, hole)| == |s| && HeapFrom(SiftUp(s, hole), 0, m)
    decreases hole
  {
    if hole == 0 || Key(s[Parent(hole)]) <= Key(s[hole]) {
      forall j | 0 < j < m ensures Ok(s, j) { }
    } else {
      RiseStep(s, m, hole);
      SiftUpHeap(Swap(s, hole, Parent(hole)), m, Parent(hole));
    }
  }

  lemma {:induction false} SiftUpPermutes(s: seq<HeapTimer?>, hole: nat, m: nat)
    requires hole < m <= |s|
    ensures var r := SiftUp(s, hole);
            && |r| == |s| && multiset(r) == multiset(s) && (Full(s, m) ==> Full(r, m))
            && forall i :: m <= i < |s| ==> r[i] == s[i]
    decreases hole
  {
    if hole > 0 && Key(s[Parent(hole)]) > Key(s[hole]) {
      SwapMultiset(s, hole, Parent(hole));
      SiftUpPermutes(Swap(s, hole, Parent(hole)), Parent(hole), m);
    }
  }

  /** Cell `j` lies on the way from `hole` to the root. */
  predicate OnPath(hole: nat, j: nat)
    decreases hole
  {
    j == hole || (hole > 0 && OnPath(Parent(hole), j))
  }

  /** No cell above `hole` is empty. */
  ghost predicate PathFull(s: seq<HeapTimer?>, hole: nat) {
    forall j :: 0 <= j < |s| && j != hole && OnPath(hole, j) ==> s[j] != null
  }

  lemma PathBelow(hole: nat, j: nat)
    requires OnPath(hole, j)
    ensures j <= hole
    decreases hole
  {
  }

  lemma FullPath(s: seq<HeapTimer?>, hole: nat)
    requires Full(s, hole)
    ensures PathFull(s, hole)
  {
    forall j | 0 <= j < |s| && j != hole && OnPath(hole, j) ensures s[j] != null { PathBelow(hole, j); }
  }

  lemma PathUp(s: seq<HeapTimer?>, hole: nat)
    requires 0 < hole < |s| && PathFull(s, hole)
    ensures s[Parent(hole)] != null && PathFull(s[hole := s[Parent(hole)]], Parent(hole))
  {
    assert OnPath(Parent(hole), Parent(hole));
    forall j | 0 <= j < |s| && j != Parent(hole) && OnPath(Parent(hole), j) ensures s[j] != null && j != hole {
      PathBelow(Parent(hole), j);
    }
  }

  /** The loop of add_timer, from the free cell `start`.  It looks at the cells on the way
  from there to the root, and at no others. */
  method PercolateUp(a: array<HeapTimer?>, start: nat, timer: HeapTimer)
    requires start < a.Length && PathFull(a[..], start)
    modifies a
    ensures a[..] == SiftUp(old(a[..])[start := timer], start)
  {
    ghost var s := a[..][start := timer];   // the cells with `timer` in the hole
    ghost var goal := SiftUp(s, start);
    var hole := start;
    while hole > 0
      invariant hole <= start && PathFull(a[..], hole) && |s| == a.Length
      invariant s[hole] == timer && forall i :: 0 <= i < |s| && i != hole ==> s[i] == a[i]
      invariant SiftUp(s, hole) == goal
    {
      var parent := (hole - 1) / 2;
      ghost var was := a[..];
      PathUp(was, hole);
      if a[parent].expire <= timer.expire { break; }
      s := Swap(s, hole, parent);
      a[hole] := a[parent];
      assert a[..] == was[hole := was[parent]];
      hole := parent;
    }
    a[hole] := timer;
    assert a[..] == s;
  }

  // ---------- the heap object, with the bounds that its comments describe ----------

  class TimerHeap {
    var cells: array<HeapTimer?>
    var size: nat

    ghost predicate Valid()
      reads this, cells
    {
      0 < cells.Length && size <= cells.Length && Full(cells[..], size) && HeapFrom(cells[..], 0, size)
    }

    /** The timers in the heap, cancelled ones included. */
    ghost function Timers(): multiset<HeapTimer?>
      requires size <= cells.Length
      reads this, cells
    {
      Bag(cells[..size])
    }

    constructor (capacity: nat)
      requires capacity > 0
      ensures Valid() && fresh(cells) && size == 0 && cells.Length == capacity
    {
      cells := new HeapTimer?[capacity](_ => null);
      size := 0;
    }

    /** Doubles the capacity. */
    method Resize()
      requires Valid()
      modifies this
      ensures Valid() && fresh(cells) && cells.Length == 2 * old(cells.Length)
      ensures size == old(size) && cells[..size] == old(cells[..size])
    {
      var temp := new HeapTimer?[2 * cells.Length](_ => null);
      for i := 0 to size
        modifies temp
        invariant forall j :: 0 <= j < i ==> temp[j] == cells[j]
      {
        temp[i] := cells[i];
      }
      ghost var s, t := cells[..], temp[..];
      SameCells(s, t, size);
      cells := temp;
      assert cells[..] == t;
    }

    /** Inserts at the first free cell, growing if there is none. */
    method AddTimer(timer: HeapTimer?)
      requires Valid()
      modifies this, cells
      ensures Valid() && (cells == old(cells) || fresh(cells))
      ensures timer == null ==> size == old(size) && Timers() == old(Timers())
      ensures timer != null ==> size == old(size) + 1 && Timers() == old(Timers()) + multiset{timer}
    {
      if timer == null { return; }
      if size >= cells.Length { Resize(); }
      Insert(timer);
    }

    method Insert(timer: HeapTimer)
      requires Valid() && size < cells.Length
      modifies this`size, cells
      ensures Valid() && size == old(size) + 1 && Timers() == old(Timers()) + multiset{timer}
    {
      SiftUpInserts(cells[..], timer, size);
      FullPath(cells[..], size);
      PercolateUp(cells, size, timer);
      size := size + 1;
    }

    /** Lazy deletion: the timer stays in its cell and will not be called. */
    method DelTimer(timer: HeapTimer?)
      requires Valid()
      modifies (if timer == null then {} else {timer})`active
      ensures Valid() && Timers() == old(Timers())
      ensures timer != null ==> !timer.active
    {
      if timer != null { timer.active := false; }
    }

    /** Removes the root, which is a minimum: the last cell takes its place and sinks. */
    method PopTimer() returns (timer: HeapTimer)
      requires Valid() && size > 0
      modifies this`size, cells
      ensures Valid() && size == old(size) - 1
      ensures timer == old(cells[0]) && old(Timers()) == Timers() + multiset{timer}
    {
      timer := cells[0];
      ghost var was := cells[..];
      size := size - 1;
      ghost var s := was[0 := was[size]];
      LastToRoot(was, s, size, size);
      SiftDownHeap(s, 0, 0, size);
      SiftDownPermutes(s, 0, size);
      cells[0] := cells[size];
      assert cells[..] == s;
      PercolateDown(cells, 0, size);
      PrefixMultiset(s, cells[..], size);
    }

    /** Pops one due timer, and calls it if it was not cancelled. */
    method PopDue(popped: seq<HeapTimer>, called: seq<HeapTimer>, now: int)
      returns (popped': seq<HeapTimer>, called': seq<HeapTimer>)
      requires Valid() && size > 0 && cells[0].expire <= now
      requires Ascending(popped, now) && NoneLater(popped, Timers()) && called == Active(popped)
      modifies this`size, cells
      ensures Valid() && size == old(size) - 1
      ensures Timers() + multiset(popped') == old(Timers() + multiset(popped))
      ensures Ascending(popped', now) && NoneLater(popped', Timers()) && called' == Active(popped')
    {
      ghost var bag := Timers();
      MinOfAll(cells[..], size);
      var timer := PopTimer();
      PopOne(popped, bag, Timers(), timer, now);
      ActiveMore(popped, timer);
      popped', called' := popped + [timer], if timer.active then called + [timer] else called;
    }

    /** Pops every timer that is due and calls the ones that were not cancelled. */
    method Tick(now: int) returns (popped: seq<HeapTimer>, called: seq<HeapTimer>)
      requires Valid()
      modifies this`size, cells
      ensures Valid() && old(Timers()) == Timers() + multiset(popped)
      ensures forall t :: t in Timers() ==> Key(t) > now
      ensures Ascending(popped, now) && called == Active(popped)
    {
      popped, called := [], [];
      while size > 0 && cells[0].expire <= now
        invariant Valid() && Timers() + multiset(popped) == old(Timers())
        invariant Ascending(popped, now) && NoneLater(popped, Timers()) && called == Active(popped)
        decreases size
      {
        popped, called := PopDue(popped, called, now);
      }
      if size > 0 { MinOfAll(cells[..], size); }
    }
  }

  ghost predicate Ascending(popped: seq<HeapTimer>, now: int) {
    && (forall i :: 0 <= i < |popped| ==> popped[i].expire <= now)
    && (forall i, j :: 0 <= i < j < |popped| ==> popped[i].expire <= popped[j].expire)
  }

  ghost predicate NoneLater(popped: seq<HeapTimer>, bag: multiset<HeapTimer?>) {
    forall t, i :: t in bag && 0 <= i < |popped| ==> popped[i].expire <= Key(t)
  }

  lemma PopOne(popped: seq<HeapTimer>, bag: multiset<HeapTimer?>, rest: multiset<HeapTimer?>, timer: HeapTimer, now: int)
    requires Ascending(popped, now) && NoneLater(popped, bag) && bag == rest + multiset{timer}
    requires timer.expire <= now && forall t :: t in bag ==> timer.expire <= Key(t)
    ensures Ascending(popped + [timer], now) && NoneLater(popped + [timer], rest)
    ensures multiset(popped + [timer]) == multiset(popped) + multiset{timer}
  {
    assert timer in bag;
  }

  ghost function Active(ts: seq<HeapTimer>): seq<HeapTimer>
    reads ts
  {
    if ts == [] then []
    else Active(ts[..|ts| - 1]) + if ts[|ts| - 1].active then [ts[|ts| - 1]] else []
  }

  lemma ActiveMore(ts: seq<HeapTimer>, t: HeapTimer)
    ensures Active(ts + [t]) == Active(ts) + if t.active then [t] else []
  {
    assert (ts + [t])[..|ts|] == ts;
  }

  lemma MinOfAll(s: seq<HeapTimer?>, n: nat)
    requires 0 < n <= |s| && HeapFrom(s, 0, n)
    ensures s[0] in Bag(s[..n]) && forall t :: t in Bag(s[..n]) ==> Key(s[0]) <= Key(t)
  {
    assert s[..n][0] == s[0];
    forall t | t in Bag(s[..n]) ensures Key(s[0]) <= Key(t) {
      var j :| 0 <= j < n && s[..n][j] == t;
      RootIsMin(s, n, j);
    }
  }

  lemma LastToRoot(s: seq<HeapTimer?>, t: seq<HeapTimer?>, n: nat, m: nat)
    requires m <= n < |s| && t == s[0 := s[n]] && Full(s, n + 1) && HeapFrom(s, 0, m)
    ensures Full(t, n) && HeapButHole(t, 0, m, 0)
    ensures Bag(s[..n + 1]) == Bag(t[..n]) + multiset{s[0]}
  {
    forall j | 0 < j < m && Parent(j) != 0 ensures Ok(t, j) { assert Ok(s, j); }
    if n == 0 {
      assert s[..1] == [s[0]] && t[..0] == [];
    } else {
      assert s[..n + 1] == [s[0]] + s[1..n] + [s[n]] && t[..n] == [s[n]] + s[1..n];
    }
  }

  lemma SameCells(s: seq<HeapTimer?>, t: seq<HeapTimer?>, n: nat)
    requires n <= |s| && n <= |t| && (forall i :: 0 <= i < n ==> s[i] == t[i]) && Full(s, n) && HeapFrom(s, 0, n)
    ensures Full(t, n) && HeapFrom(t, 0, n) && s[..n] == t[..n]
  {
    forall j | 0 < j < n ensures Ok(t, j) { assert Ok(s, j); }
  }

  lemma SiftUpInserts(s: seq<HeapTimer?>, timer: HeapTimer, n: nat)
    requires n < |s| && Full(s, n) && HeapFrom(s, 0, n)
    ensures var r := SiftUp(s[n := timer], n);
            |r| == |s| && Full(r, n + 1) && HeapFrom(r, 0, n + 1) && Bag(r[..n + 1]) == Bag(s[..n]) + multiset{timer}
  {
    var t := s[n := timer];
    NewLeaf(s, timer, n);
    SiftUpHeap(t, n + 1, n);
    SiftUpPermutes(t, n, n + 1);
    PrefixMultiset(t, SiftUp(t, n), n + 1);
  }

  lemma NewLeaf(s: seq<HeapTimer?>, timer: HeapTimer, n: nat)
    requires n < |s| && Full(s, n) && HeapFrom(s, 0, n)
    ensures Full(s[n := timer], n + 1) && HeapButLeaf(s[n := timer], n + 1, n)
    ensures s[n := timer][..n + 1] == s[..n] + [timer]
  {
    var t := s[n := timer];
    forall j | 0 < j < n + 1 && j != n ensures Ok(t, j) { assert Ok(s, j); }
  }

  /** Permuted cells with the same tail have the same prefix, as a multiset. */
  lemma PrefixMultiset(s: seq<HeapTimer?>, t: seq<HeapTimer?>, n: nat)
    requires |s| == |t| && n <= |s| && multiset(s) == multiset(t) && forall i :: n <= i < |s| ==> t[i] == s[i]
    ensures Bag(s[..n]) == Bag(t[..n])
  {
    assert s == s[..n] + s[n..] && t == t[..n] + t[n..] && s[n..] == t[n..];
    forall x ensures Bag(s[..n])[x] == Bag(t[..n])[x] {
      assert Bag(s)[x] == Bag(s[..n])[x] + Bag(s[n..])[x] && Bag(t)[x] == Bag(t[..n])[x] + Bag(t[n..])[x];
    }
  }
}
