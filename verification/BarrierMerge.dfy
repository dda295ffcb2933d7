/** Sorting in segments by several threads, a barrier, and the k-way merge after it. */
module BarrierMerge {

  const LONG_MAX := 0x7fff_ffff_ffff_ffff

  // ---------- segments ----------

  /** Segment `i` of length `m` covers the positions from Lo(i) to Lo(i + 1). */
  function Lo(i: nat, m: nat): nat {
    if i == 0 then 0 else Lo(i - 1, m) + m
  }

  lemma {:induction false} LoIsProduct(i: nat, m: nat)
    ensures Lo(i, m) == i * m
  {
    if i > 0 { LoIsProduct(i - 1, m); }
  }

  lemma {:induction false} LoMono(i: nat, j: nat, m: nat)
    requires i <= j
    ensures Lo(i, m) <= Lo(j, m) && (i < j ==> Lo(i + 1, m) <= Lo(j, m))
    decreases j - i
  {
    if i < j { LoMono(i, j - 1, m); }
  }

  ghost predicate SortedRange(s: seq<int>, a: nat, b: nat) {
    forall x, y :: a <= x < y < b && y < |s| ==> s[x] <= s[y]
  }

  ghost predicate SegmentsSorted(s: seq<int>, k: nat, m: nat) {
    forall i :: 0 <= i < k ==> SortedRange(s, Lo(i, m), Lo(i + 1, m))
  }

  // ---------- what a stable sort is ----------

  function Range(a: int, b: int): seq<int> {
    if a >= b then [] else seq(b - a, i => a + i)
  }

  /** Position `x` comes before position `y`: smaller value, or the same value earlier. */
  predicate Precedes(s: seq<int>, x: int, y: int)
    requires 0 <= x < |s| && 0 <= y < |s|
  {
    s[x] < s[y] || (s[x] == s[y] && x < y)
  }

  ghost predicate InOrder(s: seq<int>, perm: seq<int>) {
    && (forall i :: 0 <= i < |perm| ==> 0 <= perm[i] < |s|)
    && (forall i, j :: 0 <= i < j < |perm| ==> Precedes(s, perm[i], perm[j]))
  }

  /** `perm` lists all positions of `s` in stable order. */
  ghost predicate StableOrder(s: seq<int>, perm: seq<int>) {
    InOrder(s, perm) && multiset(perm) == multiset(Range(0, |s|))
  }

  function Pick(s: seq<int>, perm: seq<int>): seq<int>
    requires forall i :: 0 <= i < |perm| ==> 0 <= perm[i] < |s|
  {
    seq(|perm|, i requires 0 <= i < |perm| => s[perm[i]])
  }

  // ---------- the merge ----------

  /** Each cursor is within its segment, or at its end. */
  ghost predicate Cursors(idx: seq<int>, m: nat, n: nat) {
    forall i {:trigger idx[i]} :: 0 <= i < |idx| ==> Within(idx[i], i, m, n)
  }

  ghost predicate Within(x: int, i: nat, m: nat, n: nat) {
    Lo(i, m) <= x <= Lo(i + 1, m) <= n
  }

  predicate Live(idx: seq<int>, i: nat, m: nat) {
    i < |idx| && idx[i] < Lo(i + 1, m)
  }

  /** Position `x` precedes the heads of the first `n` segments, its own aside. */
  ghost predicate BeforeHeads(s: seq<int>, idx: seq<int>, m: nat, x: int, n: nat)
    requires n <= |idx| && Cursors(idx, m, |s|) && 0 <= x < |s|
  {
    forall i :: 0 <= i < n && Live(idx, i, m) ==> idx[i] == x || Precedes(s, x, idx[i])
  }

  /** The positions that the cursors have yet to pass, segments `i` and up. */
  ghost function Left(idx: seq<int>, m: nat, i: nat): multiset<int>
    requires i <= |idx|
    decreases |idx| - i
  {
    if i == |idx| then multiset{} else multiset(Range(idx[i], Lo(i + 1, m))) + Left(idx, m, i + 1)
  }

  /** The scan for the smallest head; equal heads go to the lowest segment.  It finds
  one exactly when some segment has a head below LONG_MAX. */
  method FindMin(nums: seq<int>, idx: seq<int>, m: nat) returns (found: bool, minidx: nat)
    requires Cursors(idx, m, |nums|)
    ensures found <==> exists i :: 0 <= i < |idx| && Live(idx, i, m) && nums[idx[i]] < LONG_MAX
    ensures found ==> Live(idx, minidx, m) && BeforeHeads(nums, idx, m, idx[minidx], |idx|)
  {
    var num := LONG_MAX;
    found, minidx := false, 0;
    for i := 0 to |idx|
      invariant found ==> minidx < i && Live(idx, minidx, m) && num == nums[idx[minidx]] < LONG_MAX
      invariant found ==> BeforeHeads(nums, idx, m, idx[minidx], i)
      invariant !found ==> num == LONG_MAX && forall j :: 0 <= j < i && Live(idx, j, m) ==> nums[idx[j]] >= LONG_MAX
    {
      if found { LoMono(minidx, i, m); }
      if idx[i] < Lo(i + 1, m) && nums[idx[i]] < num {
        found, minidx, num := true, i, nums[idx[i]];
      }
    }
  }

  /** Everything in `perm` precedes everything the cursors have yet to pass. */
  ghost predicate Ahead(s: seq<int>, idx: seq<int>, m: nat, perm: seq<int>)
    requires Cursors(idx, m, |s|) && forall t :: 0 <= t < |perm| ==> 0 <= perm[t] < |s|
  {
    forall t, i, x {:trigger perm[t], InSegment(idx, m, i, x)} ::
      0 <= t < |perm| && InSegment(idx, m, i, x) ==> Precedes(s, perm[t], x)
  }

  predicate InSegment(idx: seq<int>, m: nat, i: nat, x: int) {
    i < |idx| && idx[i] <= x < Lo(i + 1, m)
  }

  ghost predicate Merging(s: seq<int>, idx: seq<int>, m: nat, perm: seq<int>) {
    && Cursors(idx, m, |s|) && InOrder(s, perm) && Ahead(s, idx, m, perm)
    && multiset(perm) + Left(idx, m, 0) == multiset(Range(0, |s|))
  }

  lemma RangeHead(a: int, b: int)
    requires a < b
    ensures multiset(Range(a, b)) == multiset{a} + multiset(Range(a + 1, b))
  {
    assert Range(a, b) == [a] + Range(a + 1, b);
  }

  /** Segment `j` losing its head takes exactly that position out of what is left. */
  lemma LeftStep(idx: seq<int>, m: nat, j: nat)
    requires Live(idx, j, m)
    ensures Left(idx, m, 0) == multiset{idx[j]} + Left(idx[j := idx[j] + 1], m, 0)
  {
    var next := idx[j := idx[j] + 1];
    LeftSame(idx, next, m, j + 1);
    LeftHere(idx, next, m, j);
    LeftDown(idx, next, m, j, idx[j]);
  }

  lemma {:induction false} LeftDown(idx: seq<int>, next: seq<int>, m: nat, i: nat, x: int)
    requires |idx| == |next| && i <= |idx| && forall j :: 0 <= j < i ==> idx[j] == next[j]
    requires Left(idx, m, i) == multiset{x} + Left(next, m, i)
    ensures Left(idx, m, 0) == multiset{x} + Left(next, m, 0)
    decreases i
  {
    if i > 0 {
      LeftBefore(idx, next, m, i - 1, x);
      LeftDown(idx, next, m, i - 1, x);
    }
  }

  lemma LeftBefore(idx: seq<int>, next: seq<int>, m: nat, i: nat, x: int)
    requires i < |idx| == |next| && idx[i] == next[i] && Left(idx, m, i + 1) == multiset{x} + Left(next, m, i + 1)
    ensures Left(idx, m, i) == multiset{x} + Left(next, m, i)
  {
    TakeRight(x, multiset(Range(idx[i], Lo(i + 1, m))), Left(idx, m, i + 1), Left(next, m, i + 1));
  }

  lemma LeftHere(idx: seq<int>, next: seq<int>, m: nat, j: nat)
    requires j < |idx| == |next| && idx[j] < Lo(j + 1, m) && next[j] == idx[j] + 1 && Left(idx, m, j + 1) == Left(next, m, j + 1)
    ensures Left(idx, m, j) == multiset{idx[j]} + Left(next, m, j)
  {
    var end := Lo(j + 1, m);
    RangeHead(idx[j], end);
    TakeLeft(idx[j], multiset(Range(idx[j], end)), multiset(Range(idx[j] + 1, end)), Left(next, m, j + 1));
  }

  lemma TakeRight(x: int, a: multiset<int>, b: multiset<int>, c: multiset<int>)
    requires b == multiset{x} + c
    ensures a + b == multiset{x} + (a + c)
  {
  }

  lemma TakeLeft(x: int, a: multiset<int>, b: multiset<int>, c: multiset<int>)
    requires a == multiset{x} + b
    ensures a + c == multiset{x} + (b + c)
  {
  }

  lemma {:induction false} LeftSame(a: seq<int>, b: seq<int>, m: nat, i: nat)
    requires |a| == |b| && i <= |a| && forall j :: i <= j < |a| ==> a[j] == b[j]
    ensures Left(a, m, i) == Left(b, m, i)
    decreases |a| - i
  {
    if i < |a| { LeftSame(a, b, m, i + 1); }
  }

  lemma {:induction false} SomeLive(idx: seq<int>, m: nat, i: nat) returns (j: nat)
    requires i <= |idx| && |Left(idx, m, i)| > 0
    ensures Live(idx, j, m)
    decreases |idx| - i
  {
    if idx[i] < Lo(i + 1, m) { j := i; } else { j := SomeLive(idx, m, i + 1); }
  }

  /** A head that precedes the other heads precedes all that is left. */
  lemma HeadPrecedes(s: seq<int>, idx: seq<int>, m: nat, j: nat, i: nat, x: int)
    requires Cursors(idx, m, |s|) && SegmentsSorted(s, |idx|, m)
    requires Live(idx, j, m) && BeforeHeads(s, idx, m, idx[j], |idx|)
    requires InSegment(idx, m, i, x) && x != idx[j]
    ensures Precedes(s, idx[j], x)
  {
    assert Live(idx, i, m);
    assert SortedRange(s, Lo(i, m), Lo(i + 1, m));
    assert idx[i] < x ==> s[idx[i]] <= s[x];
  }

  lemma MergeStep(s: seq<int>, idx: seq<int>, m: nat, perm: seq<int>, j: nat)
    requires Merging(s, idx, m, perm) && SegmentsSorted(s, |idx|, m)
    requires Live(idx, j, m) && BeforeHeads(s, idx, m, idx[j], |idx|)
    ensures Merging(s, idx[j := idx[j] + 1], m, perm + [idx[j]])
  {
    CursorsStep(idx, m, |s|, j);
    LeftStep(idx, m, j);
    OrderStep(s, idx, m, perm, j);
    AheadStep(s, idx, m, perm, j);
    TakenMore(perm, idx[j], Left(idx, m, 0), Left(idx[j := idx[j] + 1], m, 0));
  }

  lemma TakenMore(perm: seq<int>, x: int, left: multiset<int>, rest: multiset<int>)
    requires left == multiset{x} + rest
    ensures multiset(perm + [x]) + rest == multiset(perm) + left
  {
  }

  lemma OrderStep(s: seq<int>, idx: seq<int>, m: nat, perm: seq<int>, j: nat)
    requires Cursors(idx, m, |s|) && InOrder(s, perm) && Ahead(s, idx, m, perm) && Live(idx, j, m)
    ensures InOrder(s, perm + [idx[j]])
  {
    assert Within(idx[j], j, m, |s|) && InSegment(idx, m, j, idx[j]);
  }

  lemma AheadStep(s: seq<int>, idx: seq<int>, m: nat, perm: seq<int>, j: nat)
    requires Cursors(idx, m, |s|) && InOrder(s, perm) && Ahead(s, idx, m, perm) && SegmentsSorted(s, |idx|, m)
    requires Live(idx, j, m) && BeforeHeads(s, idx, m, idx[j], |idx|)
    requires Cursors(idx[j := idx[j] + 1], m, |s|) && InOrder(s, perm + [idx[j]])
    ensures Ahead(s, idx[j := idx[j] + 1], m, perm + [idx[j]])
  {
    var next, perm' := idx[j := idx[j] + 1], perm + [idx[j]];
    forall t, i, x | 0 <= t < |perm'| && InSegment(next, m, i, x) ensures Precedes(s, perm'[t], x) {
      assert InSegment(idx, m, i, x);
      if t == |perm| {
        NotPassed(s, idx, m, j, i, x);
        HeadPrecedes(s, idx, m, j, i, x);
      } else {
        assert perm'[t] == perm[t];
      }
    }
  }

  lemma CursorsStep(idx: seq<int>, m: nat, n: nat, j: nat)
    requires Cursors(idx, m, n) && Live(idx, j, m)
    ensures Cursors(idx[j := idx[j] + 1], m, n)
  {
    var next := idx[j := idx[j] + 1];
    forall i | 0 <= i < |next| ensures Within(next[i], i, m, n) {
      assert Within(idx[i], i, m, n);
    }
  }

  lemma NotPassed(s: seq<int>, idx: seq<int>, m: nat, j: nat, i: nat, x: int)
    requires Cursors(idx, m, |s|) && Live(idx, j, m) && InSegment(idx[j := idx[j] + 1], m, i, x)
    ensures x != idx[j]
  {
    if i < j { LoMono(i, j, m); } else if j < i { LoMono(j, i, m); }
  }

  /** At the start every position is left and nothing has been taken. */
  lemma MergeStart(s: seq<int>, idx: seq<int>, m: nat)
    requires |s| == Lo(|idx|, m) && forall i :: 0 <= i < |idx| ==> idx[i] == Lo(i, m)
    ensures Merging(s, idx, m, [])
  {
    forall i | 0 <= i < |idx| ensures Within(idx[i], i, m, |s|) {
      LoMono(i, |idx|, m);
    }
    LeftAll(idx, m, 0);
  }

  lemma {:induction false} LeftAll(idx: seq<int>, m: nat, i: nat)
    requires i <= |idx| && forall j :: 0 <= j < |idx| ==> idx[j] == Lo(j, m)
    ensures Left(idx, m, i) == multiset(Range(Lo(i, m), Lo(|idx|, m)))
    decreases |idx| - i
  {
    if i < |idx| {
      LeftAll(idx, m, i + 1);
      LoMono(i, |idx|, m);
      RangeSplit(Lo(i, m), Lo(i + 1, m), Lo(|idx|, m));
    }
  }

  lemma RangeSplit(a: int, b: int, c: int)
    requires a <= b <= c
    ensures multiset(Range(a, c)) == multiset(Range(a, b)) + multiset(Range(b, c))
  {
    assert Range(a, c) == Range(a, b) + Range(b, c);
  }

  lemma MergeEnd(s: seq<int>, idx: seq<int>, m: nat, perm: seq<int>)
    requires Merging(s, idx, m, perm)
    ensures |perm| + |Left(idx, m, 0)| == |s|
    ensures |perm| == |s| ==> StableOrder(s, perm)
  {
    assert |multiset(Range(0, |s|))| == |s|;
    assert |perm| == |s| ==> Left(idx, m, 0) == multiset{};
  }

  /** One turn of the outer loop: the smallest head goes out and its cursor moves on. */
  method TakeNext(nums: array<int>, idx: array<int>, m: nat, ghost s: seq<int>, ghost perm: seq<int>)
    returns (num: int, ghost p: int)
    requires nums != idx && nums[..] == s && Merging(s, idx[..], m, perm) && |perm| < |s|
    requires SegmentsSorted(s, idx.Length, m) && forall x :: 0 <= x < |s| ==> s[x] < LONG_MAX
    modifies idx
    ensures Merging(s, idx[..], m, perm + [p]) && 0 <= p < |s| && num == s[p]
  {
    MergeEnd(s, idx[..], m, perm);
    ghost var j := SomeLive(idx[..], m, 0);
    var found, minidx := FindMin(nums[..], idx[..], m);
    MergeStep(s, idx[..], m, perm, minidx);
    p := idx[minidx];
    num := nums[idx[minidx]];
    ghost var next := idx[..][minidx := p + 1];
    idx[minidx] := idx[minidx] + 1;
    assert idx[..] == next;
  }

  method StartCursors(k: nat, m: nat) returns (idx: array<int>)
    ensures fresh(idx) && idx.Length == k && forall i :: 0 <= i < k ==> idx[i] == Lo(i, m)
  {
    idx := new int[k];
    for i := 0 to k
      invariant forall j :: 0 <= j < i ==> idx[j] == Lo(j, m)
    {
      idx[i] := Lo(i, m);
    }
  }

  lemma PickMore(s: seq<int>, perm: seq<int>, p: int)
    requires 0 <= p < |s| && forall i :: 0 <= i < |perm| ==> 0 <= perm[i] < |s|
    ensures Pick(s, perm + [p]) == Pick(s, perm) + [s[p]]
  {
  }

  /** The merge: any number of sorted segments of any length become one sequence that
  lists all positions in stable order. */
  method Merge(nums: array<int>, k: nat, m: nat) returns (snums: array<int>, ghost perm: seq<int>)
    requires nums.Length == Lo(k, m) && SegmentsSorted(nums[..], k, m)
    requires forall x :: 0 <= x < nums.Length ==> nums[x] < LONG_MAX
    ensures fresh(snums) && StableOrder(nums[..], perm) && snums[..] == Pick(nums[..], perm)
  {
    var idx := StartCursors(k, m);
    snums := new int[nums.Length];
    ghost var s := nums[..];
    perm := [];
    MergeStart(s, idx[..], m);
    for sidx := 0 to nums.Length
      invariant Merging(s, idx[..], m, perm) && nums[..] == s
      invariant |perm| == sidx && snums[..sidx] == Pick(s, perm)
    {
      var num;
      ghost var p;
      num, p := TakeNext(nums, idx, m, s, perm);
      snums[sidx] := num;
      PickMore(s, perm, p);
      perm := perm + [p];
    }
    MergeEnd(s, idx[..], m, perm);
  }

  // ---------- what the result means ----------

  ghost predicate Positions(s: seq<int>, p: seq<int>) {
    forall i :: 0 <= i < |p| ==> 0 <= p[i] < |s|
  }

  lemma DropAt(q: seq<int>, j: nat)
    requires j < |q|
    ensures multiset(q) == multiset{q[j]} + multiset(q[..j] + q[j + 1..])
  {
    assert q == q[..j] + [q[j]] + q[j + 1..];
  }

  lemma Cancel(x: int, a: multiset<int>, b: multiset<int>)
    requires multiset{x} + a == multiset{x} + b
    ensures a == b
  {
    forall y ensures a[y] == b[y] {
      assert (multiset{x} + a)[y] == (multiset{x} + b)[y];
    }
  }

  lemma {:induction false} PickMultiset(s: seq<int>, p: seq<int>, q: seq<int>)
    requires Positions(s, p) && Positions(s, q) && multiset(p) == multiset(q)
    ensures multiset(Pick(s, p)) == multiset(Pick(s, q))
    decreases |p|
  {
    if p == [] {
      assert |q| == |multiset(q)| == 0;
    } else {
      assert p[0] in multiset(q);
      var j :| 0 <= j < |q| && q[j] == p[0];
      SameWithout(p, q, j);
      PickMultiset(s, p[1..], q[..j] + q[j + 1..]);
      PickHead(s, p);
      PickAt(s, q, j);
    }
  }

  lemma SameWithout(p: seq<int>, q: seq<int>, j: nat)
    requires p != [] && j < |q| && q[j] == p[0] && multiset(p) == multiset(q)
    ensures multiset(p[1..]) == multiset(q[..j] + q[j + 1..])
  {
    DropAt(p, 0);
    DropAt(q, j);
    assert p[..0] + p[1..] == p[1..];
    Cancel(p[0], multiset(p[1..]), multiset(q[..j] + q[j + 1..]));
  }

  lemma PickHead(s: seq<int>, p: seq<int>)
    requires Positions(s, p) && p != []
    ensures multiset(Pick(s, p)) == multiset{s[p[0]]} + multiset(Pick(s, p[1..]))
  {
    assert Pick(s, p) == [s[p[0]]] + Pick(s, p[1..]);
  }

  lemma PickAt(s: seq<int>, q: seq<int>, j: nat)
    requires Positions(s, q) && j < |q|
    ensures multiset(Pick(s, q)) == multiset{s[q[j]]} + multiset(Pick(s, q[..j] + q[j + 1..]))
  {
    var a, b := Pick(s, q[..j]), Pick(s, q[j + 1..]);
    assert Pick(s, q) == a + [s[q[j]]] + b;
    assert Pick(s, q[..j] + q[j + 1..]) == a + b;
  }

  /** A stable order yields a sorted permutation of the input ... */
  lemma StableOrderSorts(s: seq<int>, perm: seq<int>)
    requires StableOrder(s, perm)
    ensures multiset(Pick(s, perm)) == multiset(s)
    ensures forall i, j :: 0 <= i < j < |perm| ==> Pick(s, perm)[i] <= Pick(s, perm)[j]
  {
    PickMultiset(s, perm, Range(0, |s|));
    assert Pick(s, Range(0, |s|)) == s;
  }

  lemma SameHead(s: seq<int>, p: seq<int>, q: seq<int>)
    requires InOrder(s, p) && InOrder(s, q) && multiset(p) == multiset(q) && p != [] && q != []
    ensures p[0] == q[0]
  {
    assert p[0] in multiset(q) && q[0] in multiset(p);
    var i :| 0 <= i < |p| && p[i] == q[0];
    var j :| 0 <= j < |q| && q[j] == p[0];
    assert i == 0 || Precedes(s, p[0], p[i]);
    assert j == 0 || Precedes(s, q[0], q[j]);
  }

  lemma SameTail(p: seq<int>, q: seq<int>)
    requires multiset(p) == multiset(q) && p != [] && q != [] && p[0] == q[0]
    ensures multiset(p[1..]) == multiset(q[1..])
  {
    SameWithout(p, q, 0);
    assert q[..0] + q[1..] == q[1..];
  }

  /** ... and there is only one. */
  lemma {:induction false} StableOrderIsUnique(s: seq<int>, p: seq<int>, q: seq<int>)
    requires InOrder(s, p) && InOrder(s, q) && multiset(p) == multiset(q)
    ensures p == q
    decreases |p|
  {
    assert |p| == |multiset(p)| == |multiset(q)| == |q|;
    if p != [] {
      SameHead(s, p, q);
      SameTail(p, q);
      StableOrderIsUnique(s, p[1..], q[1..]);
      assert p == [p[0]] + p[1..] && q == [q[0]] + q[1..];
    }
  }

  // ---------- the barrier ----------

  /** Threads 0 to k-1 sort their segments, thread k is main; each then waits. */
  datatype State = State(nums: seq<int>, waiting: set<nat>)

  /** Thread `i` sorts its own segment, in whatever way, and arrives at the barrier. */
  ghost predicate SortAndWait(s: State, s': State, i: nat, k: nat, m: nat) {
    && i < k && i !in s.waiting && s'.waiting == s.waiting + {i}
    && |s'.nums| == |s.nums| == Lo(k, m) && multiset(s'.nums) == multiset(s.nums)
    && SortedRange(s'.nums, Lo(i, m), Lo(i + 1, m))
    && forall x :: 0 <= x < |s.nums| && !(Lo(i, m) <= x < Lo(i + 1, m)) ==> s'.nums[x] == s.nums[x]
  }

  ghost predicate MainWaits(s: State, s': State, k: nat) {
    k !in s.waiting && s' == s.(waiting := s.waiting + {k})
  }

  ghost predicate Step(s: State, s': State, k: nat, m: nat) {
    MainWaits(s, s', k) || exists t :: SortAndWait(s, s', t, k, m)
  }

  ghost predicate Run(states: seq<State>, k: nat, m: nat) {
    && states != [] && states[0].waiting == {} && |states[0].nums| == Lo(k, m)
    && forall i :: 0 <= i < |states| - 1 ==> Step(states[i], states[i + 1], k, m)
  }

  ghost predicate SoFar(s: State, input: seq<int>, k: nat, m: nat) {
    && |s.nums| == Lo(k, m) && multiset(s.nums) == multiset(input)
    && (forall t :: t in s.waiting ==> t <= k)
    && (forall t :: t in s.waiting && t < k ==> SortedRange(s.nums, Lo(t, m), Lo(t + 1, m)))
  }

  lemma SegmentsApart(s: State, s': State, i: nat, t: nat, k: nat, m: nat)
    requires SortAndWait(s, s', i, k, m) && t < k && t != i && SortedRange(s.nums, Lo(t, m), Lo(t + 1, m))
    ensures SortedRange(s'.nums, Lo(t, m), Lo(t + 1, m))
  {
    if i < t { LoMono(i, t, m); } else { LoMono(t, i, m); }
  }

  lemma {:induction false} RunSoFar(states: seq<State>, k: nat, m: nat, n: nat)
    requires Run(states, k, m) && n < |states|
    ensures SoFar(states[n], states[0].nums, k, m)
  {
    if n > 0 {
      RunSoFar(states, k, m, n - 1);
      var s, s' := states[n - 1], states[n];
      assert Step(states[n - 1], states[n - 1 + 1], k, m);
      if !MainWaits(s, s', k) {
        var i :| SortAndWait(s, s', i, k, m);
        forall t | t in s'.waiting && t < k ensures SortedRange(s'.nums, Lo(t, m), Lo(t + 1, m)) {
          if t != i { SegmentsApart(s, s', i, t, k, m); }
        }
      }
    }
  }

  lemma {:induction false} FullHouse(w: set<nat>, k: nat)
    requires (forall t :: t in w ==> t < k) && |w| >= k
    ensures forall t :: 0 <= t < k ==> t in w
  {
    if k > 0 {
      if k - 1 in w {
        assert |w - {k - 1}| == |w| - 1;
        FullHouse(w - {k - 1}, k - 1);
      } else {
        AtMost(w, k - 1);
      }
    }
  }

  lemma {:induction false} AtMost(w: set<nat>, k: nat)
    requires forall t :: t in w ==> t < k
    ensures |w| <= k
  {
    if w != {} {
      if k > 0 { AtMost(w - {k - 1}, k - 1); }
      var t :| t in w;
    }
  }

  /** In whatever order the threads arrive, once k + 1 of them wait at the barrier every
  segment is sorted, and so what the merge produces is the input in sorted order. */
  lemma BarrierThenMerge(states: seq<State>, k: nat, m: nat, n: nat, perm: seq<int>)
    requires Run(states, k, m) && n < |states| && |states[n].waiting| == k + 1
    requires StableOrder(states[n].nums, perm)
    ensures SegmentsSorted(states[n].nums, k, m)
    ensures multiset(Pick(states[n].nums, perm)) == multiset(states[0].nums)
    ensures forall i, j :: 0 <= i < j < |perm| ==> Pick(states[n].nums, perm)[i] <= Pick(states[n].nums, perm)[j]
  {
    RunSoFar(states, k, m, n);
    FullHouse(states[n].waiting, k + 1);
    StableOrderSorts(states[n].nums, perm);
  }
}
