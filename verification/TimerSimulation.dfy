/** The sorted list and the time wheel both implement one abstract deadline map,
and so fire the same timers in every tick of every run. */
module TimerSimulation {
  import opened Chains
  import opened TimerOrder
  import W = WheelModel

  datatype Op<K> = Add(key: K, timeout: nat) | Del(key: K) | Tick

  /** The abstract timer queue: which timer is due at which tick number. */
  datatype Deadlines<K> = Deadlines(due: map<K, nat>, clock: nat)

  predicate Legal<K(==)>(a: Deadlines<K>, op: Op<K>) {
    match op
    case Add(k, _) => k !in a.due
    case Del(k) => k in a.due
    case Tick => true
  }

  ghost function Fired<K>(a: Deadlines<K>, op: Op<K>): set<K> {
    if op.Tick? then set k | k in a.due && a.due[k] <= a.clock else {}
  }

  ghost function Step<K>(a: Deadlines<K>, op: Op<K>): Deadlines<K> {
    match op
    case Add(k, timeout) => a.(due := a.due[k := a.clock + W.TicksOf(timeout)])
    case Del(k) => a.(due := a.due - {k})
    case Tick => Deadlines(a.due - Fired(a, op), a.clock + 1)
  }

  /** The abstract state after a run that starts with no timers. */
  ghost function After<K>(ops: seq<Op<K>>): Deadlines<K> {
    if ops == [] then Deadlines(map[], 0) else Step(After(ops[..|ops| - 1]), ops[|ops| - 1])
  }

  ghost predicate LegalRun<K>(ops: seq<Op<K>>) {
    forall i :: 0 <= i < |ops| ==> Legal(After(ops[..i]), ops[i])
  }

  lemma AfterStep<K>(ops: seq<Op<K>>, i: nat)
    requires i < |ops|
    ensures After(ops[..i + 1]) == Step(After(ops[..i]), ops[i])
  {
    assert ops[..i + 1][..i] == ops[..i];
  }

  ghost function Set<K>(s: seq<K>): set<K> {
    set x | x in s
  }

  // ---------- the wheel ----------

  /** One wheel operation, with the set of timers it fires. */
  ghost predicate WheelNext<K>(w: W.Wheel<K>, op: Op<K>, w': W.Wheel<K>, fired: set<K>) {
    && W.WellFormed(w)
    && match op
       case Add(k, timeout) => w' == W.Add(w, k, W.TicksOf(timeout)) && fired == {}
       case Del(k) =>
         && fired == {}
         && exists s, i :: 0 <= s < W.N && 0 <= i < |w.slots[s]| && w.slots[s][i].key == k && w' == W.Delete(w, s, i)
       case Tick => w' == W.Tick(w).0 && fired == Set(W.Tick(w).1)
  }

  ghost predicate WheelRun<K>(ws: seq<W.Wheel<K>>, ops: seq<Op<K>>, outs: seq<set<K>>) {
    && |ws| == |ops| + 1 && |outs| == |ops|
    && ws[0] == W.Wheel(seq(W.N, _ => []), 0)
    && forall i :: 0 <= i < |ops| ==> WheelNext(ws[i], ops[i], ws[i + 1], outs[i])
  }

  /** The timer `k` sits where a timer with `r` visits to wait belongs. */
  ghost predicate Placed<K>(w: W.Wheel<K>, k: K, r: int) {
    W.WellFormed(w) && 0 <= r && W.Timer(k, r / W.N) in w.slots[W.SlotFor(w.cur, r)]
  }

  /** A timer found in slot `s` has the deadline that its place says. */
  ghost predicate Owed<K>(a: Deadlines<K>, cur: nat, s: nat, t: W.Timer<K>) {
    t.key in a.due && a.due[t.key] - a.clock == W.Remaining(cur, s, t.rotation)
  }

  ghost predicate AllPlaced<K>(w: W.Wheel<K>, a: Deadlines<K>) {
    forall k :: k in a.due ==> Placed(w, k, a.due[k] - a.clock)
  }

  ghost predicate AllOwed<K>(w: W.Wheel<K>, a: Deadlines<K>)
    requires W.WellFormed(w)
  {
    forall s, t :: 0 <= s < W.N && t in w.slots[s] ==> Owed(a, w.cur, s, t)
  }

  /** Every timer sits where its deadline says, once, and nothing else is there. */
  ghost predicate WheelHolds<K>(w: W.Wheel<K>, a: Deadlines<K>) {
    && W.WellFormed(w) && AllPlaced(w, a) && AllOwed(w, a)
    && (forall s :: 0 <= s < W.N ==> Distinct(w.slots[s]))
  }

  lemma WheelAdd<K>(w: W.Wheel<K>, a: Deadlines<K>, k: K, timeout: nat)
    requires WheelHolds(w, a) && k !in a.due
    ensures WheelHolds(W.Add(w, k, W.TicksOf(timeout)), Step(a, Add(k, timeout)))
  {
    var ticks := W.TicksOf(timeout);
    AddDistinct(w, a, k, ticks);
    AddAllPlaced(w, a, k, ticks);
    AddAllOwed(w, a, k, ticks);
  }

  lemma AddDistinct<K>(w: W.Wheel<K>, a: Deadlines<K>, k: K, ticks: nat)
    requires WheelHolds(w, a) && k !in a.due
    ensures W.WellFormed(W.Add(w, k, ticks))
    ensures forall s :: 0 <= s < W.N ==> Distinct(W.Add(w, k, ticks).slots[s])
  {
    AddIsNew(w, a, k, ticks);
  }

  lemma AddIsNew<K>(w: W.Wheel<K>, a: Deadlines<K>, k: K, ticks: nat)
    requires WheelHolds(w, a) && k !in a.due
    ensures var home := W.SlotFor(w.cur, ticks);
            Distinct(W.Add(w, k, ticks).slots[home])
            && forall u :: u in W.Add(w, k, ticks).slots[home] <==> u in w.slots[home] || u == W.Timer(k, ticks / W.N)
  {
    var home, t := W.SlotFor(w.cur, ticks), W.Timer(k, ticks / W.N);
    assert t !in w.slots[home] by { assert !Owed(a, w.cur, home, t); }
    AddsOne(w.slots[home], t);
  }

  lemma AddAllPlaced<K>(w: W.Wheel<K>, a: Deadlines<K>, k: K, ticks: nat)
    requires WheelHolds(w, a) && k !in a.due
    ensures AllPlaced(W.Add(w, k, ticks), a.(due := a.due[k := a.clock + ticks]))
  {
    AddIsNew(w, a, k, ticks);
    forall x | x in a.due ensures Placed(W.Add(w, k, ticks), x, a.due[x] - a.clock) {
      assert Placed(w, x, a.due[x] - a.clock);
    }
  }

  lemma AddAllOwed<K>(w: W.Wheel<K>, a: Deadlines<K>, k: K, ticks: nat)
    requires WheelHolds(w, a) && k !in a.due
    ensures AllOwed(W.Add(w, k, ticks), a.(due := a.due[k := a.clock + ticks]))
  {
    AddIsNew(w, a, k, ticks);
    W.PlaceIsRemaining(w.cur, W.SlotFor(w.cur, ticks), ticks / W.N, ticks);
    forall s, u | 0 <= s < W.N && u in W.Add(w, k, ticks).slots[s]
      ensures Owed(a.(due := a.due[k := a.clock + ticks]), w.cur, s, u)
    {
      if u in w.slots[s] { assert Owed(a, w.cur, s, u); }
    }
  }

  lemma WheelDel<K>(w: W.Wheel<K>, a: Deadlines<K>, s: nat, i: nat)
    requires WheelHolds(w, a) && s < W.N && i < |w.slots[s]|
    ensures WheelHolds(W.Delete(w, s, i), Step(a, Del(w.slots[s][i].key)))
  {
    RemovesOne(w.slots[s], i);
    DelAllPlaced(w, a, s, i);
    DelAllOwed(w, a, s, i);
  }

  lemma DelAllPlaced<K>(w: W.Wheel<K>, a: Deadlines<K>, s: nat, i: nat)
    requires WheelHolds(w, a) && s < W.N && i < |w.slots[s]|
    ensures AllPlaced(W.Delete(w, s, i), Step(a, Del(w.slots[s][i].key)))
  {
    forall k | k in a.due && k != w.slots[s][i].key ensures Placed(W.Delete(w, s, i), k, a.due[k] - a.clock) {
      DelPlaced(w, a, s, i, k);
    }
  }

  lemma DelAllOwed<K>(w: W.Wheel<K>, a: Deadlines<K>, s: nat, i: nat)
    requires WheelHolds(w, a) && s < W.N && i < |w.slots[s]|
    ensures AllOwed(W.Delete(w, s, i), Step(a, Del(w.slots[s][i].key)))
  {
    forall r, u | 0 <= r < W.N && u in W.Delete(w, s, i).slots[r]
      ensures Owed(Step(a, Del(w.slots[s][i].key)), w.cur, r, u)
    {
      DelOwed(w, a, s, i, r, u);
    }
  }

  lemma DelPlaced<K>(w: W.Wheel<K>, a: Deadlines<K>, s: nat, i: nat, k: K)
    requires WheelHolds(w, a) && s < W.N && i < |w.slots[s]| && k in a.due && k != w.slots[s][i].key
    ensures Placed(W.Delete(w, s, i), k, a.due[k] - a.clock)
  {
    RemovesOne(w.slots[s], i);
    assert Placed(w, k, a.due[k] - a.clock);
  }

  lemma DelOwed<K>(w: W.Wheel<K>, a: Deadlines<K>, s: nat, i: nat, r: nat, u: W.Timer<K>)
    requires WheelHolds(w, a) && s < W.N && i < |w.slots[s]| && r < W.N && u in W.Delete(w, s, i).slots[r]
    ensures Owed(Step(a, Del(w.slots[s][i].key)), w.cur, r, u)
  {
    var t := w.slots[s][i];
    RemovesOne(w.slots[s], i);
    assert u in w.slots[r] && (r == s ==> u != t);
    assert Owed(a, w.cur, r, u);
    if u.key == t.key { OnePlace(w, a, s, t, r, u); }
  }

  /** A timer is in one place only. */
  lemma OnePlace<K>(w: W.Wheel<K>, a: Deadlines<K>, s: nat, t: W.Timer<K>, r: nat, u: W.Timer<K>)
    requires WheelHolds(w, a) && s < W.N && t in w.slots[s] && r < W.N && u in w.slots[r] && t.key == u.key
    ensures s == r && t == u
  {
    assert Owed(a, w.cur, s, t) && Owed(a, w.cur, r, u);
    W.PlaceIsRemaining(w.cur, r, u.rotation, a.due[t.key] - a.clock);
    W.PlaceIsRemaining(w.cur, s, t.rotation, a.due[t.key] - a.clock);
  }

  lemma AddsOne<T>(ts: seq<T>, t: T)
    requires Distinct(ts) && t !in ts
    ensures Distinct(InsertAt(ts, 0, t))
    ensures forall u :: u in InsertAt(ts, 0, t) <==> u in ts || u == t
  {
    assert InsertAt(ts, 0, t) == [t] + ts;
  }

  lemma RemovesOne<T>(ts: seq<T>, i: nat)
    requires i < |ts| && Distinct(ts)
    ensures Distinct(RemoveAt(ts, i))
    ensures forall t :: t in RemoveAt(ts, i) <==> t in ts && t != ts[i]
  {
    var r := RemoveAt(ts, i);
    forall t ensures t in r <==> t in ts && t != ts[i] {
      if t in ts && t != ts[i] {
        var j :| 0 <= j < |ts| && ts[j] == t;
        assert r[if j < i then j else j - 1] == t;
      }
    }
  }

  lemma WheelTickFires<K>(w: W.Wheel<K>, a: Deadlines<K>)
    requires WheelHolds(w, a)
    ensures Set(W.Tick(w).1) == Fired(a, Tick)
  {
    forall k ensures k in Set(W.Tick(w).1) <==> k in Fired(a, Tick) {
      FiresWhenDue(w, a, k);
    }
    assert Set(W.Tick(w).1) == Fired(a, Tick);
  }

  lemma FiresWhenDue<K>(w: W.Wheel<K>, a: Deadlines<K>, k: K)
    requires WheelHolds(w, a)
    ensures k in W.Tick(w).1 <==> k in Fired(a, Tick)
  {
    W.DueOf(w.slots[w.cur], k);
    ThisSlot(w.cur);
    if k in W.Tick(w).1 { assert Owed(a, w.cur, w.cur, W.Timer(k, 0)); }
    if k in Fired(a, Tick) { assert Placed(w, k, a.due[k] - a.clock) && a.due[k] == a.clock; }
  }

  lemma ThisSlot(cur: nat)
    requires cur < W.N
    ensures W.SlotFor(cur, 0) == cur && W.Remaining(cur, cur, 0) == 0
  {
  }

  lemma WheelTick<K>(w: W.Wheel<K>, a: Deadlines<K>)
    requires WheelHolds(w, a)
    ensures WheelHolds(W.Tick(w).0, Step(a, Tick))
  {
    TickAllPlaced(w, a);
    TickAllOwed(w, a);
    W.SurvivorsDistinct(w.slots[w.cur]);
  }

  lemma TickAllPlaced<K>(w: W.Wheel<K>, a: Deadlines<K>)
    requires WheelHolds(w, a)
    ensures AllPlaced(W.Tick(w).0, Step(a, Tick))
  {
    forall k | k in Step(a, Tick).due ensures Placed(W.Tick(w).0, k, a.due[k] - a.clock - 1) {
      StaysPlaced(w, a, k);
    }
  }

  lemma TickAllOwed<K>(w: W.Wheel<K>, a: Deadlines<K>)
    requires WheelHolds(w, a)
    ensures AllOwed(W.Tick(w).0, Step(a, Tick))
  {
    forall s, t | 0 <= s < W.N && t in W.Tick(w).0.slots[s] ensures Owed(Step(a, Tick), W.Tick(w).0.cur, s, t) {
      TickOwed(w, a, s, t);
    }
  }

  lemma StaysPlaced<K>(w: W.Wheel<K>, a: Deadlines<K>, k: K)
    requires WheelHolds(w, a) && k in Step(a, Tick).due
    ensures Placed(W.Tick(w).0, k, a.due[k] - a.clock - 1)
  {
    assert Placed(w, k, a.due[k] - a.clock);
    TickPlaced(w, k, a.due[k] - a.clock);
  }

  lemma TickOwed<K>(w: W.Wheel<K>, a: Deadlines<K>, s: nat, t: W.Timer<K>)
    requires WheelHolds(w, a) && s < W.N && t in W.Tick(w).0.slots[s]
    ensures Owed(Step(a, Tick), W.Tick(w).0.cur, s, t)
  {
    W.TickInventsNothing(w, s, t, t.key);
    assert Owed(a, w.cur, s, W.Timer(t.key, if s == w.cur then t.rotation + 1 else t.rotation));
  }

  lemma TickPlaced<K>(w: W.Wheel<K>, k: K, r: int)
    requires Placed(w, k, r) && r > 0
    ensures Placed(W.Tick(w).0, k, r - 1)
  {
    OneVisitLess(w.cur, r);
    W.SurvivorsOf(w.slots[w.cur], W.Timer(k, (r - 1) / W.N));
  }

  /** One visit less is the same slot seen from the next one, and a rotation less if the
  visit was to that slot. */
  lemma OneVisitLess(cur: nat, r: nat)
    requires cur < W.N && r > 0
    ensures W.SlotFor((cur + 1) % W.N, r - 1) == W.SlotFor(cur, r) < W.N
    ensures (r - 1) / W.N == r / W.N - if W.SlotFor(cur, r) == cur then 1 else 0
  {
  }

  lemma WheelStep<K>(w: W.Wheel<K>, a: Deadlines<K>, op: Op<K>, w': W.Wheel<K>, fired: set<K>)
    requires WheelHolds(w, a) && Legal(a, op) && WheelNext(w, op, w', fired)
    ensures WheelHolds(w', Step(a, op)) && fired == Fired(a, op)
  {
    match op
    case Add(k, timeout) => WheelAdd(w, a, k, timeout);
    case Del(k) =>
      var s, i :| 0 <= s < W.N && 0 <= i < |w.slots[s]| && w.slots[s][i].key == k && w' == W.Delete(w, s, i);
      WheelDel(w, a, s, i);
    case Tick => WheelTick(w, a); WheelTickFires(w, a);
  }

  /** The wheel refines the deadline map over every run. */
  lemma {:induction false} WheelRefines<K>(ws: seq<W.Wheel<K>>, ops: seq<Op<K>>, outs: seq<set<K>>, n: nat)
    requires WheelRun(ws, ops, outs) && LegalRun(ops) && n <= |ops|
    ensures WheelHolds(ws[n], After(ops[..n]))
    ensures forall i :: 0 <= i < n ==> outs[i] == Fired(After(ops[..i]), ops[i])
  {
    if n > 0 {
      WheelRefines(ws, ops, outs, n - 1);
      assert WheelNext(ws[n - 1], ops[n - 1], ws[n - 1 + 1], outs[n - 1]);
      WheelStep(ws[n - 1], After(ops[..n - 1]), ops[n - 1], ws[n], outs[n - 1]);
      AfterStep(ops, n - 1);
    }
  }

  // ---------- the sorted list ----------

  datatype List<K> = List(entries: seq<Entry<K>>, touches: nat, clock: nat)

  ghost function Keys<K>(es: seq<Entry<K>>): set<K> {
    set e | e in es :: e.key
  }

  /** One list operation; its clock is the number of completed ticks. */
  ghost predicate ListNext<K>(l: List<K>, op: Op<K>, l': List<K>, fired: set<K>) {
    match op
    case Add(k, timeout) =>
      && l' == List(Insert(l.entries, Entry(k, l.clock + W.TicksOf(timeout), l.touches)), l.touches + 1, l.clock)
      && fired == {}
    case Del(k) =>
      && fired == {}
      && exists i :: 0 <= i < |l.entries| && l.entries[i].key == k && l' == l.(entries := RemoveAt(l.entries, i))
    case Tick =>
      var p := Position(l.entries, l.clock);
      l' == List(l.entries[p..], l.touches, l.clock + 1) && fired == Keys(l.entries[..p])
  }

  ghost predicate ListRun<K>(ls: seq<List<K>>, ops: seq<Op<K>>, outs: seq<set<K>>) {
    && |ls| == |ops| + 1 && |outs| == |ops|
    && ls[0] == List([], 0, 0)
    && forall i :: 0 <= i < |ops| ==> ListNext(ls[i], ops[i], ls[i + 1], outs[i])
  }

  ghost predicate HasKey<K>(es: seq<Entry<K>>, k: K) {
    exists i :: 0 <= i < |es| && es[i].key == k
  }

  predicate Apart<K(==)>(x: Entry<K>, y: Entry<K>) {
    x.key != y.key
  }

  ghost predicate KeysApart<K>(es: seq<Entry<K>>) {
    forall i, j {:trigger Apart(es[i], es[j])} :: 0 <= i < j < |es| ==> Apart(es[i], es[j])
  }

  ghost predicate ListHolds<K>(l: List<K>, a: Deadlines<K>) {
    && l.clock == a.clock
    && Sorted(l.entries) && Stamped(l.entries, l.touches) && KeysApart(l.entries)
    && AllListed(l.entries, a.due)
  }

  /** The entries are those of the deadline map. */
  ghost predicate AllListed<K>(es: seq<Entry<K>>, due: map<K, nat>) {
    && (forall k :: k in due ==> HasKey(es, k))
    && (forall i :: 0 <= i < |es| ==> es[i].key in due && due[es[i].key] == es[i].expire)
  }

  lemma InsertedKeys<K>(es: seq<Entry<K>>, e: Entry<K>)
    requires KeysApart(es) && !HasKey(es, e.key)
    ensures KeysApart(Insert(es, e))
    ensures forall k :: HasKey(es, k) || k == e.key ==> HasKey(Insert(es, e), k)
  {
    var p, r := Position(es, e.expire), Insert(es, e);
    forall k | HasKey(es, k) || k == e.key ensures HasKey(r, k) {
      if k == e.key {
        assert r[p].key == k;
      } else {
        var i :| 0 <= i < |es| && es[i].key == k;
        assert r[if i < p then i else i + 1].key == k;
      }
    }
    forall i, j | 0 <= i < j < |r| ensures Apart(r[i], r[j]) {
      var i', j' := if i < p then i else i - 1, if j < p then j else j - 1;
      assert i != p && j != p ==> Apart(es[i'], es[j']);
    }
  }

  lemma RemovedKeys<K>(es: seq<Entry<K>>, i: nat)
    requires KeysApart(es) && i < |es|
    ensures KeysApart(RemoveAt(es, i)) && !HasKey(RemoveAt(es, i), es[i].key)
    ensures forall k :: HasKey(es, k) && k != es[i].key ==> HasKey(RemoveAt(es, i), k)
  {
    var r := RemoveAt(es, i);
    forall k | HasKey(es, k) && k != es[i].key ensures HasKey(r, k) {
      var j :| 0 <= j < |es| && es[j].key == k;
      assert r[if j < i then j else j - 1].key == k;
    }
    forall m, n | 0 <= m < n < |r| ensures Apart(r[m], r[n]) {
      assert Apart(es[if m < i then m else m + 1], es[if n < i then n else n + 1]);
    }
    forall m | 0 <= m < |r| ensures r[m].key != es[i].key {
      assert if m < i then Apart(es[m], es[i]) else Apart(es[i], es[m + 1]);
    }
  }

  lemma ListAdd<K>(l: List<K>, a: Deadlines<K>, k: K, timeout: nat, l': List<K>)
    requires ListHolds(l, a) && k !in a.due && ListNext(l, Add(k, timeout), l', {})
    ensures ListHolds(l', Step(a, Add(k, timeout)))
  {
    var e := Entry(k, l.clock + W.TicksOf(timeout), l.touches);
    var r := InsertNew(l.entries, e, l.touches, a.due);
    HoldsAgain(l', a, e, r);
  }

  lemma HoldsAgain<K>(l: List<K>, a: Deadlines<K>, e: Entry<K>, r: seq<Entry<K>>)
    requires l == List(r, e.stamp + 1, a.clock) && e.expire >= 0
    requires Sorted(r) && Stamped(r, e.stamp + 1) && KeysApart(r) && AllListed(r, a.due[e.key := e.expire])
    ensures ListHolds(l, a.(due := a.due[e.key := e.expire]))
  {
  }

  lemma InsertNew<K>(es: seq<Entry<K>>, e: Entry<K>, touches: nat, due: map<K, nat>) returns (r: seq<Entry<K>>)
    requires Sorted(es) && Stamped(es, touches) && KeysApart(es) && AllListed(es, due)
    requires e.stamp == touches && e.key !in due && e.expire >= 0
    ensures r == Insert(es, e)
    ensures Sorted(r) && Stamped(r, touches + 1) && KeysApart(r) && AllListed(r, due[e.key := e.expire])
  {
    r := Insert(es, e);
    InsertKeepsOrder(es, e);
    InsertedKeys(es, e);
    InsertedDue(es, e, due);
  }

  lemma InsertedDue<K>(es: seq<Entry<K>>, e: Entry<K>, due: map<K, nat>)
    requires (forall i :: 0 <= i < |es| ==> es[i].key in due && due[es[i].key] == es[i].expire) && e.key !in due && e.expire >= 0
    ensures var r, due' := Insert(es, e), due[e.key := e.expire];
            forall i :: 0 <= i < |r| ==> r[i].key in due' && due'[r[i].key] == r[i].expire
  {
    var p, r := Position(es, e.expire), Insert(es, e);
    forall i | 0 <= i < |r| ensures r[i].key in due[e.key := e.expire] && due[e.key := e.expire][r[i].key] == r[i].expire {
      if i != p { assert r[i] == es[if i < p then i else i - 1]; }
    }
  }

  lemma ListDel<K>(l: List<K>, a: Deadlines<K>, i: nat)
    requires ListHolds(l, a) && i < |l.entries|
    ensures ListHolds(l.(entries := RemoveAt(l.entries, i)), Step(a, Del(l.entries[i].key)))
  {
    RemoveKeepsOrder(l.entries, i, l.touches);
    RemovedKeys(l.entries, i);
  }

  lemma ListTickFires<K>(l: List<K>, a: Deadlines<K>)
    requires ListHolds(l, a)
    ensures Keys(l.entries[..Position(l.entries, l.clock)]) == Fired(a, Tick)
    ensures forall i :: Position(l.entries, l.clock) <= i < |l.entries| ==> l.clock < l.entries[i].expire
  {
    var es, p := l.entries, Position(l.entries, l.clock);
    forall i | p <= i < |es| ensures l.clock < es[i].expire {
      if p < i { assert Before(es[p], es[i]); }
    }
    forall k | k in Fired(a, Tick) ensures k in Keys(es[..p]) {
      var i :| 0 <= i < |es| && es[i].key == k;
      assert es[i] == es[..p][i];
    }
  }

  lemma ListTick<K>(l: List<K>, a: Deadlines<K>, l': List<K>, fired: set<K>)
    requires ListHolds(l, a) && ListNext(l, Tick, l', fired)
    ensures ListHolds(l', Step(a, Tick)) && fired == Fired(a, Tick)
  {
    ListTickFires(l, a);
    var es, p := l.entries, Position(l.entries, l.clock);
    forall k | k in a.due && k !in fired ensures HasKey(es[p..], k) {
      var i :| 0 <= i < |es| && es[i].key == k;
      assert es[p..][i - p].key == k;
    }
    forall i, j | 0 <= i < j < |es[p..]| ensures Apart(es[p..][i], es[p..][j]) && Before(es[p..][i], es[p..][j]) {
      assert Apart(es[p + i], es[p + j]) && Before(es[p + i], es[p + j]);
    }
  }

  lemma ListStep<K>(l: List<K>, a: Deadlines<K>, op: Op<K>, l': List<K>, fired: set<K>)
    requires ListHolds(l, a) && Legal(a, op) && ListNext(l, op, l', fired)
    ensures ListHolds(l', Step(a, op)) && fired == Fired(a, op)
  {
    match op
    case Add(k, timeout) => ListAdd(l, a, k, timeout, l');
    case Del(k) =>
      var i :| 0 <= i < |l.entries| && l.entries[i].key == k && l' == l.(entries := RemoveAt(l.entries, i));
      ListDel(l, a, i);
    case Tick => ListTick(l, a, l', fired);
  }

  /** The list refines the deadline map over every run. */
  lemma {:induction false} ListRefines<K>(ls: seq<List<K>>, ops: seq<Op<K>>, outs: seq<set<K>>, n: nat)
    requires ListRun(ls, ops, outs) && LegalRun(ops) && n <= |ops|
    ensures ListHolds(ls[n], After(ops[..n]))
    ensures forall i :: 0 <= i < n ==> outs[i] == Fired(After(ops[..i]), ops[i])
  {
    if n > 0 {
      ListRefines(ls, ops, outs, n - 1);
      assert ListNext(ls[n - 1], ops[n - 1], ls[n - 1 + 1], outs[n - 1]);
      ListStep(ls[n - 1], After(ops[..n - 1]), ops[n - 1], ls[n], outs[n - 1]);
      AfterStep(ops, n - 1);
    }
  }

  // ---------- the main results ----------

  /** Wheel and list fire the same timers in every step of every run. */
  lemma WheelAndListAgree<K>(
    ws: seq<W.Wheel<K>>, ls: seq<List<K>>, ops: seq<Op<K>>, wheelOuts: seq<set<K>>, listOuts: seq<set<K>>)
    requires WheelRun(ws, ops, wheelOuts) && ListRun(ls, ops, listOuts) && LegalRun(ops)
    ensures wheelOuts == listOuts
  {
    WheelRefines(ws, ops, wheelOuts, |ops|);
    ListRefines(ls, ops, listOuts, |ops|);
  }

  function TickCount<K>(ops: seq<Op<K>>): nat {
    if ops == [] then 0 else TickCount(ops[..|ops| - 1]) + if ops[|ops| - 1].Tick? then 1 else 0
  }

  lemma TickCountGrows<K>(ops: seq<Op<K>>, from: nat, to: nat)
    requires from <= to < |ops|
    ensures TickCount(ops[from..to + 1]) == TickCount(ops[from..to]) + if ops[to].Tick? then 1 else 0
  {
    assert ops[from..to + 1][..to - from] == ops[from..to];
  }

  /** Nothing but ticks touches the timer `k` in steps `from` to `to`. */
  predicate LeftAlone<K(==)>(ops: seq<Op<K>>, k: K, from: nat, to: nat)
    requires from <= to <= |ops|
  {
    forall i :: from <= i < to ==> ops[i].Tick? || ops[i].key != k
  }

  /** What the deadline map knows of a timer of `ticks` ticks, `n` ticks after it was
  added at time `base`. */
  ghost predicate Known<K>(s: Deadlines<K>, k: K, base: nat, n: nat, ticks: nat) {
    && s.clock == base + n
    && (k in s.due <==> n <= ticks)
    && (k in s.due ==> s.due[k] == base + ticks)
  }

  lemma KnownStep<K>(s: Deadlines<K>, op: Op<K>, k: K, base: nat, n: nat, ticks: nat)
    requires Known(s, k, base, n, ticks) && (op.Tick? || op.key != k)
    ensures Known(Step(s, op), k, base, n + if op.Tick? then 1 else 0, ticks)
  {
  }

  /** A deadline stands until its tick, whatever happens to the other timers. */
  lemma {:induction false} DeadlineStands<K>(ops: seq<Op<K>>, a: nat, b: nat)
    requires a < b <= |ops| && ops[a].Add? && LeftAlone(ops, ops[a].key, a + 1, b)
    ensures Known(After(ops[..b]), ops[a].key, After(ops[..a]).clock, TickCount(ops[a + 1..b]), W.TicksOf(ops[a].timeout))
    decreases b
  {
    AfterStep(ops, b - 1);
    if b == a + 1 {
      assert ops[a + 1..b] == [];
    } else {
      DeadlineStands(ops, a, b - 1);
      TickCountGrows(ops, a + 1, b - 1);
      KnownStep(After(ops[..b - 1]), ops[b - 1], ops[a].key, After(ops[..a]).clock,
                TickCount(ops[a + 1..b - 1]), W.TicksOf(ops[a].timeout));
    }
  }

  /** A wheel timer of t ticks fires in precisely the (t+1)-th tick after its
  insertion, whatever the current slot and whatever the other timers do. */
  lemma FiresInTickTPlusOne<K>(ws: seq<W.Wheel<K>>, ops: seq<Op<K>>, outs: seq<set<K>>, a: nat, b: nat)
    requires WheelRun(ws, ops, outs) && LegalRun(ops)
    requires a < b < |ops| && ops[a].Add? && LeftAlone(ops, ops[a].key, a + 1, b) && ops[b].Tick?
    ensures ops[a].key in outs[b] <==> TickCount(ops[a + 1..b + 1]) == W.TicksOf(ops[a].timeout) + 1
  {
    assert outs[b] == Fired(After(ops[..b]), ops[b]) by { WheelRefines(ws, ops, outs, |ops|); }
    DeadlineStands(ops, a, b);
    TickCountGrows(ops, a + 1, b);
  }

  /** The same in seconds: of the ticks after its insertion, a timer fires in the one that
  n others precede, where n is its timeout in slot intervals of one second, but at least 1. */
  lemma FiresAfterItsSeconds<K>(ws: seq<W.Wheel<K>>, ops: seq<Op<K>>, outs: seq<set<K>>, a: nat, b: nat, n: nat)
    requires WheelRun(ws, ops, outs) && LegalRun(ops)
    requires a < b < |ops| && ops[a].Add? && LeftAlone(ops, ops[a].key, a + 1, b) && ops[b].Tick?
    requires TickCount(ops[a + 1..b + 1]) == n + 1
    ensures ops[a].key in outs[b] <==>
            if ops[a].timeout < W.SI then n == 1 else n * W.SI <= ops[a].timeout < (n + 1) * W.SI
    ensures ops[a].key in outs[b] <==> n == if ops[a].timeout == 0 then 1 else ops[a].timeout
  {
    FiresInTickTPlusOne(ws, ops, outs, a, b);
    W.TicksWait(ops[a].timeout);
  }
}
