/** The block reduction kernel emitted by `generateKernel` in src/Cuda.cpp:
    strided accumulation into shared memory, then halving with barriers, in one
    block of min(n, 1024) threads. */
module Reduction {
  import Wire

  datatype Monoid<!T> = Monoid(op: (T, T) -> T, unit: T)

  ghost predicate Commutative<T(!new)>(m: Monoid<T>) {
    && (forall x, y :: m.op(x, y) == m.op(y, x))
    && (forall x, y, z :: m.op(m.op(x, y), z) == m.op(x, m.op(y, z)))
    && (forall x :: m.op(x, m.unit) == x)
  }

  lemma Laws<T(!new)>(m: Monoid<T>, x: T, y: T, z: T)
    requires Commutative(m)
    ensures m.op(x, y) == m.op(y, x)
    ensures m.op(m.op(x, y), z) == m.op(x, m.op(y, z))
    ensures m.op(x, m.unit) == x
  {
  }

  /** The sequential reduction. */
  function Fold<T>(m: Monoid<T>, s: seq<T>): T {
    if s == [] then m.unit else m.op(Fold(m, s[..|s| - 1]), s[|s| - 1])
  }

  function Threads(n: nat): nat { if n < 1024 then n else 1024 }

  predicate PowerOfTwo(n: nat)
    decreases n
  {
    n == 1 || (n > 1 && n % 2 == 0 && PowerOfTwo(n / 2))
  }

  // --------------------------------------------------------- accumulation

  /** What thread `tid` of `b` accumulates: the elements at its residue. */
  function Lane<T>(m: Monoid<T>, s: seq<T>, tid: nat, b: nat): T
    requires b > 0
  {
    if s == [] then m.unit else
      var n := |s| - 1;
      if n % b == tid then m.op(Lane(m, s[..n], tid, b), s[n]) else Lane(m, s[..n], tid, b)
  }

  function Lanes<T>(m: Monoid<T>, s: seq<T>, b: nat): (r: seq<T>)
    requires b > 0
    ensures |r| == b
  {
    seq(b, tid requires 0 <= tid < b => Lane(m, s, tid, b))
  }

  lemma ModNext(i: nat, b: nat, tid: nat, d: nat)
    requires b > 0 && i % b == tid && 0 < d < b
    ensures (i + d) % b != tid
  {
    var q := i / b;
    assert i == q * b + tid;
    if tid + d < b {
      Wire.DivUnique(i + d, b, q, tid + d);
    } else {
      assert i + d == (q + 1) * b + (tid + d - b);
      Wire.DivUnique(i + d, b, q + 1, tid + d - b);
    }
  }

  lemma ModAdd(i: nat, b: nat)
    requires b > 0
    ensures (i + b) % b == i % b
  {
    assert i + b == (i / b + 1) * b + i % b;
    Wire.DivUnique(i + b, b, i / b + 1, i % b);
  }

  lemma {:induction false} LaneGap<T>(m: Monoid<T>, s: seq<T>, tid: nat, b: nat, lo: nat, hi: nat)
    requires b > 0 && lo <= hi <= |s|
    requires forall i :: lo <= i < hi ==> i % b != tid
    ensures Lane(m, s[..hi], tid, b) == Lane(m, s[..lo], tid, b)
    decreases hi
  {
    if lo < hi {
      assert s[..hi][..hi - 1] == s[..hi - 1];
      LaneGap(m, s, tid, b, lo, hi - 1);
    }
  }

  lemma LaneStep<T>(m: Monoid<T>, s: seq<T>, tid: nat, b: nat, i: nat)
    requires b > 0 && i < |s| && i % b == tid
    ensures var next := if i + b <= |s| then i + b else |s|;
            Lane(m, s[..next], tid, b) == m.op(Lane(m, s[..i], tid, b), s[i])
  {
    var next := if i + b <= |s| then i + b else |s|;
    assert s[..i + 1][..i] == s[..i];
    forall k | i + 1 <= k < next ensures k % b != tid {
      ModNext(i, b, tid, k - i);
    }
    LaneGap(m, s, tid, b, i + 1, next);
  }

  /** The strided loop of one thread. */
  method Accumulate<T>(m: Monoid<T>, s: seq<T>, tid: nat, b: nat) returns (acc: T)
    requires tid < b
    ensures acc == Lane(m, s, tid, b)
  {
    hide Lane;
    acc := m.unit;
    var i := tid;
    FirstLane(m, s, tid, b);
    while i < |s|
      invariant i % b == tid
      invariant acc == Lane(m, s[..if i <= |s| then i else |s|], tid, b)
      decreases |s| - i
    {
      acc := m.op(acc, s[i]);
      LaneStep(m, s, tid, b, i);
      ModAdd(i, b);
      i := i + b;
    }
    assert s[..|s|] == s;
  }

  lemma FirstLane<T>(m: Monoid<T>, s: seq<T>, tid: nat, b: nat)
    requires tid < b
    ensures tid % b == tid
    ensures m.unit == Lane(m, s[..if tid <= |s| then tid else |s|], tid, b)
  {
    Wire.DivUnique(tid, b, 0, tid);
    var e := if tid <= |s| then tid else |s|;
    forall k | 0 <= k < e ensures k % b != tid {
      Wire.DivUnique(k, b, 0, k);
    }
    LaneGap(m, s, tid, b, 0, e);
  }

  lemma {:induction false} FoldUpdate<T(!new)>(m: Monoid<T>, s: seq<T>, j: nat, x: T)
    requires Commutative(m) && j < |s|
    ensures Fold(m, s[j := m.op(s[j], x)]) == m.op(Fold(m, s), x)
  {
    var n := |s| - 1;
    var y := m.op(s[j], x);
    if j == n {
      assert s[j := y][..n] == s[..n];
    } else {
      assert s[j := y][..n] == s[..n][j := y];
      FoldUpdate(m, s[..n], j, x);
      var f := Fold(m, s[..n]);
      assert m.op(m.op(f, x), s[n]) == m.op(f, m.op(x, s[n])) == m.op(f, m.op(s[n], x)) == m.op(m.op(f, s[n]), x);
    }
  }

  lemma {:induction false} FoldUnits<T(!new)>(m: Monoid<T>, s: seq<T>)
    requires Commutative(m) && forall i :: 0 <= i < |s| ==> s[i] == m.unit
    ensures Fold(m, s) == m.unit
  {
    if s != [] {
      FoldUnits(m, s[..|s| - 1]);
    }
  }

  /** Accumulation loses nothing, for every length and block size. */
  lemma {:induction false} LanesFold<T(!new)>(m: Monoid<T>, s: seq<T>, b: nat)
    requires Commutative(m) && b > 0
    ensures Fold(m, Lanes(m, s, b)) == Fold(m, s)
  {
    hide Commutative;
    if s == [] {
      FoldUnits(m, Lanes(m, s, b));
    } else {
      var n := |s| - 1;
      var before := Lanes(m, s[..n], b);
      var j := n % b;
      LanesSnoc(m, s, b);
      hide Lanes;
      LanesFold(m, s[..n], b);
      FoldUpdate(m, before, j, s[n]);
    }
  }

  lemma LanesSnoc<T>(m: Monoid<T>, s: seq<T>, b: nat)
    requires b > 0 && s != []
    ensures var n := |s| - 1; var before := Lanes(m, s[..n], b);
            Lanes(m, s, b) == before[n % b := m.op(before[n % b], s[n])]
  {
    var n := |s| - 1;
    var before := Lanes(m, s[..n], b);
    var after := before[n % b := m.op(before[n % b], s[n])];
    forall t | 0 <= t < b ensures Lanes(m, s, b)[t] == after[t] {
      assert Lanes(m, s, b)[t] == Lane(m, s, t, b);
    }
  }

  // -------------------------------------------------------------- halving

  /** One barrier phase: every active thread adds its partner's value. */
  function Halved<T>(m: Monoid<T>, sh: seq<T>, st: nat): (r: seq<T>)
    requires 2 * st <= |sh|
    ensures |r| == |sh|
  {
    seq(|sh|, i requires 0 <= i < |sh| => if i < st then m.op(sh[i], sh[i + st]) else sh[i])
  }

  function Halvings<T>(m: Monoid<T>, sh: seq<T>, st: nat): (r: seq<T>)
    requires 2 * st <= |sh|
    ensures |r| == |sh|
    decreases st
  {
    if st == 0 then sh else Halvings(m, Halved(m, sh, st), st / 2)
  }

  /** The cells a thread reads and the cell it writes in a phase. */
  function Reads(t: nat, st: nat): set<nat> { {t, t + st} }
  function Writes(t: nat): set<nat> { {t} }

  /** No active thread writes a cell that another one reads or writes. */
  lemma PhaseIsRaceFree(st: nat, t: nat, u: nat)
    requires t < st && u < st && t != u
    ensures Writes(t) !! Reads(u, st) && Writes(t) !! Writes(u)
  {
  }

  /** The active threads of a phase, run one after the other in some order. */
  function RunInOrder<T>(m: Monoid<T>, sh: seq<T>, st: nat, order: seq<nat>): (r: seq<T>)
    requires 2 * st <= |sh| && forall i :: 0 <= i < |order| ==> order[i] < st
    ensures |r| == |sh|
    decreases order
  {
    if order == [] then sh
    else RunInOrder(m, sh[order[0] := m.op(sh[order[0]], sh[order[0] + st])], st, order[1..])
  }

  predicate EachOnce(order: seq<nat>, st: nat) {
    && (forall i :: 0 <= i < |order| ==> order[i] < st)
    && (forall i, j :: 0 <= i < j < |order| ==> order[i] != order[j])
  }

  lemma {:induction false} OrderEffect<T>(m: Monoid<T>, sh: seq<T>, st: nat, order: seq<nat>, i: nat)
    requires 2 * st <= |sh| && EachOnce(order, st) && i < |sh|
    ensures RunInOrder(m, sh, st, order)[i] == if i in order then m.op(sh[i], sh[i + st]) else sh[i]
    decreases order
  {
    if order != [] {
      var t := order[0];
      var sh' := sh[t := m.op(sh[t], sh[t + st])];
      OrderEffect(m, sh', st, order[1..], i);
      assert order == [t] + order[1..];
    }
  }

  /** Whatever order the scheduler picks, a phase has the same effect. */
  lemma AnyOrder<T>(m: Monoid<T>, sh: seq<T>, st: nat, order: seq<nat>)
    requires 2 * st <= |sh| && EachOnce(order, st) && forall t :: 0 <= t < st ==> t in order
    ensures RunInOrder(m, sh, st, order) == Halved(m, sh, st)
  {
    forall i | 0 <= i < |sh| ensures RunInOrder(m, sh, st, order)[i] == Halved(m, sh, st)[i] {
      OrderEffect(m, sh, st, order, i);
    }
  }

  /** A finer view of a phase: a thread's loads and its store are separate steps. */
  datatype Status<T> = Ready | Loaded(value: T) | Stored
  datatype PhaseState<T> = PhaseState(sh: seq<T>, threads: seq<Status<T>>)

  ghost predicate PhaseStep<T>(m: Monoid<T>, p: PhaseState<T>, t: nat, p': PhaseState<T>) {
    && t < |p.threads| && 2 * |p.threads| <= |p.sh|
    && match p.threads[t]
       case Ready => p' == p.(threads := p.threads[t := Loaded(m.op(p.sh[t], p.sh[t + |p.threads|]))])
       case Loaded(v) => p' == PhaseState(p.sh[t := v], p.threads[t := Stored])
       case Stored => false
  }

  /** What holds at every moment of a phase that started from `sh`. */
  ghost predicate PhaseInv<T>(m: Monoid<T>, sh: seq<T>, p: PhaseState<T>) {
    && |p.sh| == |sh| && 2 * |p.threads| <= |sh|
    && forall i :: 0 <= i < |sh| ==> CellOk(m, sh, p, i)
  }

  ghost predicate CellOk<T>(m: Monoid<T>, sh: seq<T>, p: PhaseState<T>, i: nat)
    requires |p.sh| == |sh| && 2 * |p.threads| <= |sh| && i < |sh|
  {
    if i < |p.threads| then
      var sum := m.op(sh[i], sh[i + |p.threads|]);
      && p.sh[i] == (if p.threads[i].Stored? then sum else sh[i])
      && (p.threads[i].Loaded? ==> p.threads[i].value == sum)
    else p.sh[i] == sh[i]
  }

  lemma PhaseStepInv<T>(m: Monoid<T>, sh: seq<T>, p: PhaseState<T>, t: nat, p': PhaseState<T>)
    requires PhaseInv(m, sh, p) && PhaseStep(m, p, t, p')
    ensures PhaseInv(m, sh, p') && |p'.threads| == |p.threads|
  {
    assert CellOk(m, sh, p, t) && CellOk(m, sh, p, t + |p.threads|);
    forall i | 0 <= i < |sh| ensures CellOk(m, sh, p', i) {
      assert CellOk(m, sh, p, i);
    }
  }

  /** The active threads of one phase, interleaved in any way. */
  ghost predicate PhaseRun<T>(m: Monoid<T>, sh: seq<T>, st: nat, states: seq<PhaseState<T>>, who: seq<nat>) {
    && 2 * st <= |sh| && |states| == |who| + 1
    && states[0] == PhaseState(sh, seq(st, _ => Ready))
    && forall i :: 0 <= i < |who| ==> PhaseStep(m, states[i], who[i], states[i + 1])
  }

  lemma {:induction false} PhaseRunInv<T>(m: Monoid<T>, sh: seq<T>, st: nat, states: seq<PhaseState<T>>, who: seq<nat>, i: nat)
    requires PhaseRun(m, sh, st, states, who) && i < |states|
    ensures PhaseInv(m, sh, states[i]) && |states[i].threads| == st
  {
    if i > 0 {
      PhaseRunInv(m, sh, st, states, who, i - 1);
      assert PhaseStep(m, states[i - 1], who[i - 1], states[i]);
      PhaseStepInv(m, sh, states[i - 1], who[i - 1], states[i]);
    }
  }

  /** Under every interleaving of the loads and stores between two barriers, the
      phase ends in the same shared memory. */
  lemma EveryInterleaving<T>(m: Monoid<T>, sh: seq<T>, st: nat, states: seq<PhaseState<T>>, who: seq<nat>)
    requires PhaseRun(m, sh, st, states, who)
    requires forall t :: 0 <= t < |states[|who|].threads| ==> states[|who|].threads[t].Stored?
    ensures states[|who|].sh == Halved(m, sh, st)
  {
    PhaseRunInv(m, sh, st, states, who, |who|);
    forall i | 0 <= i < |sh| ensures states[|who|].sh[i] == Halved(m, sh, st)[i] {
      assert CellOk(m, sh, states[|who|], i);
    }
  }

  lemma {:induction false} FoldConcat<T(!new)>(m: Monoid<T>, a: seq<T>, b: seq<T>)
    requires Commutative(m)
    ensures Fold(m, a + b) == m.op(Fold(m, a), Fold(m, b))
  {
    hide Commutative;
    if b == [] {
      assert a + b == a;
      Laws(m, Fold(m, a), m.unit, m.unit);
    } else {
      var n := |b| - 1;
      assert (a + b)[..|a| + n] == a + b[..n];
      FoldConcat(m, a, b[..n]);
      Laws(m, Fold(m, a), Fold(m, b[..n]), b[n]);
    }
  }

  lemma {:induction false} FoldPairs<T(!new)>(m: Monoid<T>, a: seq<T>, b: seq<T>, c: seq<T>)
    requires Commutative(m) && |a| == |b| == |c|
    requires forall i :: 0 <= i < |a| ==> c[i] == m.op(a[i], b[i])
    ensures Fold(m, c) == m.op(Fold(m, a), Fold(m, b))
  {
    if a != [] {
      var n := |a| - 1;
      FoldPairs(m, a[..n], b[..n], c[..n]);
      Shuffle(m, Fold(m, a[..n]), Fold(m, b[..n]), a[n], b[n]);
    }
  }

  lemma Shuffle<T(!new)>(m: Monoid<T>, p: T, q: T, x: T, y: T)
    requires Commutative(m)
    ensures m.op(m.op(p, q), m.op(x, y)) == m.op(m.op(p, x), m.op(q, y))
  {
    assert m.op(m.op(p, q), m.op(x, y)) == m.op(p, m.op(q, m.op(x, y)));
    assert m.op(q, m.op(x, y)) == m.op(m.op(q, x), y) == m.op(m.op(x, q), y) == m.op(x, m.op(q, y));
    assert m.op(p, m.op(x, m.op(q, y))) == m.op(m.op(p, x), m.op(q, y));
  }

  lemma HalvedFold<T(!new)>(m: Monoid<T>, sh: seq<T>, st: nat)
    requires Commutative(m) && 2 * st <= |sh|
    ensures Fold(m, Halved(m, sh, st)[..st]) == Fold(m, sh[..2 * st])
  {
    hide Fold, Commutative;
    FoldPairs(m, sh[..st], sh[st..2 * st], Halved(m, sh, st)[..st]);
    FoldConcat(m, sh[..st], sh[st..2 * st]);
    assert sh[..st] + sh[st..2 * st] == sh[..2 * st];
  }

  lemma {:induction false} HalvingsFold<T(!new)>(m: Monoid<T>, sh: seq<T>, st: nat)
    requires Commutative(m) && 0 < 2 * st <= |sh| && PowerOfTwo(st)
    ensures Halvings(m, sh, st)[0] == Fold(m, sh[..2 * st])
    decreases st
  {
    hide Commutative, Fold;
    var next := Halved(m, sh, st);
    HalvedFold(m, sh, st);
    if st == 1 {
      FoldOne(m, next[..1]);
      assert Halvings(m, next, 0) == next;
    } else {
      HalvingsFold(m, next, st / 2);
    }
  }

  lemma FoldOne<T(!new)>(m: Monoid<T>, s: seq<T>)
    requires Commutative(m) && |s| == 1
    ensures Fold(m, s) == s[0]
  {
    assert Fold(m, s[..0]) == m.unit;
    assert m.op(m.unit, s[0]) == m.op(s[0], m.unit);
  }

  // -------------------------------------------------------------- the kernel

  /** What the kernel leaves in out[0]. */
  function BlockReduce<T>(m: Monoid<T>, s: seq<T>): T
    requires s != []
  {
    var b := Threads(|s|);
    Halvings(m, Lanes(m, s, b), b / 2)[0]
  }

  method Kernel<T>(m: Monoid<T>, s: seq<T>) returns (out: T)
    requires s != []
    ensures out == BlockReduce(m, s)
  {
    var b := Threads(|s|);
    var sh := new T[b](_ => m.unit);
    for tid := 0 to b
      invariant forall k :: 0 <= k < tid ==> sh[k] == Lane(m, s, k, b)
    {
      var acc := Accumulate(m, s, tid, b);
      sh[tid] := acc;
    }
    hide Lane;
    assert sh[..] == Lanes(m, s, b);
    var st := b / 2;
    while st > 0
      invariant 0 <= 2 * st <= b && sh.Length == b
      invariant Halvings(m, sh[..], st)[0] == BlockReduce(m, s)
      decreases st
    {
      Phase(m, sh, st);
      st := st / 2;
    }
    out := sh[0];
  }

  /** The threads of a phase; by `AnyOrder` their order does not matter. */
  method Phase<T>(m: Monoid<T>, sh: array<T>, st: nat)
    requires 2 * st <= sh.Length
    modifies sh
    ensures sh[..] == Halved(m, old(sh[..]), st)
  {
    for tid := 0 to st
      invariant forall k :: 0 <= k < tid ==> sh[k] == m.op(old(sh[k]), old(sh[k + st]))
      invariant forall k :: tid <= k < sh.Length ==> sh[k] == old(sh[k])
    {
      sh[tid] := m.op(sh[tid], sh[tid + st]);
    }
  }

  /** With a power of two of threads, the kernel computes the sequential fold
      over every commutative monoid. */
  lemma KernelIsFold<T(!new)>(m: Monoid<T>, s: seq<T>)
    requires Commutative(m) && s != [] && PowerOfTwo(Threads(|s|))
    ensures BlockReduce(m, s) == Fold(m, s)
  {
    hide Lane, Lanes, Fold, Commutative, PowerOfTwo, Halvings;
    var b := Threads(|s|);
    var sh := Lanes(m, s, b);
    LanesFold(m, s, b);
    HalvingsOfBlock(m, sh);
  }

  lemma HalvingsOfBlock<T(!new)>(m: Monoid<T>, sh: seq<T>)
    requires Commutative(m) && sh != [] && PowerOfTwo(|sh|)
    ensures Halvings(m, sh, |sh| / 2)[0] == Fold(m, sh)
  {
    hide Fold, Commutative;
    if |sh| == 1 {
      FoldOne(m, sh);
    } else {
      HalvingsFold(m, sh, |sh| / 2);
      assert sh[..|sh|] == sh;
    }
  }

  /** So it does for every input of at least 1024 elements. */
  lemma LargeInputsAreFine(n: nat)
    requires n >= 1024
    ensures PowerOfTwo(Threads(n))
  {
    assert PowerOfTwo(2) && PowerOfTwo(4) && PowerOfTwo(8) && PowerOfTwo(16) && PowerOfTwo(32);
    assert PowerOfTwo(64) && PowerOfTwo(128) && PowerOfTwo(256) && PowerOfTwo(512);
  }

  // ---------------------------------------------- the other block sizes

  const SUM: Monoid<int> := Monoid((x: int, y: int) => x + y, 0)

  function Ones(n: nat): seq<int> { seq(n, _ => 1) }

  lemma {:induction false} FoldOnes(n: nat)
    ensures Fold(SUM, Ones(n)) == n
  {
    if n > 0 {
      FoldOnes(n - 1);
      assert Ones(n)[..n - 1] == Ones(n - 1);
    }
  }

  /** Below 1024 every thread takes one element. */
  lemma LanesOfOnes(n: nat)
    requires n > 0
    ensures Lanes(SUM, Ones(n), n) == Ones(n)
  {
    forall t | 0 <= t < n ensures Lane(SUM, Ones(n), t, n) == 1 {
      FirstLane(SUM, Ones(n), t, n);
      LaneStep(SUM, Ones(n), t, n, t);
      assert Ones(n)[..n] == Ones(n);
    }
  }

  /** The largest power of two that is at most `n`. */
  function Floor2(n: nat): (p: nat)
    requires n > 0
    ensures 0 < p <= n
    ensures p == n <==> PowerOfTwo(n)
    decreases n
  {
    if n == 1 then 1 else 2 * Floor2(n / 2)
  }

  lemma {:induction false} HalvingsOfEqual(sh: seq<int>, v: int, len: nat)
    requires 0 < len <= |sh| && forall i :: 0 <= i < len ==> sh[i] == v
    ensures Halvings(SUM, sh, len / 2)[0] == v * Floor2(len)
    decreases len
  {
    if len > 1 {
      var st := len / 2;
      HalvingsOfEqual(Halved(SUM, sh, st), 2 * v, st);
    }
  }

  /** On n ones, n below 1024, the kernel counts only the largest power of two
      up to n: every other element is dropped. */
  lemma OnesAreDropped(n: nat)
    requires 0 < n < 1024
    ensures BlockReduce(SUM, Ones(n)) == Floor2(n) && Fold(SUM, Ones(n)) == n
  {
    LanesOfOnes(n);
    HalvingsOfEqual(Ones(n), 1, n);
    FoldOnes(n);
  }

  // ------------------------------------------- exactness over every monoid

  /** The element a block of this size loses: at the first odd length on the way
      down, the cell that has no partner. */
  function Dropped(len: nat): (k: nat)
    requires len > 1 && !PowerOfTwo(len)
    ensures 0 < k < len
    decreases len
  {
    if len % 2 == 1 then len - 1 else Dropped(len / 2)
  }

  lemma {:induction false} HalvingsOfUnits<T(!new)>(m: Monoid<T>, sh: seq<T>, len: nat)
    requires Commutative(m) && 0 < len <= |sh| && forall i :: 0 <= i < len ==> sh[i] == m.unit
    ensures Halvings(m, sh, len / 2)[0] == m.unit
    decreases len
  {
    hide Commutative;
    Laws(m, m.unit, m.unit, m.unit);
    if len > 1 {
      HalvingsOfUnits(m, Halved(m, sh, len / 2), len / 2);
    }
  }

  /** If only the dropped cell of the active prefix holds something, nothing is left. */
  lemma {:induction false} HalvingsDrop<T(!new)>(m: Monoid<T>, sh: seq<T>, len: nat)
    requires Commutative(m) && 1 < len <= |sh| && !PowerOfTwo(len)
    requires forall i :: 0 <= i < len && i != Dropped(len) ==> sh[i] == m.unit
    ensures Halvings(m, sh, len / 2)[0] == m.unit
    decreases len
  {
    hide Commutative;
    var st := len / 2;
    var next := Halved(m, sh, st);
    Laws(m, m.unit, m.unit, m.unit);
    if len % 2 == 1 {
      HalvingsOfUnits(m, next, st);
    } else {
      Laws(m, sh[Dropped(len)], m.unit, m.unit);
      HalvingsDrop(m, next, st);
    }
  }

  /** A block as large as the input gives every thread its own element. */
  lemma LanesOfSmall<T(!new)>(m: Monoid<T>, s: seq<T>)
    requires Commutative(m) && s != []
    ensures Lanes(m, s, |s|) == s
  {
    hide Commutative;
    var n := |s|;
    forall t | 0 <= t < n ensures Lane(m, s, t, n) == s[t] {
      FirstLane(m, s, t, n);
      LaneStep(m, s, t, n, t);
      Laws(m, m.unit, s[t], m.unit);
      Laws(m, s[t], m.unit, m.unit);
      assert s[..n] == s;
    }
  }

  /** Units, but for one element. */
  function Lone<T>(m: Monoid<T>, n: nat, k: nat, x: T): (s: seq<T>)
    requires k < n
    ensures |s| == n
  {
    seq(n, i => if i == k then x else m.unit)
  }

  lemma FoldLone<T(!new)>(m: Monoid<T>, n: nat, k: nat, x: T)
    requires Commutative(m) && k < n
    ensures Fold(m, Lone(m, n, k, x)) == x
  {
    hide Commutative, Fold;
    var units := seq(n, i => m.unit);
    FoldUnits(m, units);
    FoldUpdate(m, units, k, x);
    Laws(m, m.unit, x, m.unit);
    Laws(m, x, m.unit, m.unit);
    assert units[k := m.op(units[k], x)] == Lone(m, n, k, x);
  }

  /** A small block that is not a power of two drops whatever stands at that place. */
  lemma LoneIsDropped<T(!new)>(m: Monoid<T>, n: nat, x: T)
    requires Commutative(m) && 1 < n < 1024 && !PowerOfTwo(n)
    ensures BlockReduce(m, Lone(m, n, Dropped(n), x)) == m.unit
    ensures Fold(m, Lone(m, n, Dropped(n), x)) == x
  {
    hide Commutative, Fold, Halvings, Lane, Lanes, PowerOfTwo;
    var s := Lone(m, n, Dropped(n), x);
    LanesOfSmall(m, s);
    HalvingsDrop(m, s, n);
    FoldLone(m, n, Dropped(n), x);
  }

  /** Exactly when the kernel is right, for every commutative monoid with more
      than one element, so for sums, maxima and minima alike: the block, which is
      min(n, 1024) threads, is a power of two. */
  lemma KernelExactWhenPowerOfTwo<T(!new)>(m: Monoid<T>, x: T, n: nat)
    requires Commutative(m) && x != m.unit && n > 0
    ensures PowerOfTwo(Threads(n)) <==> forall s: seq<T> :: |s| == n ==> BlockReduce(m, s) == Fold(m, s)
  {
    hide Commutative, Fold, BlockReduce, PowerOfTwo;
    if PowerOfTwo(Threads(n)) {
      forall s: seq<T> | |s| == n ensures BlockReduce(m, s) == Fold(m, s) {
        KernelIsFold(m, s);
      }
    } else {
      NotAPower(n);
      LoneIsDropped(m, n, x);
      assert |Lone(m, n, Dropped(n), x)| == n;
    }
  }

  lemma NotAPower(n: nat)
    requires n > 0 && !PowerOfTwo(Threads(n))
    ensures 1 < n < 1024 && Threads(n) == n
  {
    if n >= 1024 {
      LargeInputsAreFine(n);
    }
  }

  type NonPositive = x: int | x <= 0

  /** The maximum above a least value and the minimum below a greatest one, as the
      kernel's starting values make them. */
  const MAXIMUM: Monoid<nat> := Monoid<nat>.Monoid(Larger, 0)
  const MINIMUM: Monoid<NonPositive> := Monoid<NonPositive>.Monoid(Smaller, 0)

  function Larger(x: nat, y: nat): nat { if x < y then y else x }
  function Smaller(x: NonPositive, y: NonPositive): NonPositive { if y < x then y else x }

  lemma ReductionsCommute()
    ensures Commutative(SUM) && Commutative(MAXIMUM) && Commutative(MINIMUM)
  {
  }

  /** The three reductions the kernel is generated for. */
  lemma EachReductionExact(n: nat)
    requires n > 0
    ensures PowerOfTwo(Threads(n)) <==> forall s: seq<int> :: |s| == n ==> BlockReduce(SUM, s) == Fold(SUM, s)
    ensures PowerOfTwo(Threads(n)) <==> forall s: seq<nat> :: |s| == n ==> BlockReduce(MAXIMUM, s) == Fold(MAXIMUM, s)
    ensures PowerOfTwo(Threads(n)) <==> forall s: seq<NonPositive> :: |s| == n ==> BlockReduce(MINIMUM, s) == Fold(MINIMUM, s)
  {
    ReductionsCommute();
    hide Commutative, Fold, BlockReduce, PowerOfTwo;
    KernelExactWhenPowerOfTwo(SUM, 1, n);
    KernelExactWhenPowerOfTwo(MAXIMUM, 1, n);
    KernelExactWhenPowerOfTwo(MINIMUM, -1, n);
  }

  /** A block of three loses an element. */
  lemma BlockOfThree()
    ensures BlockReduce(SUM, [1, 1, 1]) == 2 && Fold(SUM, [1, 1, 1]) == 3
  {
    assert Ones(3) == [1, 1, 1];
    assert Floor2(3) == 2;
    OnesAreDropped(3);
  }
}
