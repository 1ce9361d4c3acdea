/** The GPU reduction against the CPU reference it is compared with. */
module Parity {
  import opened Wire
  import opened Cpu
  import R = Reduction

  /** The reduction of this kind as an operation with a starting value.  The
      kernel writes a maximum as `acc > x ? acc : x` and a minimum as
      `acc < x ? acc : x`, which is this operation with its operands exchanged. */
  function MonoidOf<T>(f: Fpu<T>, kind: Byte, unit: T): R.Monoid<T> {
    R.Monoid((x: T, y: T) => Combine(f, kind, x, y), unit)
  }

  /** Folding from a starting value is the fold combined with that value. */
  lemma {:induction false} FoldFrom<T(!new)>(f: Fpu<T>, kind: Byte, unit: T, acc: T, s: seq<T>)
    requires R.Commutative(MonoidOf(f, kind, unit))
    ensures FoldAll(f, kind, acc, s) == Combine(f, kind, acc, R.Fold(MonoidOf(f, kind, unit), s))
  {
    hide R.Commutative, Combine;
    var m := MonoidOf(f, kind, unit);
    if s == [] {
      R.Laws(m, acc, unit, unit);
    } else {
      var n := |s| - 1;
      FoldFrom(f, kind, unit, acc, s[..n]);
      R.Laws(m, acc, R.Fold(m, s[..n]), s[n]);
    }
  }

  /** The CPU's sum is the sequential fold from zero ... */
  lemma CpuSumIsFold<T(!new)>(f: Fpu<T>, s: seq<T>)
    requires R.Commutative(MonoidOf(f, SUM, f.zero))
    ensures FoldAll(f, SUM, Start(f, SUM, s), s) == R.Fold(MonoidOf(f, SUM, f.zero), s)
  {
    var m := MonoidOf(f, SUM, f.zero);
    FoldFrom(f, SUM, f.zero, f.zero, s);
    hide R.Commutative, FoldAll;
    R.Laws(m, f.zero, R.Fold(m, s), f.zero);
    R.Laws(m, R.Fold(m, s), f.zero, f.zero);
  }

  lemma {:induction false} FoldCons<T(!new)>(m: R.Monoid<T>, s: seq<T>)
    requires R.Commutative(m) && s != []
    ensures R.Fold(m, s) == m.op(s[0], R.Fold(m, s[1..]))
  {
    hide R.Commutative;
    R.FoldConcat(m, s[..1], s[1..]);
    R.FoldOne(m, s[..1]);
    assert s[..1] + s[1..] == s;
  }

  /** ... and its maximum or minimum, which starts from the first element and
      meets it again, is the fold from the kernel's extreme value. */
  lemma CpuExtremeIsFold<T(!new)>(f: Fpu<T>, kind: Byte, unit: T, s: seq<T>)
    requires (kind == MAX || kind == MIN) && s != []
    requires R.Commutative(MonoidOf(f, kind, unit)) && !f.lt(s[0], s[0])
    ensures FoldAll(f, kind, Start(f, kind, s), s) == R.Fold(MonoidOf(f, kind, unit), s)
  {
    var m := MonoidOf(f, kind, unit);
    assert m.op(s[0], s[0]) == s[0];
    FoldFrom(f, kind, unit, s[0], s);
    hide R.Commutative, FoldAll, Combine, R.Fold;
    FoldCons(m, s);
    R.Laws(m, s[0], s[0], R.Fold(m, s[1..]));
  }

  /** The kernel's reduction agrees with the CPU reference for every input whose
      block is a power of two, so for all inputs of at least 1024 elements. */
  lemma KernelMatchesCpu<T(!new)>(f: Fpu<T>, kind: Byte, unit: T, s: seq<T>)
    requires s != [] && R.PowerOfTwo(R.Threads(|s|)) && R.Commutative(MonoidOf(f, kind, unit))
    requires (kind == SUM && unit == f.zero) || ((kind == MAX || kind == MIN) && !f.lt(s[0], s[0]))
    ensures R.BlockReduce(MonoidOf(f, kind, unit), s) == FoldAll(f, kind, Start(f, kind, s), s)
  {
    hide R.Commutative, FoldAll, Combine, R.Fold, R.PowerOfTwo, R.BlockReduce;
    R.KernelIsFold(MonoidOf(f, kind, unit), s);
    if kind == SUM {
      CpuSumIsFold(f, s);
    } else {
      CpuExtremeIsFold(f, kind, unit, s);
    }
  }

  /** And for no other length: with a block that is not a power of two some input
      makes kernel and reference differ. */
  lemma KernelMatchesCpuExactly<T(!new)>(f: Fpu<T>, kind: Byte, unit: T, x: T, n: nat)
    requires R.Commutative(MonoidOf(f, kind, unit)) && x != unit && n > 0
    requires (kind == SUM && unit == f.zero) || ((kind == MAX || kind == MIN) && forall y :: !f.lt(y, y))
    ensures R.PowerOfTwo(R.Threads(n))
       <==> forall s: seq<T> :: |s| == n ==> R.BlockReduce(MonoidOf(f, kind, unit), s) == FoldAll(f, kind, Start(f, kind, s), s)
  {
    hide R.Commutative, FoldAll, Combine, R.Fold, R.PowerOfTwo, R.BlockReduce;
    var m := MonoidOf(f, kind, unit);
    forall s: seq<T> | |s| == n ensures FoldAll(f, kind, Start(f, kind, s), s) == R.Fold(m, s) {
      if kind == SUM {
        CpuSumIsFold(f, s);
      } else {
        CpuExtremeIsFold(f, kind, unit, s);
      }
    }
    R.KernelExactWhenPowerOfTwo(m, x, n);
  }

  /** What the CPU's maximum and minimum are, for a strict total order: an
      element that no other one exceeds, or falls below. */
  lemma {:induction false} ExtremeIsExtreme<T(!new)>(f: Fpu<T>, kind: Byte, acc: T, s: seq<T>)
    requires kind == MAX || kind == MIN
    requires (forall x, y :: f.lt(x, y) ==> !f.lt(y, x)) && (forall x, y, z :: !f.lt(x, y) && !f.lt(y, z) ==> !f.lt(x, z))
    ensures var m := FoldAll(f, kind, acc, s);
            && (m == acc || m in s)
            && !Beats(f, kind, acc, m) && forall i :: 0 <= i < |s| ==> !Beats(f, kind, s[i], m)
  {
    if s != [] {
      var n := |s| - 1;
      ExtremeIsExtreme(f, kind, acc, s[..n]);
      assert s == s[..n] + [s[n]];
    }
  }

  /** `x` is larger, or for a minimum smaller, than `y`. */
  predicate Beats<T>(f: Fpu<T>, kind: Byte, x: T, y: T) {
    if kind == MAX then f.lt(y, x) else f.lt(x, y)
  }

  // ------------------------------------------------------- elementwise kernels

  /** The statement that `elementwiseMath` writes for an operation name, on one
      element and the scalar. */
  function KernelElement<T>(f: Fpu<T>, op: string, x: T, scalar: T): T {
    if op == "add" then f.add(x, scalar)
    else if op == "sub" then f.sub(x, scalar)
    else if op == "mul" then f.mul(x, scalar)
    else if op == "scale" then f.mul(x, scalar)
    else if op == "abs" then f.abs(x)
    else if op == "neg" then f.neg(x)
    else x
  }

  /** `opKindFor`, by the ordinals of the enumeration. */
  function KindFor(op: string): Byte {
    if op == "add" then 1 else if op == "sub" then 2 else if op == "mul" then 3 else if op == "scale" then 4
    else if op == "abs" then 5 else if op == "neg" then 6 else if op == "sum" then 7 else if op == "max" then 8
    else if op == "min" then 9 else 10
  }

  predicate IsReduction(op: string) { op == "sum" || op == "max" || op == "min" }

  /** The CPU reference of an elementwise kernel is the kernel's own statement on
      every element of the input, rounded: one element for each input element, of
      which there are as many as the shape says, or 1024 if it says none. */
  lemma ElementwiseMatchesKernel<T>(f: Fpu<T>, op: string, p: Program, seed: U64)
    requires !IsReduction(op) && |p.ops| == 1 && p.ops[0].kind == KindFor(op)
    ensures var input := HostInput(f, Count(p), p.dtype, seed); var out := Meaning(f, p, seed);
            && |out| == |input| == Count(p)
            && forall i :: 0 <= i < |out| ==>
                 out[i] == Round(f, KernelElement(f, op, input[i], f.of(p.ops[0].scalar)), p.dtype)
    ensures p.shapeN == 0 ==> Count(p) == 1024
    ensures 0 < p.shapeN < TWO32 ==> Count(p) == p.shapeN
  {
    var input := HostInput(f, Count(p), p.dtype, seed);
    assert p.ops[1..] == [];
    assert RunOps(f, p.ops, p.dtype, input) == RunOps(f, p.ops[1..], p.dtype, StepOp(f, p.ops[0], p.dtype, input));
    assert StepOp(f, p.ops[0], p.dtype, input) == MapAll(f, p.ops[0], p.dtype, input);
  }

  /** The reference of a reduction kernel is one element: the rounded reduction. */
  lemma ReductionReference<T>(f: Fpu<T>, op: string, p: Program, seed: U64)
    requires IsReduction(op) && |p.ops| == 1 && p.ops[0].kind == KindFor(op)
    ensures var input := HostInput(f, Count(p), p.dtype, seed);
            var kind := if op == "sum" then SUM else if op == "max" then MAX else MIN;
            Meaning(f, p, seed) == [Round(f, FoldAll(f, kind, Start(f, kind, input), input), p.dtype)]
  {
    hide FoldAll;
    var input := HostInput(f, Count(p), p.dtype, seed);
    assert p.ops[1..] == [];
    assert RunOps(f, p.ops, p.dtype, input) == RunOps(f, p.ops[1..], p.dtype, StepOp(f, p.ops[0], p.dtype, input));
  }

  /** The element a thread of the grid writes. */
  function ElementOfThread(b: nat, t: nat, block: nat): nat { b * block + t }

  /** The launch geometry of an elementwise kernel: every element is written by a
      thread of the grid, and by only one. */
  lemma EachElementOnce(n: nat, block: nat, i: nat)
    requires block > 0 && i < n
    ensures i / block < (n + block - 1) / block && i % block < block
    ensures ElementOfThread(i / block, i % block, block) == i
    ensures forall b: nat, t: nat :: t < block && ElementOfThread(b, t, block) == i ==> b == i / block && t == i % block
  {
    var grid, q, r := (n + block - 1) / block, i / block, i % block;
    assert i == q * block + r;
    GridCovers(n, block);
    if q >= grid {
      Grows(grid, q, block);
    }
    forall b: nat, t: nat | t < block && ElementOfThread(b, t, block) == i ensures b == q && t == r {
      DivUnique(i, block, b, t);
    }
  }

  lemma GridCovers(n: nat, block: nat)
    requires block > 0
    ensures ((n + block - 1) / block) * block >= n
  {
    var x := n + block - 1;
    assert x == (x / block) * block + x % block;
  }

  lemma Grows(a: nat, b: nat, c: nat)
    requires a <= b
    ensures a * c <= b * c
  {
    assert (b - a) * c >= 0;
  }

  // ------------------------------------------------------- laws of operations

  /** Where subtraction undoes addition, adding and subtracting one scalar in
      double precision changes nothing. */
  lemma AddThenSubtract<T(!new)>(f: Fpu<T>, scalar: U64, dtype: Byte, s: seq<T>)
    requires dtype != F32 && forall x: T, y: T :: f.sub(f.add(x, y), y) == x
    ensures RunOps(f, [Op(1, scalar, 0), Op(2, scalar, 0)], dtype, s) == s
  {
    var a, b := Op(1, scalar, 0), Op(2, scalar, 0);
    TwoSteps(f, a, b, dtype, s);
    var mid := StepOp(f, a, dtype, s);
    forall i | 0 <= i < |s| ensures StepOp(f, b, dtype, mid)[i] == s[i] {
      assert mid[i] == f.add(s[i], f.of(scalar));
    }
  }

  /** Where negation is an involution that rounding respects, so is the operation. */
  lemma NegateTwice<T(!new)>(f: Fpu<T>, dtype: Byte, s: seq<T>)
    requires Rounded(f, dtype, s) && NegationLaws(f)
    ensures RunOps(f, [Op(6, 0, 0), Op(6, 0, 0)], dtype, s) == s
    ensures forall i :: 0 <= i < |s| ==> RunOps(f, [Op(6, 0, 0)], dtype, s)[i] == f.neg(s[i])
  {
    var a := Op(6, 0, 0);
    TwoSteps(f, a, a, dtype, s);
    var mid := StepOp(f, a, dtype, s);
    forall i | 0 <= i < |s| ensures mid[i] == f.neg(s[i]) && StepOp(f, a, dtype, mid)[i] == s[i] {
      assert Round(f, s[i], dtype) == s[i];
      assert mid[i] == Round(f, f.neg(s[i]), dtype);
    }
    assert [a][1..] == [];
  }

  ghost predicate NegationLaws<T(!new)>(f: Fpu<T>) {
    && (forall x: T :: f.neg(f.neg(x)) == x)
    && (forall x: T :: f.f32(f.neg(x)) == f.neg(f.f32(x)))
    && (forall x: T :: f.abs(f.neg(x)) == f.abs(x))
  }

  /** And negating before taking absolute values makes no difference. */
  lemma NegateThenAbs<T(!new)>(f: Fpu<T>, dtype: Byte, s: seq<T>)
    requires Rounded(f, dtype, s) && NegationLaws(f)
    ensures RunOps(f, [Op(6, 0, 0), Op(5, 0, 0)], dtype, s) == RunOps(f, [Op(5, 0, 0)], dtype, s)
  {
    var a, b := Op(6, 0, 0), Op(5, 0, 0);
    TwoSteps(f, a, b, dtype, s);
    assert [b][1..] == [];
    var mid := StepOp(f, a, dtype, s);
    NegateTwice(f, dtype, s);
    assert [a][1..] == [];
    forall i | 0 <= i < |s| ensures StepOp(f, b, dtype, mid)[i] == StepOp(f, b, dtype, s)[i] {
      assert RunOps(f, [a], dtype, s) == mid;
      assert mid[i] == f.neg(s[i]);
    }
  }

  /** Only the datatype with ordinal 1 rounds, and a kind that is neither an
      elementwise operation nor a reduction leaves the buffer as it is. */
  lemma OtherwiseUnchanged<T>(f: Fpu<T>, op: Op, dtype: Byte, x: T, s: seq<T>)
    ensures Round(f, x, dtype) == if dtype == 1 then f.f32(x) else x
    ensures op.kind == 0 || op.kind > 10 ==> RunOps(f, [op], dtype, s) == s
  {
    assert [op][1..] == [];
    assert RunOps(f, [op], dtype, s) == RunOps(f, [], dtype, StepOp(f, op, dtype, s));
  }

  /** `mul` and `scale` are one operation. */
  lemma MultiplyIsScale<T>(f: Fpu<T>, scalar: U64, dtype: Byte, s: seq<T>)
    ensures RunOps(f, [Op(3, scalar, 0)], dtype, s) == RunOps(f, [Op(4, scalar, 0)], dtype, s)
  {
    var a, b := Op(3, scalar, 0), Op(4, scalar, 0);
    assert [a][1..] == [] && [b][1..] == [];
    assert StepOp(f, a, dtype, s) == StepOp(f, b, dtype, s);
  }

  lemma TwoSteps<T>(f: Fpu<T>, a: Op, b: Op, dtype: Byte, s: seq<T>)
    ensures RunOps(f, [a, b], dtype, s) == StepOp(f, b, dtype, StepOp(f, a, dtype, s))
  {
    hide StepOp;
    var s1 := StepOp(f, a, dtype, s);
    assert [a, b][1..] == [b] && [b][1..] == [];
    assert RunOps(f, [a, b], dtype, s) == RunOps(f, [b], dtype, s1);
    assert RunOps(f, [b], dtype, s1) == RunOps(f, [], dtype, StepOp(f, b, dtype, s1));
  }

  /** The number `n` as a sum of ones. */
  function Numeral<T>(f: Fpu<T>, n: nat): T {
    if n == 0 then f.zero else f.add(Numeral(f, n - 1), f.one)
  }

  /** A sum over ones counts them. */
  lemma {:induction false} SumCountsOnes<T>(f: Fpu<T>, n: nat)
    ensures FoldAll(f, 7, Start(f, 7, seq(n, i => f.one)), seq(n, i => f.one)) == Numeral(f, n)
  {
    if n > 0 {
      SumCountsOnes(f, n - 1);
      assert seq(n, i => f.one)[..n - 1] == seq(n - 1, i => f.one);
    }
  }
}
