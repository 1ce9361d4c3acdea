/** The bounded computation model of src/CpuBackend.cpp: execution and the
    optimizer, over an abstract number domain. */
module Cpu {
  import opened Wire

  // Operation kinds and datatypes are carried by their ordinal, as in the bytecode,
  // so an unknown byte read from an artifact is representable.
  const NOP: Byte := 0
  const ADD: Byte := 1
  const SUB: Byte := 2
  const MUL: Byte := 3
  const SCALE: Byte := 4
  const ABS: Byte := 5
  const NEG: Byte := 6
  const SUM: Byte := 7
  const MAX: Byte := 8
  const MIN: Byte := 9
  const ID: Byte := 10

  const F32: Byte := 1

  type I32 = x: int | -0x8000_0000 <= x < 0x8000_0000

  /** `scalar` holds the 64 bits of the double. */
  datatype Op = Op(kind: Byte, scalar: U64, n: U32)

  datatype Program = Program(
    name: Bytes, ops: seq<Op>, dtype: Byte, shapeN: U64, alignment: I32, launchConfig: Bytes)

  /** The arithmetic the program runs on.  `eq` is the comparison `==` of the
      source, so a NaN need not equal itself; `f32` is the conversion to single
      precision and back; `host` is the input generator before rounding. */
  datatype Fpu<!T> = Fpu(
    of: U64 -> T, zero: T, one: T,
    add: (T, T) -> T, sub: (T, T) -> T, mul: (T, T) -> T, abs: T -> T, neg: T -> T,
    lt: (T, T) -> bool, eq: (T, T) -> bool, f32: T -> T, host: (U64, nat) -> T)

  /** The identities the optimizer relies on. */
  ghost predicate Lawful<T(!new)>(f: Fpu<T>) {
    && (forall x, s :: f.eq(s, f.one) ==> f.mul(x, s) == x)
    && (forall x, s :: f.eq(s, f.zero) ==> f.add(x, s) == x)
    && (forall x, s :: f.eq(s, f.zero) ==> f.sub(x, s) == x)
    && (forall x :: f.f32(f.f32(x)) == f.f32(x))
  }

  /** `rr`. */
  function Round<T>(f: Fpu<T>, x: T, dtype: Byte): T { if dtype == F32 then f.f32(x) else x }

  // ------------------------------------------------------------ execution

  predicate Elementwise(kind: Byte) { ADD <= kind <= NEG || kind == ID }
  predicate Reducing(kind: Byte) { SUM <= kind <= MIN }

  function ElementOf<T>(f: Fpu<T>, op: Op, x: T): T {
    if op.kind == ADD then f.add(x, f.of(op.scalar))
    else if op.kind == SUB then f.sub(x, f.of(op.scalar))
    else if op.kind == MUL || op.kind == SCALE then f.mul(x, f.of(op.scalar))
    else if op.kind == ABS then f.abs(x)
    else if op.kind == NEG then f.neg(x)
    else x
  }

  function Combine<T>(f: Fpu<T>, kind: Byte, acc: T, x: T): T {
    if kind == SUM then f.add(acc, x)
    else if kind == MAX then (if f.lt(acc, x) then x else acc)
    else (if f.lt(x, acc) then x else acc)
  }

  function FoldAll<T>(f: Fpu<T>, kind: Byte, acc: T, s: seq<T>): T {
    if s == [] then acc else Combine(f, kind, FoldAll(f, kind, acc, s[..|s| - 1]), s[|s| - 1])
  }

  function Start<T>(f: Fpu<T>, kind: Byte, s: seq<T>): T {
    if kind == SUM || s == [] then f.zero else s[0]
  }

  function MapAll<T>(f: Fpu<T>, op: Op, dtype: Byte, s: seq<T>): (r: seq<T>)
    ensures |r| == |s|
  {
    seq(|s|, i requires 0 <= i < |s| => Round(f, ElementOf(f, op, s[i]), dtype))
  }

  /** The effect of one operation on the whole buffer. */
  function StepOp<T>(f: Fpu<T>, op: Op, dtype: Byte, s: seq<T>): seq<T> {
    if Elementwise(op.kind) then MapAll(f, op, dtype, s)
    else if Reducing(op.kind) then [Round(f, FoldAll(f, op.kind, Start(f, op.kind, s), s), dtype)]
    else s
  }

  function RunOps<T>(f: Fpu<T>, ops: seq<Op>, dtype: Byte, s: seq<T>): seq<T>
    decreases ops
  {
    if ops == [] then s else RunOps(f, ops[1..], dtype, StepOp(f, ops[0], dtype, s))
  }

  /** The element count, truncated to 32 bits. */
  function Count(p: Program): U32 { (if p.shapeN != 0 then p.shapeN else 1024) % TWO32 }

  function HostInput<T>(f: Fpu<T>, n: nat, dtype: Byte, seed: U64): seq<T> {
    seq(n, i requires 0 <= i < n => Round(f, f.host(seed, i), dtype))
  }

  /** What a program computes. */
  function Meaning<T>(f: Fpu<T>, p: Program, seed: U64): seq<T> {
    RunOps(f, p.ops, p.dtype, HostInput(f, Count(p), p.dtype, seed))
  }

  method MapInPlace<T>(f: Fpu<T>, op: Op, dtype: Byte, out: array<T>)
    modifies out
    ensures out[..] == MapAll(f, op, dtype, old(out[..]))
  {
    for i := 0 to out.Length
      invariant forall k :: 0 <= k < i ==> out[k] == Round(f, ElementOf(f, op, old(out[k])), dtype)
      invariant forall k :: i <= k < out.Length ==> out[k] == old(out[k])
    {
      var r := ElementOf(f, op, out[i]);
      out[i] := Round(f, r, dtype);
    }
  }

  method Reduce<T>(f: Fpu<T>, kind: Byte, out: array<T>) returns (acc: T)
    ensures acc == FoldAll(f, kind, Start(f, kind, out[..]), out[..])
  {
    acc := if kind == SUM then f.zero else if out.Length == 0 then f.zero else out[0];
    ghost var start := acc;
    for i := 0 to out.Length
      invariant acc == FoldAll(f, kind, start, out[..i])
    {
      assert out[..i + 1][..i] == out[..i];
      acc := Combine(f, kind, acc, out[i]);
    }
    assert out[..out.Length] == out[..];
  }

  /** `execute`: rewrites the output vector operation by operation. */
  method Execute<T>(f: Fpu<T>, p: Program, seed: U64) returns (out: array<T>)
    ensures fresh(out)
    ensures out[..] == Meaning(f, p, seed)
  {
    var n := Count(p);
    out := new T[n](i requires 0 <= i => Round(f, f.host(seed, i), p.dtype));
    assert out[..] == HostInput(f, n, p.dtype, seed);
    for k := 0 to |p.ops|
      invariant fresh(out)
      invariant RunOps(f, p.ops[k..], p.dtype, out[..]) == Meaning(f, p, seed)
    {
      hide FoldAll;
      var op := p.ops[k];
      assert p.ops[k..][0] == op && p.ops[k..][1..] == p.ops[k + 1..];
      if Elementwise(op.kind) {
        MapInPlace(f, op, p.dtype, out);
      } else if Reducing(op.kind) {
        var acc := Reduce(f, op.kind, out);
        var r := Round(f, acc, p.dtype);
        out := new T[1](_ => r);
        assert out[..] == [r];
      }
    }
  }

  // ------------------------------------------------------------ optimizer

  /** An operation the optimizer removes. */
  predicate Droppable<T>(f: Fpu<T>, op: Op) {
    || op.kind == NOP
    || (op.kind == SCALE && f.eq(f.of(op.scalar), f.one))
    || (op.kind == ADD && f.eq(f.of(op.scalar), f.zero))
    || (op.kind == SUB && f.eq(f.of(op.scalar), f.zero))
  }

  function Kept<T>(f: Fpu<T>, ops: seq<Op>): seq<Op> {
    if ops == [] then []
    else if Droppable(f, ops[|ops| - 1]) then Kept(f, ops[..|ops| - 1])
    else Kept(f, ops[..|ops| - 1]) + [ops[|ops| - 1]]
  }

  function Optimized<T>(f: Fpu<T>, level: int, ops: seq<Op>): seq<Op> {
    if level <= 0 || Kept(f, ops) == [] then ops else Kept(f, ops)
  }

  method Optimize<T>(f: Fpu<T>, level: int, ops: seq<Op>) returns (opt: seq<Op>)
    ensures opt == Optimized(f, level, ops)
  {
    var doFold := level > 0;
    opt := [];
    for i := 0 to |ops|
      invariant opt == if doFold then Kept(f, ops[..i]) else ops[..i]
    {
      assert ops[..i + 1][..i] == ops[..i];
      var op := ops[i];
      var identity := false;
      if doFold {
        if op.kind == SCALE && f.eq(f.of(op.scalar), f.one) { identity := true; }
        if op.kind == ADD && f.eq(f.of(op.scalar), f.zero) { identity := true; }
        if op.kind == SUB && f.eq(f.of(op.scalar), f.zero) { identity := true; }
        if op.kind == NOP { continue; }
        if identity { continue; }
      }
      opt := opt + [op];
    }
    assert ops[..|ops|] == ops;
    if opt == [] { opt := ops; }
  }

  /** Every element survives rounding unchanged: the invariant of the buffer. */
  ghost predicate Rounded<T>(f: Fpu<T>, dtype: Byte, s: seq<T>) {
    forall i :: 0 <= i < |s| ==> Round(f, s[i], dtype) == s[i]
  }

  lemma StepRounded<T(!new)>(f: Fpu<T>, op: Op, dtype: Byte, s: seq<T>)
    requires Lawful(f) && Rounded(f, dtype, s)
    ensures Rounded(f, dtype, StepOp(f, op, dtype, s))
  {
    hide FoldAll;
  }

  lemma DroppableIsIdentity<T(!new)>(f: Fpu<T>, op: Op, dtype: Byte, s: seq<T>)
    requires Lawful(f) && Rounded(f, dtype, s) && Droppable(f, op)
    ensures StepOp(f, op, dtype, s) == s
  {
    if op.kind != NOP {
      forall i | 0 <= i < |s| ensures MapAll(f, op, dtype, s)[i] == s[i] {
        assert ElementOf(f, op, s[i]) == s[i];
      }
    }
  }

  lemma {:induction false} RunSnoc<T>(f: Fpu<T>, ops: seq<Op>, op: Op, dtype: Byte, s: seq<T>)
    ensures RunOps(f, ops + [op], dtype, s) == StepOp(f, op, dtype, RunOps(f, ops, dtype, s))
    decreases ops
  {
    hide StepOp;
    if ops == [] {
      assert ops + [op] == [op] && [op][1..] == [];
    } else {
      assert (ops + [op])[1..] == ops[1..] + [op];
      RunSnoc(f, ops[1..], op, dtype, StepOp(f, ops[0], dtype, s));
    }
  }

  lemma {:induction false} RunRounded<T(!new)>(f: Fpu<T>, ops: seq<Op>, dtype: Byte, s: seq<T>)
    requires Lawful(f) && Rounded(f, dtype, s)
    ensures Rounded(f, dtype, RunOps(f, ops, dtype, s))
    decreases ops
  {
    if ops != [] {
      StepRounded(f, ops[0], dtype, s);
      RunRounded(f, ops[1..], dtype, StepOp(f, ops[0], dtype, s));
    }
  }

  lemma {:induction false} KeptRuns<T(!new)>(f: Fpu<T>, ops: seq<Op>, dtype: Byte, s: seq<T>)
    requires Lawful(f) && Rounded(f, dtype, s)
    ensures RunOps(f, Kept(f, ops), dtype, s) == RunOps(f, ops, dtype, s)
  {
    if ops != [] {
      var init, last := ops[..|ops| - 1], ops[|ops| - 1];
      KeptRuns(f, init, dtype, s);
      RunRounded(f, init, dtype, s);
      assert ops == init + [last];
      hide StepOp, RunOps, Droppable;
      RunSnoc(f, init, last, dtype, s);
      RunSnoc(f, Kept(f, init), last, dtype, s);
      if Droppable(f, last) {
        DroppableIsIdentity(f, last, dtype, RunOps(f, init, dtype, s));
      }
    }
  }

  lemma HostRounded<T(!new)>(f: Fpu<T>, n: nat, dtype: Byte, seed: U64)
    requires Lawful(f)
    ensures Rounded(f, dtype, HostInput(f, n, dtype, seed))
  {
    var s := HostInput(f, n, dtype, seed);
    forall i | 0 <= i < |s| ensures Round(f, s[i], dtype) == s[i] {
      assert s[i] == Round(f, f.host(seed, i), dtype);
    }
  }

  /** The optimizer preserves meaning, at every level, for every program and seed. */
  lemma OptimizePreservesMeaning<T(!new)>(f: Fpu<T>, level: int, p: Program, seed: U64)
    requires Lawful(f)
    ensures Meaning(f, p.(ops := Optimized(f, level, p.ops)), seed) == Meaning(f, p, seed)
  {
    var s := HostInput(f, Count(p), p.dtype, seed);
    HostRounded(f, Count(p), p.dtype, seed);
    KeptRuns(f, p.ops, p.dtype, s);
  }

  lemma {:induction false} KeptExact<T>(f: Fpu<T>, ops: seq<Op>)
    ensures forall op :: op in Kept(f, ops) <==> op in ops && !Droppable(f, op)
  {
    if ops != [] {
      var init, last := ops[..|ops| - 1], ops[|ops| - 1];
      assert ops == init + [last];
      KeptExact(f, init);
    }
  }

  lemma {:induction false} KeptWhole<T>(f: Fpu<T>, ops: seq<Op>)
    requires forall op :: op in ops ==> !Droppable(f, op)
    ensures Kept(f, ops) == ops
  {
    if ops != [] {
      var init, last := ops[..|ops| - 1], ops[|ops| - 1];
      assert ops == init + [last];
      assert last in ops;
      KeptWhole(f, init);
    }
  }

  /** Folding twice changes nothing more, and what is left holds a droppable
      operation only when there was nothing else to keep. */
  lemma OptimizeIdempotent<T>(f: Fpu<T>, level: int, ops: seq<Op>)
    ensures Optimized(f, level, Optimized(f, level, ops)) == Optimized(f, level, ops)
    ensures level > 0 && (exists op :: op in ops && !Droppable(f, op))
        ==> forall op :: op in Optimized(f, level, ops) <==> op in ops && !Droppable(f, op)
    ensures ops != [] ==> Optimized(f, level, ops) != []
  {
    KeptExact(f, ops);
    KeptWhole(f, Kept(f, ops));
  }

  /** Exactly which operations an optimizing compilation keeps, unless it would
      keep none: all but no-ops, scalings by one, and additions and subtractions
      of zero. */
  lemma OptimizeKeepsExactly<T>(f: Fpu<T>, level: int, ops: seq<Op>, op: Op)
    ensures level <= 0 ==> Optimized(f, level, ops) == ops
    ensures level > 0 && (exists x :: x in ops && !Neutral(f, x)) ==> (op in Optimized(f, level, ops) <==> op in ops && !Neutral(f, op))
    ensures level > 0 && (forall x :: x in ops ==> Neutral(f, x)) ==> Optimized(f, level, ops) == ops
  {
    KeptExact(f, ops);
    if level > 0 && exists x :: x in ops && !Neutral(f, x) {
      var x :| x in ops && !Neutral(f, x);
      assert x in Kept(f, ops);
    }
    if level > 0 && (forall x :: x in ops ==> Neutral(f, x)) && Kept(f, ops) != [] {
      assert Kept(f, ops)[0] in Kept(f, ops);
    }
  }

  /** By opcode: nop (0), add (1) and sub (2) of zero, scale (4) by one. */
  predicate Neutral<T>(f: Fpu<T>, op: Op) {
    match op.kind
    case 0 => true
    case 1 => f.eq(f.of(op.scalar), f.zero)
    case 2 => f.eq(f.of(op.scalar), f.zero)
    case 4 => f.eq(f.of(op.scalar), f.one)
    case _ => false
  }

  /** The invariant is needed: on a buffer that is not rounded, dropping a
      scale by one changes the result. */
  lemma UnroundedBufferBreaksFolding<T(!new)>(f: Fpu<T>, x: T, one: U64)
    requires Lawful(f) && f.eq(f.of(one), f.one) && f.f32(x) != x
    ensures var ops := [Op(SCALE, one, 0)];
            RunOps(f, Kept(f, ops), F32, [x]) != RunOps(f, ops, F32, [x])
  {
    var op := Op(SCALE, one, 0);
    assert [op][..0] == [] && [op][1..] == [];
    assert StepOp(f, op, F32, [x])[0] == f.f32(x);
    assert RunOps(f, [op], F32, [x]) == StepOp(f, op, F32, [x]);
  }
}
