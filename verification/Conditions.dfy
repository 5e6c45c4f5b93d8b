/** When compilation succeeds and what it costs, said of the tree alone: typing, the range of
    field offsets and jump targets, the number of slots and the number of registers. */
module Conditions {
  import opened Words
  import opened Common
  import opened Bytecode
  import opened Registry
  import opened Ast
  import opened Allocator
  import opened CodeGen

  /** The type of an operand; an unknown name counts as an integer. */
  function TypeOf(q: Qualifiers, e: Expr): ValueType {
    match e
    case Ident(n) => if n in q then QualifierType(q[n].ty) else VInt
    case Integer(_) => VInt
    case Bits(_, _, _) => VInt
    case Ipv4(_) => VIpv4
    case Ipv6(_) => VIpv6
    case _ => VBool
  }

  /** An operand of an IPv6 comparison: a field or a literal, never a computed value. */
  predicate Ipv6Operand(q: Qualifiers, e: Expr) {
    match e
    case Ident(n) => n in q && q[n].ty == Ipv6T
    case Ipv6(a) => a.Some?
    case _ => false
  }

  predicate WellTyped(q: Qualifiers, e: Expr)
    decreases Nodes(e), 0
  {
    match e
    case Null => false
    case Ident(n) => n in q && q[n].ty != Ipv6T
    case Integer(_) => true
    case Boolean(_) => true
    case Ipv4(a) => a.Some?
    case Ipv6(_) => false
    case Not(x) => Logical(q, x)
    case And(l, r) => Logical(q, l) && Logical(q, r)
    case Or(l, r) => Logical(q, l) && Logical(q, r)
    case Bits(_, l, r) => WellTyped(q, l) && WellTyped(q, r) && TypeOf(q, l) == VInt == TypeOf(q, r)
    case Compare(op, l, r) =>
      if TypeOf(q, l) == VIpv6 || TypeOf(q, r) == VIpv6 then
        Ipv6Operand(q, l) && Ipv6Operand(q, r) && (op == Eq || op == Ne)
      else
        && WellTyped(q, l) && WellTyped(q, r)
        && (TypeOf(q, l) == VIpv4 || TypeOf(q, r) == VIpv4 ==>
              TypeOf(q, l) == TypeOf(q, r) && (op == Eq || op == Ne))
  }

  /** A well-typed operand with a truth value: a boolean or an integer. */
  predicate Logical(q: Qualifiers, e: Expr)
    decreases Nodes(e), 1
  {
    WellTyped(q, e) && !IsIp(TypeOf(q, e))
  }

  /** The number of slots of an IPv6 operand. */
  function Ipv6Size(e: Expr): nat {
    if e.Ipv6? then 4 else 2
  }

  /** The number of slots of an expression's code. */
  function Size(q: Qualifiers, e: Expr): nat
    decreases Nodes(e), 0
  {
    match e
    case Ident(_) => 1
    case Not(x) => SizeBool(q, x) + 1
    case And(l, r) => SizeBool(q, l) + SizeBool(q, r) + 5
    case Or(l, r) => SizeBool(q, l) + SizeBool(q, r) + 5
    case Bits(_, l, r) => Size(q, l) + Size(q, r) + 1
    case Compare(op, l, r) =>
      if TypeOf(q, l) == VIpv6 then Ipv6Size(l) + Ipv6Size(r) + (if op == Eq then 3 else 4)
      else Size(q, l) + Size(q, r) + (if TypeOf(q, l) == TypeOf(q, r) then 1 else 4)
    case _ => 2
  }

  function SizeBool(q: Qualifiers, e: Expr): nat
    decreases Nodes(e), 1
  {
    Size(q, e) + if TypeOf(q, e) == VInt then 3 else 0
  }

  /** The number of registers an expression needs beside those live before it. */
  function Need(q: Qualifiers, e: Expr): nat
    decreases Nodes(e), 0
  {
    match e
    case Not(x) => Max(NeedBool(q, x), 2)
    case And(l, r) => Max(NeedBool(q, l), 1 + NeedBool(q, r))
    case Or(l, r) => Max(NeedBool(q, l), 1 + NeedBool(q, r))
    case Bits(_, l, r) => Max(Max(Need(q, l), 1 + Need(q, r)), 3)
    case Compare(_, l, r) =>
      if TypeOf(q, l) == VIpv6 then 5
      else Max(Max(Need(q, l), 1 + Need(q, r)), if TypeOf(q, l) == TypeOf(q, r) then 3 else 4)
    case _ => 1
  }

  /** The same with the coercion to a truth value. */
  function NeedBool(q: Qualifiers, e: Expr): nat
    decreases Nodes(e), 1
  {
    if TypeOf(q, e) == VInt then Max(Need(q, e), 3) else Need(q, e)
  }

  /** The offsets an IPv6 operand loads fit the signed 32-bit payload of an instruction. */
  predicate Ipv6OffsetFits(q: Qualifiers, e: Expr) {
    e.Ident? && e.name in q ==> FitsI32(q[e.name].offset + 8)
  }

  /** So does every other field offset. */
  predicate OffsetsFit(q: Qualifiers, e: Expr) {
    match e
    case Ident(n) => n in q ==> FitsI32(q[n].offset)
    case Not(x) => OffsetsFit(q, x)
    case And(l, r) => OffsetsFit(q, l) && OffsetsFit(q, r)
    case Or(l, r) => OffsetsFit(q, l) && OffsetsFit(q, r)
    case Bits(_, l, r) => OffsetsFit(q, l) && OffsetsFit(q, r)
    case Compare(_, l, r) =>
      if TypeOf(q, l) == VIpv6 then Ipv6OffsetFits(q, l) && Ipv6OffsetFits(q, r)
      else OffsetsFit(q, l) && OffsetsFit(q, r)
    case _ => true
  }

  /** Every jump target of the code placed at `pos` is a signed 32-bit number. The furthest
      target of a logical operator is the slot after its code. */
  predicate JumpsFit(q: Qualifiers, e: Expr, pos: nat)
    decreases Nodes(e)
  {
    match e
    case Not(x) => JumpsFit(q, x, pos)
    case And(l, r) =>
      JumpsFit(q, l, pos) && JumpsFit(q, r, pos + SizeBool(q, l) + 1) && FitsI32(pos + Size(q, e))
    case Or(l, r) =>
      JumpsFit(q, l, pos) && JumpsFit(q, r, pos + SizeBool(q, l) + 4) && FitsI32(pos + Size(q, e))
    case Bits(_, l, r) => JumpsFit(q, l, pos) && JumpsFit(q, r, pos + Size(q, l))
    case Compare(_, l, r) =>
      if TypeOf(q, l) == VIpv6 then true else JumpsFit(q, l, pos) && JumpsFit(q, r, pos + Size(q, l))
    case _ => true
  }

  predicate Compilable(q: Qualifiers, e: Expr, pos: nat) {
    WellTyped(q, e) && OffsetsFit(q, e) && JumpsFit(q, e, pos)
  }

  predicate Fits(ra: Alloc, need: nat) {
    LiveCount(ra) + need <= MAX_REGISTER_COUNT
  }

  /** One more live register, and a high-water mark of exactly `need` above the live ones. */
  ghost predicate Uses(before: Alloc, dst: byte, after: Alloc, need: nat) {
    AddsOne(before, after, dst) && after.next == Max(before.next, LiveCount(before) + need)
  }

  /** The result `r` is a success exactly under `cond` and the register limit, and then has
      the stated register need, type and length. */
  ghost predicate Meets(r: Result<Frag>, cond: bool, ra: Alloc, need: nat, ty: ValueType, size: nat) {
    && (r.Ok? <==> cond && Fits(ra, need))
    && (r.Ok? ==>
          && ValidAlloc(r.value.ra) && LiveCount(r.value.ra) == LiveCount(ra) + 1
          && Uses(ra, r.value.dst, r.value.ra, need) && r.value.ty == ty && |r.value.code| == size)
  }

  // ----- the conditions of a tree from those of its parts -----

  lemma NotConditions(q: Qualifiers, x: Expr, pos: nat)
    ensures var e := Not(x);
      && (Compilable(q, e, pos) <==> Compilable(q, x, pos) && !IsIp(TypeOf(q, x)))
      && Need(q, e) == Max(NeedBool(q, x), 2) && Size(q, e) == SizeBool(q, x) + 1
  {
    hide WellTyped, OffsetsFit, JumpsFit, TypeOf, IsIp;
    NotTyped(q, x);
    NotRanges(q, x, pos);
  }

  lemma NotTyped(q: Qualifiers, x: Expr)
    ensures WellTyped(q, Not(x)) <==> WellTyped(q, x) && !IsIp(TypeOf(q, x))
  {
    hide TypeOf, IsIp;
  }

  lemma NotRanges(q: Qualifiers, x: Expr, pos: nat)
    ensures OffsetsFit(q, Not(x)) <==> OffsetsFit(q, x)
    ensures JumpsFit(q, Not(x), pos) <==> JumpsFit(q, x, pos)
  {
    hide TypeOf, Size, SizeBool;
  }

  lemma AndConditions(q: Qualifiers, l: Expr, r: Expr, pos: nat)
    ensures var e := And(l, r);
      && (Compilable(q, e, pos) <==>
            && Compilable(q, l, pos) && !IsIp(TypeOf(q, l))
            && Compilable(q, r, pos + SizeBool(q, l) + 1) && !IsIp(TypeOf(q, r))
            && FitsI32(pos + Size(q, e)))
      && Need(q, e) == Max(NeedBool(q, l), 1 + NeedBool(q, r))
      && Size(q, e) == SizeBool(q, l) + SizeBool(q, r) + 5
  {
    hide JumpsFit, WellTyped, TypeOf, IsIp;
    AndJumps(q, l, r, pos);
    AndTyped(q, l, r);
  }

  lemma AndTyped(q: Qualifiers, l: Expr, r: Expr)
    ensures WellTyped(q, And(l, r)) <==>
            WellTyped(q, l) && !IsIp(TypeOf(q, l)) && WellTyped(q, r) && !IsIp(TypeOf(q, r))
  {
    hide TypeOf, IsIp;
  }

  lemma AndJumps(q: Qualifiers, l: Expr, r: Expr, pos: nat)
    ensures JumpsFit(q, And(l, r), pos) <==>
            && JumpsFit(q, l, pos) && JumpsFit(q, r, pos + SizeBool(q, l) + 1)
            && FitsI32(pos + Size(q, And(l, r)))
  {
    hide Size, SizeBool, TypeOf;
  }

  lemma OrConditions(q: Qualifiers, l: Expr, r: Expr, pos: nat)
    ensures var e := Or(l, r);
      && (Compilable(q, e, pos) <==>
            && Compilable(q, l, pos) && !IsIp(TypeOf(q, l))
            && Compilable(q, r, pos + SizeBool(q, l) + 4) && !IsIp(TypeOf(q, r))
            && FitsI32(pos + Size(q, e)))
      && Need(q, e) == Max(NeedBool(q, l), 1 + NeedBool(q, r))
      && Size(q, e) == SizeBool(q, l) + SizeBool(q, r) + 5
  {
    hide JumpsFit, WellTyped, TypeOf, IsIp;
    OrJumps(q, l, r, pos);
    OrTyped(q, l, r);
  }

  lemma OrTyped(q: Qualifiers, l: Expr, r: Expr)
    ensures WellTyped(q, Or(l, r)) <==>
            WellTyped(q, l) && !IsIp(TypeOf(q, l)) && WellTyped(q, r) && !IsIp(TypeOf(q, r))
  {
    hide TypeOf, IsIp;
  }

  lemma OrJumps(q: Qualifiers, l: Expr, r: Expr, pos: nat)
    ensures JumpsFit(q, Or(l, r), pos) <==>
            && JumpsFit(q, l, pos) && JumpsFit(q, r, pos + SizeBool(q, l) + 4)
            && FitsI32(pos + Size(q, Or(l, r)))
  {
    hide Size, SizeBool, TypeOf;
  }

  lemma BitsConditions(q: Qualifiers, op: BitOp, l: Expr, r: Expr, pos: nat)
    ensures var e := Bits(op, l, r);
      && (Compilable(q, e, pos) <==>
            && Compilable(q, l, pos) && TypeOf(q, l) == VInt
            && Compilable(q, r, pos + Size(q, l)) && TypeOf(q, r) == VInt)
      && Need(q, e) == Max(Max(Need(q, l), 1 + Need(q, r)), 3) && Size(q, e) == Size(q, l) + Size(q, r) + 1
  {
    hide JumpsFit, WellTyped, TypeOf, Need, Size, Max;
    BinaryJumps(q, Bits(op, l, r), pos);
    BitsTyped(q, op, l, r);
    BitsCost(q, op, l, r);
  }

  lemma BitsCost(q: Qualifiers, op: BitOp, l: Expr, r: Expr)
    ensures Need(q, Bits(op, l, r)) == Max(Max(Need(q, l), 1 + Need(q, r)), 3)
    ensures Size(q, Bits(op, l, r)) == Size(q, l) + Size(q, r) + 1
  {
    hide TypeOf, Max;
  }

  lemma BitsTyped(q: Qualifiers, op: BitOp, l: Expr, r: Expr)
    ensures WellTyped(q, Bits(op, l, r)) <==>
            WellTyped(q, l) && WellTyped(q, r) && TypeOf(q, l) == VInt == TypeOf(q, r)
  {
    hide TypeOf;
  }

  lemma BitsAreIntegers(q: Qualifiers, op: BitOp, l: Expr, r: Expr)
    ensures TypeOf(q, Bits(op, l, r)) == VInt
  {
  }

  lemma BinaryJumps(q: Qualifiers, e: Expr, pos: nat)
    requires e.Bits? || (e.Compare? && TypeOf(q, e.left) != VIpv6)
    ensures JumpsFit(q, e, pos) <==> JumpsFit(q, e.left, pos) && JumpsFit(q, e.right, pos + Size(q, e.left))
  {
    hide Size, SizeBool, TypeOf;
  }

  lemma CompareConditions(q: Qualifiers, op: CmpOp, l: Expr, r: Expr, pos: nat)
    requires TypeOf(q, l) != VIpv6 && TypeOf(q, r) != VIpv6
    ensures var e, lt, rt := Compare(op, l, r), TypeOf(q, l), TypeOf(q, r);
        && (Compilable(q, e, pos) <==>
              && Compilable(q, l, pos) && Compilable(q, r, pos + Size(q, l))
              && (IsIp(lt) || IsIp(rt) ==> lt == rt && (op == Eq || op == Ne)))
        && Need(q, e) == Max(Max(Need(q, l), 1 + Need(q, r)), if lt == rt then 3 else 4)
        && Size(q, e) == Size(q, l) + Size(q, r) + if lt == rt then 1 else 4
  {
    hide Compilable, TypeOf, Need, Size, IsIp;
    CompareCompilable(q, op, l, r, pos);
    CompareCost(q, op, l, r);
  }

  lemma CompareCompilable(q: Qualifiers, op: CmpOp, l: Expr, r: Expr, pos: nat)
    requires TypeOf(q, l) != VIpv6 && TypeOf(q, r) != VIpv6
    ensures var lt, rt := TypeOf(q, l), TypeOf(q, r);
      Compilable(q, Compare(op, l, r), pos) <==>
        && Compilable(q, l, pos) && Compilable(q, r, pos + Size(q, l))
        && (IsIp(lt) || IsIp(rt) ==> lt == rt && (op == Eq || op == Ne))
  {
    hide JumpsFit, WellTyped, OffsetsFit, TypeOf, Size, IsIp;
    BinaryJumps(q, Compare(op, l, r), pos);
    CompareTyped(q, op, l, r);
    CompareOffsets(q, op, l, r);
  }

  lemma CompareCost(q: Qualifiers, op: CmpOp, l: Expr, r: Expr)
    requires TypeOf(q, l) != VIpv6
    ensures Need(q, Compare(op, l, r)) ==
            Max(Max(Need(q, l), 1 + Need(q, r)), if TypeOf(q, l) == TypeOf(q, r) then 3 else 4)
    ensures Size(q, Compare(op, l, r)) == Size(q, l) + Size(q, r) + if TypeOf(q, l) == TypeOf(q, r) then 1 else 4
  {
    hide TypeOf, Max;
  }

  lemma CompareTyped(q: Qualifiers, op: CmpOp, l: Expr, r: Expr)
    requires TypeOf(q, l) != VIpv6 && TypeOf(q, r) != VIpv6
    ensures WellTyped(q, Compare(op, l, r)) <==>
            && WellTyped(q, l) && WellTyped(q, r)
            && (IsIp(TypeOf(q, l)) || IsIp(TypeOf(q, r)) ==> TypeOf(q, l) == TypeOf(q, r) && (op == Eq || op == Ne))
  {
    hide TypeOf, Ipv6Operand;
  }

  lemma CompareOffsets(q: Qualifiers, op: CmpOp, l: Expr, r: Expr)
    requires TypeOf(q, l) != VIpv6
    ensures OffsetsFit(q, Compare(op, l, r)) <==> OffsetsFit(q, l) && OffsetsFit(q, r)
  {
    hide TypeOf, Ipv6OffsetFits;
  }

  lemma Ipv6CompareConditions(q: Qualifiers, op: CmpOp, l: Expr, r: Expr, pos: nat)
    requires TypeOf(q, l) == VIpv6 || TypeOf(q, r) == VIpv6
    ensures var e := Compare(op, l, r);
        && (Compilable(q, e, pos) <==>
              && TypeOf(q, l) == TypeOf(q, r) && Ipv6Operand(q, l) && Ipv6Operand(q, r) && (op == Eq || op == Ne)
              && Ipv6OffsetFits(q, l) && Ipv6OffsetFits(q, r))
        && (TypeOf(q, l) == VIpv6 ==>
              Need(q, e) == 5 && Size(q, e) == Ipv6Size(l) + Ipv6Size(r) + if op == Eq then 3 else 4)
  {
  }

  // ----- the pieces -----

  lemma ImmShape(value: int64, ty: ValueType, ra: Alloc)
    requires ValidAlloc(ra)
    ensures Meets(GenImm(value, ty, ra), true, ra, 1, ty, 2)
  {
    TakeAddsOne(ra);
  }

  lemma LoadShape(offset: uint32, size: byte, sign: byte, ty: ValueType, ra: Alloc)
    requires ValidAlloc(ra)
    ensures Meets(GenLoad(offset, size, sign, ty, ra), FitsI32(offset), ra, 1, ty, 1)
  {
    TakeAddsOne(ra);
  }

  /** `after` has `now` in place of `was` and the same number of live registers. */
  ghost predicate Replaces(before: Alloc, after: Alloc, was: byte, now: byte) {
    && ValidAlloc(after)
    && (now == was || !Live(before, now))
    && (forall x :: Live(after, x) <==> (Live(before, x) && x != was) || x == now)
    && LiveCount(after) == LiveCount(before)
  }

  lemma NegateShape(a: byte, ra: Alloc)
    requires ValidAlloc(ra) && Live(ra, a)
    ensures var r := GenNegate(a, ra);
      && (r.Ok? <==> Fits(ra, 1))
      && (r.Ok? ==>
            Replaces(ra, r.value.ra, a, r.value.dst) && r.value.ra.next == Max(ra.next, LiveCount(ra) + 1))
  {
    TakeAddsOne(ra);
    if CanTake(ra) {
      GiveRemovesOne(Take(ra), a);
    }
  }

  /** `after` has `d` in place of `a` and `b`. */
  ghost predicate Merges(before: Alloc, after: Alloc, a: byte, b: byte, d: byte) {
    && ValidAlloc(after)
    && !Live(before, d)
    && (forall x :: Live(after, x) <==> (Live(before, x) && x != a && x != b) || x == d)
    && LiveCount(after) == LiveCount(before) - 1
  }

  lemma BinarySize(op: byte, ty: ValueType, a: byte, b: byte, ra: Alloc)
    requires GenBinary(op, ty, a, b, ra).Ok?
    ensures var f := GenBinary(op, ty, a, b, ra).value; |f.code| == 1 && f.ty == ty && ra.next <= f.ra.next
  {
  }

  lemma BinaryShape(op: byte, ty: ValueType, a: byte, b: byte, ra: Alloc)
    requires ValidAlloc(ra) && Live(ra, a) && Live(ra, b) && a != b
    ensures var r := GenBinary(op, ty, a, b, ra);
      && (r.Ok? <==> Fits(ra, 1))
      && (r.Ok? ==>
            Merges(ra, r.value.ra, a, b, r.value.dst) && r.value.ra.next == Max(ra.next, LiveCount(ra) + 1))
  {
    TakeAddsOne(ra);
    if CanTake(ra) {
      GiveRemovesOne(Take(ra), a);
      GiveRemovesOne(Give(Take(ra), a), b);
    }
  }

  lemma EnsureBoolShape(v: byte, ty: ValueType, ra: Alloc)
    requires ValidAlloc(ra) && Live(ra, v)
    ensures var r := EnsureBool(v, ty, ra);
      var need := if ty == VInt then 2 else 0;
      && (r.Ok? <==> !IsIp(ty) && Fits(ra, need))
      && (r.Ok? ==>
            && Replaces(ra, r.value.ra, v, r.value.dst)
            && r.value.ra.next == Max(ra.next, LiveCount(ra) + need)
            && r.value.ty == VBool && |r.value.code| == if ty == VInt then 3 else 0)
  {
    LiveBound(ra);
    if ty == VInt {
      ImmShape(0, VInt, ra);
      var z := GenImm(0, VInt, ra);
      if z.Ok? {
        BinaryShape(CMP_NE, VBool, v, z.value.dst, z.value.ra);
      }
    }
  }

  /** The live registers fit below the high-water mark. */
  lemma LiveBound(ra: Alloc)
    requires ValidAlloc(ra)
    ensures 0 <= LiveCount(ra) <= ra.next <= MAX_REGISTER_COUNT
  {
    FreeBound(ra);
  }

  /** A value followed by a replacement of its register. */
  lemma UsesReplace(ra: Alloc, f: Frag, g: Frag, need: nat, more: nat)
    requires ValidAlloc(ra) && Uses(ra, f.dst, f.ra, need) && Replaces(f.ra, g.ra, f.dst, g.dst)
    requires g.ra.next == Max(f.ra.next, LiveCount(f.ra) + more)
    ensures Uses(ra, g.dst, g.ra, Max(need, 1 + more)) && LiveCount(g.ra) == LiveCount(ra) + 1
  {
  }

  // ----- IPv6 operands -----

  ghost predicate AddsTwo(ra: Alloc, p: Pair) {
    && ValidAlloc(p.ra)
    && p.hi != p.lo && !Live(ra, p.hi) && !Live(ra, p.lo)
    && (forall x :: Live(p.ra, x) <==> Live(ra, x) || x == p.hi || x == p.lo)
    && LiveCount(p.ra) == LiveCount(ra) + 2
    && p.ra.next == Max(ra.next, LiveCount(ra) + 2)
  }

  lemma Ipv6IdentShape(q: Qualifiers, name: string, ra: Alloc)
    requires ValidAlloc(ra) && name in q && q[name].ty == Ipv6T
    ensures var r := GenIpv6Ident(q, name, ra);
      && (r.Ok? <==> FitsI32(q[name].offset + 8) && Fits(ra, 2))
      && (r.Ok? ==> AddsTwo(ra, r.value) && |r.value.code| == 2)
  {
    var offset := q[name].offset;
    LoadShape(offset, 8, 0, VInt, ra);
    var hi := GenLoad(offset, 8, 0, VInt, ra);
    if hi.Ok? {
      assert (offset + 8) % 0x1_0000_0000 == offset + 8;
      LoadShape(offset + 8, 8, 0, VInt, hi.value.ra);
    }
  }

  lemma Ipv6LiteralShape(addr: Bytes16, ra: Alloc)
    requires ValidAlloc(ra)
    ensures var r := GenIpv6Literal(Some(addr), ra);
      && (r.Ok? <==> Fits(ra, 2))
      && (r.Ok? ==> AddsTwo(ra, r.value) && |r.value.code| == 4)
  {
    var hiWord, loWord := ToI64(Word64(addr[..8])), ToI64(Word64(addr[8..]));
    ImmShape(hiWord, VInt, ra);
    var hi := GenImm(hiWord, VInt, ra);
    if hi.Ok? {
      ImmShape(loWord, VInt, hi.value.ra);
    }
  }

  lemma Ipv6ValueShape(q: Qualifiers, e: Expr, ra: Alloc)
    requires ValidAlloc(ra)
    ensures var r := GenIpv6Value(q, e, ra);
      && (r.Ok? <==> Ipv6Operand(q, e) && Ipv6OffsetFits(q, e) && Fits(ra, 2))
      && (r.Ok? ==> AddsTwo(ra, r.value) && |r.value.code| == Ipv6Size(e))
  {
    if Ipv6Operand(q, e) {
      match e
      case Ident(n) => Ipv6IdentShape(q, n, ra);
      case Ipv6(a) => Ipv6LiteralShape(a.value, ra);
    }
  }

  /** Two pairs, three comparisons of registers and the negation of `!=`: five registers. */
  lemma Ipv6CompareShape(q: Qualifiers, op: CmpOp, l: Expr, r: Expr, ra: Alloc)
    requires ValidAlloc(ra)
    ensures Meets(GenIpv6Compare(q, op, l, r, ra),
                  Ipv6Operand(q, l) && Ipv6Operand(q, r) && Ipv6OffsetFits(q, l) && Ipv6OffsetFits(q, r),
                  ra, 5, VBool, Ipv6Size(l) + Ipv6Size(r) + if op == Eq then 3 else 4)
  {
    LiveBound(ra);
    Ipv6ValueShape(q, l, ra);
    var lp := GenIpv6Value(q, l, ra);
    if lp.Ok? {
      Ipv6ValueShape(q, r, lp.value.ra);
      var rp := GenIpv6Value(q, r, lp.value.ra);
      if rp.Ok? {
        HalvesShape(lp.value, rp.value, ra);
        var h := GenHalves(lp.value, rp.value);
        if h.Ok? {
          BothShape(op, h.value, ra);
        }
      }
    }
  }

  /** One pair of live registers in place of two. */
  ghost predicate LeavesTwo(ra: Alloc, p: Pair) {
    && ValidAlloc(p.ra)
    && p.hi != p.lo && !Live(ra, p.hi) && !Live(ra, p.lo)
    && (forall x :: Live(p.ra, x) <==> Live(ra, x) || x == p.hi || x == p.lo)
    && LiveCount(p.ra) == LiveCount(ra) + 2
    && p.ra.next == Max(ra.next, LiveCount(ra) + 5)
  }

  /** Two pairs of live registers, of which the high halves are merged. */
  ghost predicate LeavesThree(ra: Alloc, d: byte, a: byte, b: byte, after: Alloc) {
    && ValidAlloc(after)
    && d != a && d != b && a != b && !Live(ra, d) && !Live(ra, a) && !Live(ra, b)
    && (forall x :: Live(after, x) <==> Live(ra, x) || x == d || x == a || x == b)
    && LiveCount(after) == LiveCount(ra) + 3
    && after.next == Max(ra.next, LiveCount(ra) + 5)
  }

  lemma HighShape(l: Pair, r: Pair, ra: Alloc)
    requires ValidAlloc(ra) && AddsTwo(ra, l) && AddsTwo(l.ra, r)
    ensures var hi := GenBinary(CMP_EQ, VBool, l.hi, r.hi, r.ra);
      && (hi.Ok? <==> Fits(ra, 5))
      && (hi.Ok? ==> LeavesThree(ra, hi.value.dst, l.lo, r.lo, hi.value.ra))
  {
    hide GenBinary;
    BinaryShape(CMP_EQ, VBool, l.hi, r.hi, r.ra);
  }

  lemma LowShape(hi: byte, a: byte, b: byte, mid: Alloc, ra: Alloc)
    requires ValidAlloc(ra) && LeavesThree(ra, hi, a, b, mid)
    ensures var lo := GenBinary(CMP_EQ, VBool, a, b, mid);
      lo.Ok? && LeavesTwo(ra, Pair([], hi, lo.value.dst, lo.value.ra))
  {
    hide GenBinary;
    LiveBound(mid);
    BinaryShape(CMP_EQ, VBool, a, b, mid);
  }

  lemma HalvesShape(l: Pair, r: Pair, ra: Alloc)
    requires ValidAlloc(ra) && AddsTwo(ra, l) && AddsTwo(l.ra, r)
    ensures var h := GenHalves(l, r);
      && (h.Ok? <==> Fits(ra, 5))
      && (h.Ok? ==> LeavesTwo(ra, h.value) && |h.value.code| == 2)
  {
    hide AddsTwo, LeavesThree, Live, ValidAlloc, LiveCount, TakeReg;
    HighShape(l, r, ra);
    var hi := GenBinary(CMP_EQ, VBool, l.hi, r.hi, r.ra);
    if hi.Ok? {
      LowShape(hi.value.dst, l.lo, r.lo, hi.value.ra, ra);
    }
  }

  lemma BothShape(op: CmpOp, p: Pair, ra: Alloc)
    requires ValidAlloc(ra) && LeavesTwo(ra, p)
    ensures var t := GenBoth(op, p);
      && (t.Ok? <==> Fits(ra, 5))
      && (t.Ok? ==>
            && Uses(ra, t.value.dst, t.value.ra, 5) && t.value.ty == VBool
            && |t.value.code| == if op == Eq then 1 else 2)
  {
    LiveBound(p.ra);
    BinaryShape(AND, VBool, p.hi, p.lo, p.ra);
    var both := GenBinary(AND, VBool, p.hi, p.lo, p.ra);
    if both.Ok? {
      NegateShape(both.value.dst, both.value.ra);
    }
  }

  // ----- expressions -----

  /** The main result of this module: exactly when code is generated for a tree placed at
      `pos`, and the exact register need, type and length of that code. */
  lemma {:induction false} GenShape(q: Qualifiers, e: Expr, pos: nat, ra: Alloc)
    requires ValidAlloc(ra)
    ensures Meets(Gen(q, e, pos, ra), Compilable(q, e, pos), ra, Need(q, e), TypeOf(q, e), Size(q, e))
    decreases Nodes(e), 0
  {
    match e
    case Null =>
    case Ident(n) =>
      if WellTyped(q, e) {
        LoadShape(q[n].offset, q[n].size, if IsSigned(q[n].ty) then 1 else 0, QualifierType(q[n].ty), ra);
      }
    case Integer(v) => ImmShape(v, VInt, ra);
    case Boolean(b) => ImmShape(Truth(b), VBool, ra);
    case Ipv4(a) =>
      if a.Some? {
        LEBound(a.value); Pow256Values();
        ImmShape(LE(a.value), VIpv4, ra);
      }
    case Ipv6(_) =>
    case Not(x) => NotShape(q, x, pos, ra);
    case And(l, r) => AndShape(q, l, r, pos, ra);
    case Or(l, r) => OrShape(q, l, r, pos, ra);
    case Compare(op, l, r) => CompareShape(q, op, l, r, pos, ra);
    case Bits(op, l, r) => BitsShape(q, op, l, r, pos, ra);
  }

  lemma {:induction false} GenBoolShape(q: Qualifiers, e: Expr, pos: nat, ra: Alloc)
    requires ValidAlloc(ra)
    ensures Meets(GenBool(q, e, pos, ra), Compilable(q, e, pos) && !IsIp(TypeOf(q, e)), ra,
                  NeedBool(q, e), VBool, SizeBool(q, e))
    decreases Nodes(e), 1
  {
    hide Compilable, TypeOf, Need, Size, Gen, EnsureBool, AddsOne, Live, ValidAlloc, LiveCount;
    NeedAtLeastOne(q, e);
    GenShape(q, e, pos, ra);
    var f := Gen(q, e, pos, ra);
    if f.Ok? {
      AddedIsLive(ra, f.value, Need(q, e));
      EnsureBoolShape(f.value.dst, f.value.ty, f.value.ra);
      var g := EnsureBool(f.value.dst, f.value.ty, f.value.ra);
      if g.Ok? {
        UsesReplace(ra, f.value, g.value, Need(q, e), if f.value.ty == VInt then 2 else 0);
      }
    }
  }

  lemma AddedIsLive(ra: Alloc, f: Frag, need: nat)
    requires Uses(ra, f.dst, f.ra, need)
    ensures Live(f.ra, f.dst)
  {
  }

  lemma {:induction false} NotShape(q: Qualifiers, x: Expr, pos: nat, ra: Alloc)
    requires ValidAlloc(ra)
    ensures var e := Not(x);
      Meets(GenNot(q, x, pos, ra), Compilable(q, e, pos), ra, Need(q, e), VBool, Size(q, e))
    decreases Nodes(x), 2
  {
    hide Compilable, TypeOf, Need, NeedBool, Size, SizeBool, GenBool, AddsOne, Live, ValidAlloc, LiveCount;
    NotConditions(q, x, pos);
    NeedAtLeastOne(q, x);
    GenBoolShape(q, x, pos, ra);
    var f := GenBool(q, x, pos, ra);
    if f.Ok? {
      AddedIsLive(ra, f.value, NeedBool(q, x));
      NegateShape(f.value.dst, f.value.ra);
      var g := GenNegate(f.value.dst, f.value.ra);
      if g.Ok? {
        UsesReplace(ra, f.value, g.value, NeedBool(q, x), 1);
      }
    }
  }

  /** The state after the left operand of `&&` or `||`: its register is released and the
      result register `d` stays live across the right operand. */
  lemma ResultRegister(ra: Alloc, f: Frag, need: nat)
    requires ValidAlloc(ra) && Uses(ra, f.dst, f.ra, need)
    ensures var t := TakeReg(f.ra);
      && (t.Ok? <==> Fits(ra, 2))
      && (t.Ok? ==>
            var d, mid := t.value.0, Give(t.value.1, f.dst);
            ValidAlloc(mid) && LiveCount(mid) == LiveCount(ra) + 1 && Uses(ra, d, mid, Max(need, 2)))
  {
    TakeAddsOne(f.ra);
    if CanTake(f.ra) {
      GiveRemovesOne(Take(f.ra), f.dst);
    }
  }

  /** The state after the right operand: its register is released, `d` remains. */
  lemma AfterRight(ra: Alloc, d: byte, mid: Alloc, g: Frag, need: nat, right: nat)
    requires ValidAlloc(ra) && Uses(ra, d, mid, need) && Uses(mid, g.dst, g.ra, right)
    ensures var after := Give(g.ra, g.dst);
      ValidAlloc(after) && LiveCount(after) == LiveCount(ra) + 1 && Uses(ra, d, after, Max(need, 1 + right))
  {
    GiveRemovesOne(g.ra, g.dst);
  }

  lemma {:induction false} NeedAtLeastOne(q: Qualifiers, e: Expr)
    ensures Need(q, e) >= 1 && NeedBool(q, e) >= 1
    decreases Nodes(e)
  {
    match e
    case And(l, r) => NeedAtLeastOne(q, l);
    case Or(l, r) => NeedAtLeastOne(q, l);
    case _ =>
  }

  lemma AndFragShape(f: Frag, d: byte, g: Frag, pos: nat)
    ensures var a := AndFrag(f, d, g, pos);
      && (a.Ok? <==> FitsI32(pos + |f.code| + |g.code| + 5))
      && (a.Ok? ==>
            && a.value.dst == d && a.value.ty == VBool && a.value.ra == Give(g.ra, g.dst)
            && |a.value.code| == |f.code| + |g.code| + 5)
  {
    hide Ins, DataSlot, Give;
  }

  lemma OrFragShape(f: Frag, d: byte, g: Frag, pos: nat)
    ensures var a := OrFrag(f, d, g, pos);
      && (a.Ok? <==> FitsI32(pos + |f.code| + |g.code| + 5))
      && (a.Ok? ==>
            && a.value.dst == d && a.value.ty == VBool && a.value.ra == Give(g.ra, g.dst)
            && |a.value.code| == |f.code| + |g.code| + 5)
  {
    hide Ins, DataSlot, Give;
  }

  lemma {:induction false} AndShape(q: Qualifiers, l: Expr, r: Expr, pos: nat, ra: Alloc)
    requires ValidAlloc(ra)
    ensures var e := And(l, r);
      Meets(GenAnd(q, l, r, pos, ra), Compilable(q, e, pos), ra, Need(q, e), VBool, Size(q, e))
    decreases Nodes(l) + Nodes(r), 0
  {
    hide Compilable, TypeOf, Need, NeedBool, Size, SizeBool, GenBool;
    hide Uses, ValidAlloc, LiveCount, TakeReg, Give, AndFrag;
    AndConditions(q, l, r, pos);
    NeedAtLeastOne(q, r);
    GenBoolShape(q, l, pos, ra);
    var f := GenBool(q, l, pos, ra);
    if f.Ok? {
      ResultRegister(ra, f.value, NeedBool(q, l));
      var t := TakeReg(f.value.ra);
      if t.Ok? {
        var mid := Give(t.value.1, f.value.dst);
        var at := pos + |f.value.code| + 1;
        GenBoolShape(q, r, at, mid);
        var g := GenBool(q, r, at, mid);
        if g.Ok? {
          AndFragShape(f.value, t.value.0, g.value, pos);
          AfterRight(ra, t.value.0, mid, g.value, Max(NeedBool(q, l), 2), NeedBool(q, r));
        }
      }
    }
  }

  lemma {:induction false} OrShape(q: Qualifiers, l: Expr, r: Expr, pos: nat, ra: Alloc)
    requires ValidAlloc(ra)
    ensures var e := Or(l, r);
      Meets(GenOr(q, l, r, pos, ra), Compilable(q, e, pos), ra, Need(q, e), VBool, Size(q, e))
    decreases Nodes(l) + Nodes(r), 0
  {
    hide Compilable, TypeOf, Need, NeedBool, Size, SizeBool, GenBool;
    hide Uses, ValidAlloc, LiveCount, TakeReg, Give, OrFrag;
    OrConditions(q, l, r, pos);
    NeedAtLeastOne(q, r);
    GenBoolShape(q, l, pos, ra);
    var f := GenBool(q, l, pos, ra);
    if f.Ok? {
      ResultRegister(ra, f.value, NeedBool(q, l));
      var t := TakeReg(f.value.ra);
      if t.Ok? {
        var mid := Give(t.value.1, f.value.dst);
        var at := pos + |f.value.code| + 4;
        GenBoolShape(q, r, at, mid);
        var g := GenBool(q, r, at, mid);
        if g.Ok? {
          OrFragShape(f.value, t.value.0, g.value, pos);
          AfterRight(ra, t.value.0, mid, g.value, Max(NeedBool(q, l), 2), NeedBool(q, r));
        }
      }
    }
  }

  /** Exactly `a` and `b` are live above `ra`, with a high-water mark of `need`. */
  ghost predicate TwoLive(ra: Alloc, a: byte, b: byte, mid: Alloc, need: nat) {
    && ValidAlloc(mid) && a != b && !Live(ra, a) && !Live(ra, b)
    && (forall x :: Live(mid, x) <==> Live(ra, x) || x == a || x == b)
    && LiveCount(mid) == LiveCount(ra) + 2
    && mid.next == Max(ra.next, LiveCount(ra) + need)
  }

  /** Two values computed one after the other, as the operands of a binary operator. */
  lemma TwoOperands(ra: Alloc, f: Frag, g: Frag, n1: nat, n2: nat)
    requires ValidAlloc(ra) && Uses(ra, f.dst, f.ra, n1) && Uses(f.ra, g.dst, g.ra, n2)
    ensures TwoLive(ra, f.dst, g.dst, g.ra, Max(n1, 1 + n2))
  {
  }

  /** A binary instruction on two live registers above `ra`. */
  lemma BinaryUses(ra: Alloc, a: byte, b: byte, mid: Alloc, op: byte, ty: ValueType, need: nat)
    requires ValidAlloc(ra) && TwoLive(ra, a, b, mid, need)
    ensures Meets(GenBinary(op, ty, a, b, mid), true, ra, Max(need, 3), ty, 1)
  {
    hide GenBinary, TwoLive, Merges, Uses, ValidAlloc, LiveCount;
    TwoLiveCount(ra, a, b, mid, need);
    BinaryShape(op, ty, a, b, mid);
    var f := GenBinary(op, ty, a, b, mid);
    if f.Ok? {
      BinarySize(op, ty, a, b, mid);
      MergeUses(ra, a, b, mid, need, f.value.dst, f.value.ra);
    }
  }

  lemma TwoLiveCount(ra: Alloc, a: byte, b: byte, mid: Alloc, need: nat)
    requires TwoLive(ra, a, b, mid, need)
    ensures ValidAlloc(mid) && Live(mid, a) && Live(mid, b) && a != b && LiveCount(mid) == LiveCount(ra) + 2
    ensures Fits(ra, need)
  {
  }

  /** Merging the only two live registers above `ra` into one leaves one. */
  lemma MergeUses(ra: Alloc, a: byte, b: byte, mid: Alloc, need: nat, d: byte, after: Alloc)
    requires TwoLive(ra, a, b, mid, need) && Merges(mid, after, a, b, d)
    requires after.next == Max(mid.next, LiveCount(mid) + 1)
    ensures ValidAlloc(after) && LiveCount(after) == LiveCount(ra) + 1 && Uses(ra, d, after, Max(need, 3))
  {
    hide LiveCount, ValidAlloc;
  }

  lemma {:induction false} OperandsShape(q: Qualifiers, l: Expr, r: Expr, pos: nat, ra: Alloc)
    requires ValidAlloc(ra)
    ensures var o := GenOperands(q, l, r, pos, ra);
      var need := Max(Need(q, l), 1 + Need(q, r));
      && (o.Ok? <==> Compilable(q, l, pos) && Compilable(q, r, pos + Size(q, l)) && Fits(ra, need))
      && (o.Ok? ==>
            && ValidAlloc(o.value.ra) && TwoLive(ra, o.value.l, o.value.r, o.value.ra, need)
            && o.value.lt == TypeOf(q, l) && o.value.rt == TypeOf(q, r)
            && |o.value.code| == Size(q, l) + Size(q, r))
    decreases Nodes(l) + Nodes(r), 0
  {
    hide Compilable, TypeOf, Need, Size, Gen, Uses, TwoLive, LiveCount;
    GenShape(q, l, pos, ra);
    var f := Gen(q, l, pos, ra);
    if f.Ok? {
      GenShape(q, r, pos + |f.value.code|, f.value.ra);
      var g := Gen(q, r, pos + |f.value.code|, f.value.ra);
      if g.Ok? {
        TwoOperands(ra, f.value, g.value, Need(q, l), Need(q, r));
      }
    }
  }

  lemma {:induction false} BitsShape(q: Qualifiers, op: BitOp, l: Expr, r: Expr, pos: nat, ra: Alloc)
    requires ValidAlloc(ra)
    ensures var e := Bits(op, l, r);
      Meets(GenBits(q, op, l, r, pos, ra), Compilable(q, e, pos), ra, Need(q, e), VInt, Size(q, e))
    decreases Nodes(l) + Nodes(r), 1
  {
    hide Compilable, TypeOf, Need, Size, GenOperands, Uses, TwoLive, ValidAlloc, LiveCount, GenBinary;
    BitsConditions(q, op, l, r, pos);
    OperandsShape(q, l, r, pos, ra);
    var o := GenOperands(q, l, r, pos, ra);
    if o.Ok? {
      BinaryUses(ra, o.value.l, o.value.r, o.value.ra, BitCode(op), VInt, Max(Need(q, l), 1 + Need(q, r)));
    }
  }

  lemma SwapLive(ra: Alloc, a: byte, b: byte, mid: Alloc, need: nat)
    requires TwoLive(ra, a, b, mid, need)
    ensures TwoLive(ra, b, a, mid, need)
  {
  }

  lemma ReplaceLive(ra: Alloc, a: byte, b: byte, mid: Alloc, need: nat, c: byte, after: Alloc)
    requires TwoLive(ra, a, b, mid, need) && Replaces(mid, after, b, c)
    requires after.next == Max(mid.next, LiveCount(mid) + 2)
    ensures TwoLive(ra, a, c, after, Max(need, 4))
  {
  }

  /** The coercion of the right one of two live registers. */
  lemma CoerceOne(ra: Alloc, a: byte, b: byte, mid: Alloc, need: nat)
    requires ValidAlloc(ra) && TwoLive(ra, a, b, mid, need)
    ensures var g := EnsureBool(b, VInt, mid);
      && (g.Ok? <==> Fits(ra, 4))
      && (g.Ok? ==> TwoLive(ra, a, g.value.dst, g.value.ra, Max(need, 4)) && |g.value.code| == 3)
  {
    hide EnsureBool, Replaces;
    EnsureBoolShape(b, VInt, mid);
    var g := EnsureBool(b, VInt, mid);
    if g.Ok? {
      ReplaceLive(ra, a, b, mid, need, g.value.dst, g.value.ra);
    }
  }

  /** The coercion before a comparison: two live registers above `ra` stay two. */
  lemma CoerceShape(ra: Alloc, o: Operands, need: nat)
    requires ValidAlloc(ra) && TwoLive(ra, o.l, o.r, o.ra, need)
    requires IsIp(o.lt) || IsIp(o.rt) ==> o.lt == o.rt
    ensures var c := Coerce(o);
      && (c.Ok? <==> o.lt == o.rt || Fits(ra, 4))
      && (c.Ok? ==>
            && TwoLive(ra, c.value.hi, c.value.lo, c.value.ra, if o.lt == o.rt then need else Max(need, 4))
            && |c.value.code| == if o.lt == o.rt then 0 else 3)
  {
    hide TwoLive, EnsureBool, ValidAlloc, LiveCount;
    if o.lt == VBool && o.rt == VInt {
      CoerceOne(ra, o.l, o.r, o.ra, need);
    } else if o.lt == VInt && o.rt == VBool {
      SwapLive(ra, o.l, o.r, o.ra, need);
      CoerceOne(ra, o.r, o.l, o.ra, need);
      var g := EnsureBool(o.l, VInt, o.ra);
      if g.Ok? {
        SwapLive(ra, o.r, g.value.dst, g.value.ra, Max(need, 4));
      }
    }
  }

  lemma CompareTailShape(ra: Alloc, op: CmpOp, o: Operands, need: nat)
    requires ValidAlloc(ra) && TwoLive(ra, o.l, o.r, o.ra, need)
    requires IsIp(o.lt) || IsIp(o.rt) ==> o.lt == o.rt
    ensures Meets(CompareTail(op, o), true, ra, Max(need, if o.lt == o.rt then 3 else 4), VBool,
                  if o.lt == o.rt then 1 else 4)
  {
    hide TwoLive, Coerce, GenBinary, Uses, ValidAlloc, LiveCount;
    CoerceShape(ra, o, need);
    var c := Coerce(o);
    if c.Ok? {
      BinaryUses(ra, c.value.hi, c.value.lo, c.value.ra, CmpCode(op), VBool,
                 if o.lt == o.rt then need else Max(need, 4));
    }
  }

  lemma {:induction false} CompareShape(q: Qualifiers, op: CmpOp, l: Expr, r: Expr, pos: nat, ra: Alloc)
    requires ValidAlloc(ra)
    ensures var e := Compare(op, l, r);
      Meets(GenCompare(q, op, l, r, pos, ra), Compilable(q, e, pos), ra, Need(q, e), VBool, Size(q, e))
    decreases Nodes(l) + Nodes(r), 2
  {
    hide Compilable, TypeOf, Need, Size, Resolve, GenPlainCompare, GenIpv6Compare, Uses, ValidAlloc, LiveCount;
    hide Ipv6Operand, Ipv6OffsetFits, Ipv6Size;
    ResolveAgrees(q, l, pos);
    ResolveAgrees(q, r, pos + Size(q, l));
    var lt, rt := TypeOf(q, l), TypeOf(q, r);
    if lt == VIpv6 || rt == VIpv6 {
      Ipv6CompareConditions(q, op, l, r, pos);
      if lt == rt {
        Ipv6CompareShape(q, op, l, r, ra);
      }
    } else {
      CompareConditions(q, op, l, r, pos);
      PlainCompareShape(q, op, l, r, pos, ra);
    }
  }

  /** The type found before emission is the type the conditions speak of. */
  lemma ResolveAgrees(q: Qualifiers, e: Expr, pos: nat)
    ensures Resolve(q, e).Ok? ==> Resolve(q, e).value == TypeOf(q, e)
    ensures Resolve(q, e).Err? ==> !Compilable(q, e, pos) && !Ipv6Operand(q, e)
  {
  }

  lemma {:induction false} PlainCompareShape(q: Qualifiers, op: CmpOp, l: Expr, r: Expr, pos: nat, ra: Alloc)
    requires ValidAlloc(ra)
    ensures var e, lt, rt := Compare(op, l, r), TypeOf(q, l), TypeOf(q, r);
      lt != VIpv6 && rt != VIpv6 && (IsIp(lt) || IsIp(rt) ==> lt == rt) ==>
        Meets(GenPlainCompare(q, op, l, r, pos, ra),
              Compilable(q, l, pos) && Compilable(q, r, pos + Size(q, l)), ra, Need(q, e), VBool, Size(q, e))
    decreases Nodes(l) + Nodes(r), 1
  {
    hide Compilable, TypeOf, Need, Size, GenOperands, Uses, TwoLive, ValidAlloc, LiveCount, CompareTail;
    var lt, rt := TypeOf(q, l), TypeOf(q, r);
    if lt != VIpv6 && rt != VIpv6 && (IsIp(lt) || IsIp(rt) ==> lt == rt) {
      CompareConditions(q, op, l, r, pos);
      OperandsShape(q, l, r, pos, ra);
      var o := GenOperands(q, l, r, pos, ra);
      if o.Ok? {
        CompareTailShape(ra, op, o.value, Max(Need(q, l), 1 + Need(q, r)));
      }
    }
  }

  // ----- the registers a step of the compiler relies on -----

  lemma OperandLive(q: Qualifiers, e: Expr, pos: nat, ra: Alloc)
    requires ValidAlloc(ra) && GenBool(q, e, pos, ra).Ok?
    ensures var f := GenBool(q, e, pos, ra).value; ValidAlloc(f.ra) && Live(f.ra, f.dst) && f.ty == VBool
  {
    hide GenBool, Compilable, NeedBool, SizeBool;
    GenBoolShape(q, e, pos, ra);
  }

  lemma ExprLive(q: Qualifiers, e: Expr, pos: nat, ra: Alloc)
    requires ValidAlloc(ra) && Gen(q, e, pos, ra).Ok?
    ensures var f := Gen(q, e, pos, ra).value; ValidAlloc(f.ra) && Live(f.ra, f.dst)
  {
    hide Gen, Compilable, Need, Size;
    GenShape(q, e, pos, ra);
  }

  lemma OperandsLive(q: Qualifiers, l: Expr, r: Expr, pos: nat, ra: Alloc)
    requires ValidAlloc(ra) && GenOperands(q, l, r, pos, ra).Ok?
    ensures var o := GenOperands(q, l, r, pos, ra).value;
      ValidAlloc(o.ra) && Live(o.ra, o.l) && Live(o.ra, o.r) && o.l != o.r
  {
    hide GenOperands, Compilable, Need, Size;
    OperandsShape(q, l, r, pos, ra);
  }

  lemma Ipv6OperandsLive(q: Qualifiers, l: Expr, r: Expr, ra: Alloc)
    requires ValidAlloc(ra) && GenIpv6Value(q, l, ra).Ok?
    requires GenIpv6Value(q, r, GenIpv6Value(q, l, ra).value.ra).Ok?
    ensures var lp := GenIpv6Value(q, l, ra).value;
      var rp := GenIpv6Value(q, r, lp.ra).value;
      && AddsTwo(ra, lp) && AddsTwo(lp.ra, rp)
      && (GenHalves(lp, rp).Ok? ==> LeavesTwo(ra, GenHalves(lp, rp).value))
  {
    hide GenIpv6Value, GenHalves, LeavesTwo;
    Ipv6ValueShape(q, l, ra);
    var lp := GenIpv6Value(q, l, ra).value;
    Ipv6ValueShape(q, r, lp.ra);
    HalvesShape(lp, GenIpv6Value(q, r, lp.ra).value, ra);
  }

  lemma CoerceLive(o: Operands)
    requires ValidAlloc(o.ra) && Live(o.ra, o.l) && Live(o.ra, o.r) && o.l != o.r
    ensures var c := Coerce(o);
      c.Ok? ==>
        && ValidAlloc(c.value.ra) && o.ra.next <= c.value.ra.next
        && Live(c.value.ra, c.value.hi) && Live(c.value.ra, c.value.lo) && c.value.hi != c.value.lo
  {
    hide EnsureBool, ValidAlloc;
    if o.lt == VBool && o.rt == VInt {
      EnsureBoolShape(o.r, VInt, o.ra);
    } else if o.lt == VInt && o.rt == VBool {
      EnsureBoolShape(o.l, VInt, o.ra);
    }
  }

  // ----- what later code may rely on -----

  /** A fragment's register is new, its allocator is valid and never shrinks. */
  ghost predicate Frames(ra: Alloc, f: Frag) {
    && ValidAlloc(f.ra) && ra.next <= f.ra.next && f.dst < f.ra.next
    && AddsOne(ra, f.ra, f.dst)
  }

  lemma UsesFrames(ra: Alloc, f: Frag, need: nat)
    requires Uses(ra, f.dst, f.ra, need)
    ensures Frames(ra, f)
  {
    assert Live(f.ra, f.dst);
  }

  lemma GenFrames(q: Qualifiers, e: Expr, pos: nat, ra: Alloc)
    requires ValidAlloc(ra) && Gen(q, e, pos, ra).Ok?
    ensures Frames(ra, Gen(q, e, pos, ra).value) && Gen(q, e, pos, ra).value.ty == TypeOf(q, e) && WellTyped(q, e)
    ensures |Gen(q, e, pos, ra).value.code| == Size(q, e)
  {
    hide Gen, WellTyped, OffsetsFit, JumpsFit, TypeOf, Need, Size, Uses, Frames;
    GenShape(q, e, pos, ra);
    UsesFrames(ra, Gen(q, e, pos, ra).value, Need(q, e));
  }

  lemma GenBoolFrames(q: Qualifiers, e: Expr, pos: nat, ra: Alloc)
    requires ValidAlloc(ra) && GenBool(q, e, pos, ra).Ok?
    ensures Frames(ra, GenBool(q, e, pos, ra).value) && Logical(q, e)
    ensures |GenBool(q, e, pos, ra).value.code| == SizeBool(q, e)
  {
    hide GenBool, WellTyped, OffsetsFit, JumpsFit, TypeOf, IsIp, NeedBool, SizeBool, Uses, Frames;
    GenBoolShape(q, e, pos, ra);
    UsesFrames(ra, GenBool(q, e, pos, ra).value, NeedBool(q, e));
  }

  lemma CoerceKeeps(o: Operands)
    requires ValidAlloc(o.ra) && Live(o.ra, o.l) && Live(o.ra, o.r) && o.l != o.r && Coerce(o).Ok?
    ensures forall x :: Live(o.ra, x) && x != o.l && x != o.r ==> Live(Coerce(o).value.ra, x)
  {
    hide EnsureBool, ValidAlloc;
    if o.lt == VBool && o.rt == VInt {
      EnsureBoolShape(o.r, VInt, o.ra);
    } else if o.lt == VInt && o.rt == VBool {
      EnsureBoolShape(o.l, VInt, o.ra);
    }
  }
}
