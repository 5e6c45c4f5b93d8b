/** Compilation and later registrations: a tree that compiles keeps its program. */
module Stability {
  import opened Registry
  import opened Ast
  import opened Allocator
  import opened CodeGen

  lemma ResolveStable(big: Qualifiers, q: Qualifiers, e: Expr)
    requires Extends(big, q) && Resolve(q, e).Ok?
    ensures Resolve(big, e) == Resolve(q, e)
  {
  }

  lemma Ipv6ValueStable(big: Qualifiers, q: Qualifiers, e: Expr, ra: Alloc)
    requires Extends(big, q) && GenIpv6Value(q, e, ra).Ok?
    ensures GenIpv6Value(big, e, ra) == GenIpv6Value(q, e, ra)
  {
    hide GenLoad, GenImm;
  }

  lemma {:induction false} GenStable(big: Qualifiers, q: Qualifiers, e: Expr, pos: nat, ra: Alloc)
    requires Extends(big, q) && Gen(q, e, pos, ra).Ok?
    ensures Gen(big, e, pos, ra) == Gen(q, e, pos, ra)
    decreases Nodes(e), 0
  {
    hide GenLoad, GenImm, GenNegate, GenAnd, GenOr, GenBool, GenOperands, GenCompare, GenBinary;
    match e
    case Not(x) => GenBoolStable(big, q, x, pos, ra);
    case And(l, r) => AndStable(big, q, l, r, pos, ra);
    case Or(l, r) => OrStable(big, q, l, r, pos, ra);
    case Compare(op, l, r) => CompareStable(big, q, op, l, r, pos, ra);
    case Bits(op, l, r) => OperandsStable(big, q, l, r, pos, ra);
    case _ =>
  }

  lemma {:induction false} AndStable(big: Qualifiers, q: Qualifiers, l: Expr, r: Expr, pos: nat, ra: Alloc)
    requires Extends(big, q) && GenAnd(q, l, r, pos, ra).Ok?
    ensures GenAnd(big, l, r, pos, ra) == GenAnd(q, l, r, pos, ra)
    decreases Nodes(l) + Nodes(r), 1
  {
    hide GenBool, Extends, AndFrag, TakeReg;
    GenBoolStable(big, q, l, pos, ra);
    var f := GenBool(q, l, pos, ra).value;
    assert GenAndRight(q, f, r, pos).Ok?;
    GenBoolStable(big, q, r, pos + |f.code| + 1, Give(TakeReg(f.ra).value.1, f.dst));
  }

  lemma {:induction false} OrStable(big: Qualifiers, q: Qualifiers, l: Expr, r: Expr, pos: nat, ra: Alloc)
    requires Extends(big, q) && GenOr(q, l, r, pos, ra).Ok?
    ensures GenOr(big, l, r, pos, ra) == GenOr(q, l, r, pos, ra)
    decreases Nodes(l) + Nodes(r), 1
  {
    hide GenBool, Extends, OrFrag, TakeReg;
    GenBoolStable(big, q, l, pos, ra);
    var f := GenBool(q, l, pos, ra).value;
    assert GenOrRight(q, f, r, pos).Ok?;
    GenBoolStable(big, q, r, pos + |f.code| + 4, Give(TakeReg(f.ra).value.1, f.dst));
  }

  lemma {:induction false} GenBoolStable(big: Qualifiers, q: Qualifiers, e: Expr, pos: nat, ra: Alloc)
    requires Extends(big, q) && GenBool(q, e, pos, ra).Ok?
    ensures GenBool(big, e, pos, ra) == GenBool(q, e, pos, ra)
    decreases Nodes(e), 1
  {
    hide Gen, EnsureBool, Extends;
    GenStable(big, q, e, pos, ra);
  }

  lemma {:induction false} OperandsStable(big: Qualifiers, q: Qualifiers, l: Expr, r: Expr, pos: nat, ra: Alloc)
    requires Extends(big, q) && GenOperands(q, l, r, pos, ra).Ok?
    ensures GenOperands(big, l, r, pos, ra) == GenOperands(q, l, r, pos, ra)
    decreases Nodes(l) + Nodes(r), 0
  {
    hide Gen, Extends;
    GenStable(big, q, l, pos, ra);
    var f := Gen(q, l, pos, ra).value;
    GenStable(big, q, r, pos + |f.code|, f.ra);
  }

  lemma Ipv6CompareStable(big: Qualifiers, q: Qualifiers, op: CmpOp, l: Expr, r: Expr, ra: Alloc)
    requires Extends(big, q) && GenIpv6Compare(q, op, l, r, ra).Ok?
    ensures GenIpv6Compare(big, op, l, r, ra) == GenIpv6Compare(q, op, l, r, ra)
  {
    hide GenIpv6Value, GenHalves, GenBoth, Extends;
    Ipv6ValueStable(big, q, l, ra);
    Ipv6ValueStable(big, q, r, GenIpv6Value(q, l, ra).value.ra);
  }

  lemma {:induction false} CompareStable(
    big: Qualifiers, q: Qualifiers, op: CmpOp, l: Expr, r: Expr, pos: nat, ra: Alloc)
    requires Extends(big, q) && GenCompare(q, op, l, r, pos, ra).Ok?
    ensures GenCompare(big, op, l, r, pos, ra) == GenCompare(q, op, l, r, pos, ra)
    decreases Nodes(l) + Nodes(r), 3
  {
    hide Resolve, GenTypedCompare, Extends;
    ResolveStable(big, q, l);
    ResolveStable(big, q, r);
    TypedCompareStable(big, q, op, l, Resolve(q, l).value, r, Resolve(q, r).value, pos, ra);
  }

  lemma {:induction false} TypedCompareStable(
    big: Qualifiers, q: Qualifiers, op: CmpOp, l: Expr, lt: ValueType, r: Expr, rt: ValueType, pos: nat, ra: Alloc)
    requires Extends(big, q) && GenTypedCompare(q, op, l, lt, r, rt, pos, ra).Ok?
    ensures GenTypedCompare(big, op, l, lt, r, rt, pos, ra) == GenTypedCompare(q, op, l, lt, r, rt, pos, ra)
    decreases Nodes(l) + Nodes(r), 2
  {
    hide GenPlainCompare, GenIpv6Compare, Extends;
    if lt == VIpv6 {
      Ipv6CompareStable(big, q, op, l, r, ra);
    } else {
      PlainCompareStable(big, q, op, l, r, pos, ra);
    }
  }

  lemma {:induction false} PlainCompareStable(
    big: Qualifiers, q: Qualifiers, op: CmpOp, l: Expr, r: Expr, pos: nat, ra: Alloc)
    requires Extends(big, q) && GenPlainCompare(q, op, l, r, pos, ra).Ok?
    ensures GenPlainCompare(big, op, l, r, pos, ra) == GenPlainCompare(q, op, l, r, pos, ra)
    decreases Nodes(l) + Nodes(r), 1
  {
    hide GenOperands, CompareTail, Extends;
    OperandsStable(big, q, l, r, pos, ra);
  }

  /** A tree that compiles gives the identical program after any further registrations. */
  lemma CompilesTheSameLater(q: Qualifiers, ds: seq<Descriptor>, root: Expr)
    requires GenProgram(q, root).Ok?
    ensures GenProgram(RegisterAll(q, ds), root) == GenProgram(q, root)
  {
    hide GenBool, Extends, RegisterAll;
    RegistrationsExtend(q, ds);
    GenBoolStable(RegisterAll(q, ds), q, root, 0, Alloc([], 0));
  }
}
