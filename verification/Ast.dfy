/** Expression trees as the front end builds them. */
module Ast {
  import opened Words
  import opened Common

  type Bytes4 = s: seq<byte> | |s| == 4 witness [0, 0, 0, 0]
  type Bytes16 = s: seq<byte> | |s| == 16 witness [0, 0, 0, 0, 0, 0, 0, 0, 0, 0, 0, 0, 0, 0, 0, 0]

  datatype CmpOp = Eq | Ne | Gt | Lt | Ge | Le

  datatype BitOp = BitAnd | BitOr

  /** A null child is `Null`. An IP literal holds the bytes `inet_pton` makes of its text, or
      `None` when the text is not an address. */
  datatype Expr =
    | Null
    | Ident(name: string)
    | Integer(value: int64)
    | Boolean(truth: bool)
    | Ipv4(addr4: Option<Bytes4>)
    | Ipv6(addr6: Option<Bytes16>)
    | Not(operand: Expr)
    | And(left: Expr, right: Expr)
    | Or(left: Expr, right: Expr)
    | Compare(cmp: CmpOp, left: Expr, right: Expr)
    | Bits(bit: BitOp, left: Expr, right: Expr)

  /** The number of nodes, the measure of every recursion over a tree. */
  function Nodes(e: Expr): (n: nat)
    ensures n >= 1
  {
    match e
    case Not(x) => 1 + Nodes(x)
    case And(l, r) => 1 + Nodes(l) + Nodes(r)
    case Or(l, r) => 1 + Nodes(l) + Nodes(r)
    case Compare(_, l, r) => 1 + Nodes(l) + Nodes(r)
    case Bits(_, l, r) => 1 + Nodes(l) + Nodes(r)
    case _ => 1
  }

  /** The left-deep conjunction c[0] && c[1] && ... the grammar builds for a chain. */
  function Chain(c: seq<Expr>): Expr
    requires c != []
  {
    if |c| == 1 then c[0] else And(Chain(c[..|c| - 1]), c[|c| - 1])
  }
}
