/** A registered field holds exactly the numbers of its C type. */
module FieldRanges {
  import opened Words
  import opened Registry
  import opened Vm
  import opened Semantics

  /** The least number a register gets from a field of the type. */
  function Low(t: FieldType): int {
    match t
    case I8 => -0x80
    case I16 => -0x8000
    case I32 => -0x8000_0000
    case I64 => -0x8000_0000_0000_0000
    case U64 => -0x8000_0000_0000_0000
    case _ => 0
  }

  /** The greatest one. A boolean field is any byte, and an unsigned 64-bit number is kept signed. */
  function High(t: FieldType): int {
    match t
    case BoolT => 0xff
    case I8 => 0x7f
    case U8 => 0xff
    case I16 => 0x7fff
    case U16 => 0xffff
    case I32 => 0x7fff_ffff
    case U32 => 0xffff_ffff
    case I64 => 0x7fff_ffff_ffff_ffff
    case U64 => 0x7fff_ffff_ffff_ffff
    case Ipv4T => 0xffff_ffff
    case Ipv6T => 0
  }

  /** A type has one number for each value of its bytes. */
  lemma AsManyNumbersAsBytes(t: FieldType)
    requires t != Ipv6T
    ensures Pow256(TypeSize(t)) == High(t) - Low(t) + 1
  {
    Pow256Values();
  }

  lemma ValueInRange(t: FieldType, bs: seq<byte>)
    requires t != Ipv6T && |bs| == TypeSize(t)
    ensures Low(t) <= FieldValue(t, bs) <= High(t)
  {
    hide LE, SignedLE, Pow256;
    LEBound(bs);
    SignedLEValue(bs);
    Pow256Values();
  }

  /** The bytes of a number: those of its remainder modulo the number of values. */
  function BytesOf(t: FieldType, v: int): (bs: seq<byte>)
    requires t != Ipv6T && Low(t) <= v <= High(t)
    ensures |bs| == TypeSize(t)
  {
    AsManyNumbersAsBytes(t);
    ToLE(if v < 0 then v + Pow256(TypeSize(t)) else v, TypeSize(t))
  }

  lemma ValueOfBytes(t: FieldType, v: int)
    requires t != Ipv6T && Low(t) <= v <= High(t)
    ensures FieldValue(t, BytesOf(t, v)) == v
  {
    hide LE, ToLE, SignedLE, Pow256;
    AsManyNumbersAsBytes(t);
    LEOfToLE(if v < 0 then v + Pow256(TypeSize(t)) else v, TypeSize(t));
    SignedLEValue(BytesOf(t, v));
    LEBound(BytesOf(t, v));
    Pow256Values();
  }

  /** A context with these bytes at an offset. */
  function Holding(offset: nat, bs: seq<byte>): Context {
    a => if offset <= a < offset + |bs| then bs[a - offset] else 0
  }

  lemma HeldBytes(offset: nat, bs: seq<byte>)
    ensures FieldBytes(Holding(offset, bs), offset, |bs|) == bs
  {
  }

  /** The numbers a valid field can hold, over all contexts, are exactly those of its type. */
  lemma FieldHoldsExactly(info: QualifierInfo, v: int)
    requires ValidInfo(info) && info.ty != Ipv6T
    ensures (exists ctx: Context :: EvalField(info, ctx).value == v) <==> Low(info.ty) <= v <= High(info.ty)
  {
    hide FieldValue, BytesOf, FieldBytes, Holding, Low, High;
    if Low(info.ty) <= v <= High(info.ty) {
      ValueOfBytes(info.ty, v);
      HeldBytes(info.offset, BytesOf(info.ty, v));
      assert EvalField(info, Holding(info.offset, BytesOf(info.ty, v))).value == v;
    }
    forall ctx: Context ensures Low(info.ty) <= EvalField(info, ctx).value <= High(info.ty) {
      ValueInRange(info.ty, FieldBytes(ctx, info.offset, TypeSize(info.ty)));
    }
  }

  /** Different bytes are different numbers, so a field's number determines its bytes. */
  lemma NumberDeterminesBytes(t: FieldType, a: seq<byte>, b: seq<byte>)
    requires t != Ipv6T && |a| == |b| == TypeSize(t)
    ensures FieldValue(t, a) == FieldValue(t, b) <==> a == b
  {
    hide LE, SignedLE, Pow256;
    LEInjective(a, b);
    LEBound(a); LEBound(b);
    SignedLEValue(a); SignedLEValue(b);
    Pow256Values();
  }
}
