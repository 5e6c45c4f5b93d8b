/** The qualifier registry: names of context fields with their offset, size and type. */
module Registry {
  import opened Words
  import opened Common

  datatype FieldType = BoolT | I8 | U8 | I16 | U16 | I32 | U32 | I64 | U64 | Ipv4T | Ipv6T

  function TypeSize(t: FieldType): byte {
    match t
    case BoolT => 1
    case I8 => 1
    case U8 => 1
    case I16 => 2
    case U16 => 2
    case I32 => 4
    case U32 => 4
    case Ipv4T => 4
    case I64 => 8
    case U64 => 8
    case Ipv6T => 16
  }

  predicate IsSigned(t: FieldType) {
    t == I8 || t == I16 || t == I32 || t == I64
  }

  datatype QualifierInfo = QualifierInfo(offset: uint32, size: byte, ty: FieldType)

  /** What a caller passes to a registration; a null name is `None`. */
  datatype Descriptor = Descriptor(name: Option<string>, offset: uint32, size: byte, ty: FieldType) {
    function Info(): QualifierInfo {
      QualifierInfo(offset, size, ty)
    }
  }

  type Qualifiers = map<string, QualifierInfo>

  /** A field of the type takes so many bytes. */
  predicate Occupies(t: FieldType, bytes: int) {
    || ((t == BoolT || t == I8 || t == U8) && bytes == 1)
    || ((t == I16 || t == U16) && bytes == 2)
    || ((t == I32 || t == U32 || t == Ipv4T) && bytes == 4)
    || ((t == I64 || t == U64) && bytes == 8)
    || (t == Ipv6T && bytes == 16)
  }

  /** The field's size is its type's, and its bytes end within 32-bit addresses. */
  predicate ValidInfo(info: QualifierInfo) {
    info.size == TypeSize(info.ty) && info.offset + info.size <= UINT32_MAX
  }

  /** What the compiler relies on. */
  ghost predicate WellFormed(q: Qualifiers) {
    forall n :: n in q ==> ValidInfo(q[n])
  }

  predicate Named(d: Descriptor) {
    d.name.Some? && d.name.value != ""
  }

  /** The status of one registration against the names already present. */
  function RegisterStatus(q: Qualifiers, d: Descriptor): Status {
    if !Named(d) then InvalidArg
    else if d.name.value in q then DupQualifier
    else if !ValidInfo(d.Info()) then InvalidArg
    else Success
  }

  function Registered(q: Qualifiers, d: Descriptor): Qualifiers {
    if RegisterStatus(q, d) == Success then q[d.name.value := d.Info()] else q
  }

  // ----- sequences of registrations -----

  function RegisterAll(q: Qualifiers, ds: seq<Descriptor>): Qualifiers
    decreases ds
  {
    if ds == [] then q else RegisterAll(Registered(q, ds[0]), ds[1..])
  }

  /** One registration more at the end. */
  lemma {:induction false} RegisterLast(q: Qualifiers, ds: seq<Descriptor>, d: Descriptor)
    ensures RegisterAll(q, ds + [d]) == Registered(RegisterAll(q, ds), d)
    decreases ds
  {
    if ds == [] {
      assert RegisterAll(q, [d]) == RegisterAll(Registered(q, d), []);
    } else {
      assert (ds + [d])[1..] == ds[1..] + [d];
      RegisterLast(Registered(q, ds[0]), ds[1..], d);
    }
  }

  /** The first descriptor of a list that names `n` and describes a valid field. */
  function FirstValid(ds: seq<Descriptor>, n: string): Option<QualifierInfo> {
    if ds == [] then None
    else if Named(ds[0]) && ds[0].name.value == n && ValidInfo(ds[0].Info()) then Some(ds[0].Info())
    else FirstValid(ds[1..], n)
  }

  /** After any sequence of registrations a lookup gives the entry that was there before, or
      else the first valid registration of that name; later ones never replace it. */
  lemma {:induction false} LookupAfterRegistrations(q: Qualifiers, ds: seq<Descriptor>, n: string)
    ensures var r := RegisterAll(q, ds);
      (if n in r then Some(r[n]) else None) == if n in q then Some(q[n]) else FirstValid(ds, n)
    decreases ds
  {
    if ds != [] {
      LookupAfterRegistrations(Registered(q, ds[0]), ds[1..], n);
    }
  }

  lemma {:induction false} RegistrationsKeepWellFormed(q: Qualifiers, ds: seq<Descriptor>)
    requires WellFormed(q)
    ensures WellFormed(RegisterAll(q, ds))
    decreases ds
  {
    if ds != [] {
      RegistrationsKeepWellFormed(Registered(q, ds[0]), ds[1..]);
    }
  }

  /** Every name keeps its meaning under registrations: `q` is a submap of the result. */
  ghost predicate Extends(big: Qualifiers, small: Qualifiers) {
    forall n :: n in small ==> n in big && big[n] == small[n]
  }

  lemma RegistrationsExtend(q: Qualifiers, ds: seq<Descriptor>)
    ensures Extends(RegisterAll(q, ds), q)
  {
    forall n | n in q ensures n in RegisterAll(q, ds) && RegisterAll(q, ds)[n] == q[n] {
      LookupAfterRegistrations(q, ds, n);
    }
  }

  // ----- the registry -----

  class QualifierRegistry {
    var qualifiers: Qualifiers
    /** Every descriptor offered for registration so far, in order. */
    ghost var offered: seq<Descriptor>

    ghost predicate Valid()
      reads this
    {
      WellFormed(qualifiers) && qualifiers == RegisterAll(map[], offered)
    }

    constructor ()
      ensures Valid() && qualifiers == map[] && offered == []
    {
      qualifiers, offered := map[], [];
    }

    method RegisterQualifier(d: Descriptor) returns (status: Status)
      requires Valid()
      modifies this
      ensures Valid()
      ensures offered == old(offered) + [d]
      ensures status == RegisterStatus(old(qualifiers), d)
      ensures qualifiers == Registered(old(qualifiers), d)
      ensures status == Success || status == DupQualifier || status == InvalidArg
      ensures status == DupQualifier <==> d.name.Some? && d.name.value != "" && d.name.value in old(qualifiers)
      ensures status == Success <==>
        && d.name.Some? && d.name.value != "" && d.name.value !in old(qualifiers)
        && Occupies(d.ty, d.size) && d.offset + d.size <= 0xffff_ffff
      ensures status != Success ==> qualifiers == old(qualifiers)
      ensures status == Success ==>
        d.name.value !in old(qualifiers) && qualifiers == old(qualifiers)[d.name.value := d.Info()]
    {
      RegisterLast(map[], offered, d);
      offered := offered + [d];
      if d.name == None || d.name.value == "" {
        return InvalidArg;
      }
      if d.name.value in qualifiers {
        return DupQualifier;
      }
      if d.size != TypeSize(d.ty) {
        return InvalidArg;
      }
      if d.offset > UINT32_MAX - d.size {
        return InvalidArg;
      }
      qualifiers := qualifiers[d.name.value := QualifierInfo(d.offset, d.size, d.ty)];
      status := Success;
    }

    /** A lookup answers the first valid registration of the name, however many followed. */
    method Find(name: string) returns (info: Option<QualifierInfo>)
      requires Valid()
      ensures info == FirstValid(offered, name)
      ensures info == if name in qualifiers then Some(qualifiers[name]) else None
    {
      LookupAfterRegistrations(map[], offered, name);
      info := if name in qualifiers then Some(qualifiers[name]) else None;
    }
  }
}
