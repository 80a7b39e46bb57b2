/**
  * Messages as the visitors see them: a list of fields, each with its identifier, its
  * name and a typed value. A message is its own schema; two messages of one type have the
  * same shape.
  */
module Messages {
  import opened Bytes

  /** Floating point values are their bit patterns. */
  datatype Value =
    | BoolV(b: bool)
    | CharV(c: byte)
    | IntV(width: Width, i: int)
    | UIntV(width: Width, u: nat)
    | FloatV(bits: nat)
    | DoubleV(bits: nat)
    | TextV(s: bytes)
    | MessageV(fields: seq<Field>)

  datatype Field = Field(id: nat, name: bytes, value: Value)

  predicate ValidValue(v: Value) {
    match v
    case BoolV(_) => true
    case CharV(_) => true
    case IntV(w, i) => IsSigned(w, i)
    case UIntV(w, u) => IsUnsigned(w, u)
    case FloatV(bits) => bits < TWO32
    case DoubleV(bits) => bits < TWO64
    case TextV(_) => true
    case MessageV(fields) => ValidFields(fields)
  }

  predicate ValidFields(fields: seq<Field>) {
    forall f :: f in fields ==> f.id < TWO32 && ValidValue(f.value)
  }

  /** Equal up to the values of scalar fields: instances of the same message type. */
  predicate SameType(v: Value, w: Value)
    decreases v, 0
  {
    match v
    case BoolV(_) => w.BoolV?
    case CharV(_) => w.CharV?
    case IntV(width, _) => w.IntV? && w.width == width
    case UIntV(width, _) => w.UIntV? && w.width == width
    case FloatV(_) => w.FloatV?
    case DoubleV(_) => w.DoubleV?
    case TextV(_) => w.TextV?
    case MessageV(fields) => w.MessageV? && SameShape(fields, w.fields)
  }

  predicate SameShape(fields: seq<Field>, others: seq<Field>)
    decreases fields, 1
  {
    && |fields| == |others|
    && forall i :: 0 <= i < |fields| ==>
         && fields[i].id == others[i].id && fields[i].name == others[i].name
         && SameType(fields[i].value, others[i].value)
  }

  ghost predicate DistinctIds(fields: seq<Field>) {
    && (forall i, j :: 0 <= i < j < |fields| ==> fields[i].id != fields[j].id)
    && forall f :: f in fields && f.value.MessageV? ==> DistinctIds(f.value.fields)
  }

  ghost predicate DistinctNames(fields: seq<Field>) {
    && (forall i, j :: 0 <= i < j < |fields| ==> fields[i].name != fields[j].name)
    && forall f :: f in fields && f.value.MessageV? ==> DistinctNames(f.value.fields)
  }
}
