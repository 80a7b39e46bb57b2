/**
  * Message specifications after parsing: the pass that rejects duplicate names and
  * identifiers, and the numbering of the fields of a message.
  */
module Schema {
  import opened Bytes

  /** A field as declared; its options may give identifiers, even several of them. */
  datatype FieldDecl = FieldDecl(typeName: string, name: bytes, ids: seq<nat>)

  datatype MessageDecl = MessageDecl(name: string, id: int, fields: seq<FieldDecl>)

  /** What the grammar promises: names are not empty, and identifiers start at one. */
  ghost predicate WellFormed(m: MessageDecl) {
    && m.name != "" && m.id >= 1
    && forall f :: f in m.fields ==> f.name != [] && forall id :: id in f.ids ==> id >= 1
  }

  ghost predicate Distinct<T>(s: seq<T>) {
    forall i, j :: 0 <= i < j < |s| ==> s[i] != s[j]
  }

  // ---------------------------------------------------------------- uniqueness

  predicate Explicit(f: FieldDecl) { f.ids != [] }

  ghost predicate DifferentIds(fields: seq<FieldDecl>) {
    forall i, j :: 0 <= i < j < |fields| && Explicit(fields[i]) && Explicit(fields[j]) ==>
      fields[i].ids[0] != fields[j].ids[0]
  }

  ghost predicate DifferentNames(fields: seq<FieldDecl>) {
    forall i, j :: 0 <= i < j < |fields| ==> fields[i].name != fields[j].name
  }

  /** Fields with identifiers have different ones, and all have different names. */
  ghost predicate UniqueFields(fields: seq<FieldDecl>) {
    DifferentIds(fields) && DifferentNames(fields)
  }

  ghost predicate Unique(messages: seq<MessageDecl>) {
    && (forall m :: m in messages ==> UniqueFields(m.fields))
    && (forall i, j :: 0 <= i < j < |messages| ==> messages[i].id != messages[j].id)
    && forall i, j :: 0 <= i < j < |messages| ==> messages[i].name != messages[j].name
  }

  /** The field identifiers the pass collects. */
  function CheckedIds(fields: seq<FieldDecl>): (ids: seq<int>) {
    if fields == [] then []
    else
      var last := fields[|fields| - 1];
      CheckedIds(fields[..|fields| - 1]) + if Explicit(last) then [last.ids[0]] else []
  }

  function FieldNames(fields: seq<FieldDecl>): (names: seq<bytes>) {
    seq(|fields|, i requires 0 <= i < |fields| => fields[i].name)
  }

  function MessageIds(messages: seq<MessageDecl>): (ids: seq<int>) {
    seq(|messages|, i requires 0 <= i < |messages| => messages[i].id)
  }

  function MessageNames(messages: seq<MessageDecl>): (names: seq<string>) {
    seq(|messages|, i requires 0 <= i < |messages| => messages[i].name)
  }

  lemma {:induction false} CheckedMember(fields: seq<FieldDecl>, id: int)
    ensures id in CheckedIds(fields) <==> exists i :: 0 <= i < |fields| && Explicit(fields[i]) && fields[i].ids[0] == id
  {
    if fields != [] {
      var n := |fields| - 1;
      var front := fields[..n];
      CheckedMember(front, id);
      assert forall i :: 0 <= i < n ==> front[i] == fields[i];
    }
  }

  lemma {:induction false} DistinctSnoc<T>(s: seq<T>, x: T)
    ensures Distinct(s + [x]) <==> Distinct(s) && x !in s
  {
    var t := s + [x];
    if Distinct(t) {
      forall i, j | 0 <= i < j < |s| ensures s[i] != s[j] { assert t[i] != t[j]; }
      forall i | 0 <= i < |s| ensures s[i] != x { assert t[i] != t[|s|]; }
    }
  }

  /** The collected identifiers are distinct exactly when those of the fields are. */
  lemma {:induction false} CheckedDistinct(fields: seq<FieldDecl>)
    ensures Distinct(CheckedIds(fields)) <==> DifferentIds(fields)
  {
    if fields != [] {
      var n := |fields| - 1;
      var front, last := fields[..n], fields[n];
      CheckedDistinct(front);
      assert forall i :: 0 <= i < n ==> front[i] == fields[i];
      if Explicit(last) {
        CheckedMember(front, last.ids[0]);
        DistinctSnoc(CheckedIds(front), last.ids[0]);
      } else {
        assert CheckedIds(fields) == CheckedIds(front) + [] == CheckedIds(front);
      }
    }
  }

  /** The search for a value that occurs again later; the last one found is kept. */
  method FindDuplicate<T(==)>(v: seq<T>, none: T) returns (duplicate: T)
    requires none !in v
    ensures duplicate == none <==> Distinct(v)
    ensures duplicate != none ==> exists i, j :: 0 <= i < j < |v| && v[i] == v[j] == duplicate
  {
    duplicate := none;
    for i := 0 to |v|
      invariant duplicate == none <==> forall a, b :: 0 <= a < i && a < b < |v| ==> v[a] != v[b]
      invariant duplicate != none ==> exists a, b :: 0 <= a < b < |v| && v[a] == v[b] == duplicate
    {
      var j := i + 1;
      while j < |v| && v[j] != v[i]
        invariant i < j <= |v|
        invariant forall b :: i < b < j ==> v[b] != v[i]
      {
        j := j + 1;
      }
      if j < |v| {
        assert v[i] in v;
        duplicate := v[i];
      }
    }
  }

  /** The vectors the pass fills and clears. */
  class UniquenessPass {
    var messageNames: seq<string>
    var fieldNames: seq<bytes>
    var messageIds: seq<int>
    var fieldIds: seq<int>

    constructor ()
      ensures messageNames == [] && fieldNames == [] && messageIds == [] && fieldIds == []
    {
      messageNames, fieldNames, messageIds, fieldIds := [], [], [], [];
    }

    method VisitField(f: FieldDecl)
      modifies this`fieldNames, this`fieldIds
      ensures fieldNames == old(fieldNames) + [f.name]
      ensures fieldIds == old(fieldIds) + if f.ids != [] then [f.ids[0]] else []
    {
      fieldNames := fieldNames + [f.name];
      if f.ids != [] {
        fieldIds := fieldIds + [f.ids[0]];
      }
    }

    /** Starts over with the fields of one message, and adds the message itself. */
    method VisitMessage(m: MessageDecl) returns (ok: bool)
      requires WellFormed(m)
      modifies this
      ensures ok <==> UniqueFields(m.fields)
      ensures messageNames == old(messageNames) + [m.name] && messageIds == old(messageIds) + [m.id]
    {
      fieldNames, fieldIds := [], [];
      messageNames := messageNames + [m.name];
      messageIds := messageIds + [m.id];
      for i := 0 to |m.fields|
        invariant fieldNames == FieldNames(m.fields[..i]) && fieldIds == CheckedIds(m.fields[..i])
        invariant messageNames == old(messageNames) + [m.name] && messageIds == old(messageIds) + [m.id]
      {
        assert m.fields[..i + 1][..i] == m.fields[..i];
        VisitField(m.fields[i]);
        assert fieldNames == FieldNames(m.fields[..i + 1]);
      }
      assert m.fields[..|m.fields|] == m.fields;
      NoSentinels(m);
      CheckedDistinct(m.fields);
      NamesDistinct(m.fields);
      var id := FindDuplicate(fieldIds, -1);
      ok := -1 == id;
      if ok {
        var name := FindDuplicate(fieldNames, []);
        ok := name == [];
      }
    }

    /** Accepts a specification exactly when nothing in it is declared twice. */
    method VisitSpecification(messages: seq<MessageDecl>) returns (ok: bool)
      requires forall m :: m in messages ==> WellFormed(m)
      requires messageNames == [] && messageIds == []
      modifies this
      ensures ok <==> Unique(messages)
    {
      ok := true;
      for i := 0 to |messages|
        invariant messageNames == MessageNames(messages[..i]) && messageIds == MessageIds(messages[..i])
        invariant ok <==> forall k :: 0 <= k < i ==> UniqueFields(messages[k].fields)
      {
        assert messages[i] in messages;
        var unique := VisitMessage(messages[i]);
        ok := ok && unique;
        assert messageNames == MessageNames(messages[..i + 1]) && messageIds == MessageIds(messages[..i + 1]);
      }
      assert messages[..|messages|] == messages;
      MessagesDistinct(messages);
      if ok {
        var id := FindDuplicate(messageIds, -1);
        ok := -1 == id;
      }
      if ok {
        var name := FindDuplicate(messageNames, "");
        ok := name == "";
      }
    }
  }

  lemma {:induction false} NoSentinels(m: MessageDecl)
    requires WellFormed(m)
    ensures -1 !in CheckedIds(m.fields) && [] !in FieldNames(m.fields)
  {
    CheckedMember(m.fields, -1);
    forall i | 0 <= i < |m.fields| ensures FieldNames(m.fields)[i] != [] {
      assert m.fields[i] in m.fields;
    }
    forall i | 0 <= i < |m.fields| && Explicit(m.fields[i]) ensures m.fields[i].ids[0] != -1 {
      assert m.fields[i] in m.fields && m.fields[i].ids[0] in m.fields[i].ids;
    }
  }

  lemma {:induction false} NamesDistinct(fields: seq<FieldDecl>)
    ensures Distinct(FieldNames(fields)) <==> DifferentNames(fields)
  {
    var names := FieldNames(fields);
    if Distinct(names) {
      forall i, j | 0 <= i < j < |fields| ensures fields[i].name != fields[j].name {
        assert names[i] != names[j];
      }
    }
  }

  lemma {:induction false} MessagesDistinct(messages: seq<MessageDecl>)
    requires forall m :: m in messages ==> WellFormed(m)
    ensures Distinct(MessageIds(messages)) <==>
              forall i, j :: 0 <= i < j < |messages| ==> messages[i].id != messages[j].id
    ensures Distinct(MessageNames(messages)) <==>
              forall i, j :: 0 <= i < j < |messages| ==> messages[i].name != messages[j].name
    ensures -1 !in MessageIds(messages) && "" !in MessageNames(messages)
  {
    var ids, names := MessageIds(messages), MessageNames(messages);
    if Distinct(ids) {
      forall i, j | 0 <= i < j < |messages| ensures messages[i].id != messages[j].id { assert ids[i] != ids[j]; }
    }
    if Distinct(names) {
      forall i, j | 0 <= i < j < |messages| ensures messages[i].name != messages[j].name { assert names[i] != names[j]; }
    }
    forall i | 0 <= i < |messages| ensures ids[i] != -1 && names[i] != "" {
      assert messages[i] in messages;
    }
  }

  // ---------------------------------------------------------------- numbering

  datatype FieldType =
    | BoolT | CharT | IntT(width: Width) | UIntT(width: Width) | FloatT | DoubleT
    | StringT | BytesT | MessageT | UndefinedT

  datatype MetaField = MetaField(fieldType: FieldType, typeName: string, name: bytes, id: nat)

  datatype MetaMessage = MetaMessage(name: string, id: int, fields: seq<MetaField>)

  /** A type name that is not built in is that of a message. */
  function TypeOf(name: string): (t: FieldType) {
    match name
    case "bool" => BoolT
    case "char" => CharT
    case "uint8" => UIntT(W8)
    case "int8" => IntT(W8)
    case "uint16" => UIntT(W16)
    case "int16" => IntT(W16)
    case "uint32" => UIntT(W32)
    case "int32" => IntT(W32)
    case "uint64" => UIntT(W64)
    case "int64" => IntT(W64)
    case "float" => FloatT
    case "double" => DoubleT
    case "string" => StringT
    case "bytes" => BytesT
    case _ => MessageT
  }

  /** A number in decimal. */
  function Decimal(n: nat): (s: string) {
    if n < 10 then ['0' + n as char] else Decimal(n / 10) + ['0' + (n % 10) as char]
  }

  predicate BuiltIn(t: FieldType) {
    t in {BoolT, CharT, IntT(W8), IntT(W16), IntT(W32), IntT(W64), UIntT(W8), UIntT(W16), UIntT(W32), UIntT(W64),
          FloatT, DoubleT, StringT, BytesT}
  }

  /** How a built-in type is written; integers carry their width in bits. */
  function NameOf(t: FieldType): (s: string)
    requires !t.MessageT? && !t.UndefinedT?
  {
    match t
    case IntT(w) => "int" + Decimal(8 * Size(w))
    case UIntT(w) => "uint" + Decimal(8 * Size(w))
    case BoolT => "bool"
    case CharT => "char"
    case FloatT => "float"
    case DoubleT => "double"
    case StringT => "string"
    case BytesT => "bytes"
  }

  lemma {:induction false} WidthsInBits()
    ensures Decimal(8 * Size(W8)) == "8" && Decimal(8 * Size(W16)) == "16"
    ensures Decimal(8 * Size(W32)) == "32" && Decimal(8 * Size(W64)) == "64"
  {
    assert Decimal(16) == Decimal(1) + ['6'];
    assert Decimal(32) == Decimal(3) + ['2'];
    assert Decimal(64) == Decimal(6) + ['4'];
  }

  lemma {:induction false} IntegerNames()
    ensures NameOf(IntT(W8)) == "int8" && NameOf(IntT(W16)) == "int16"
    ensures NameOf(IntT(W32)) == "int32" && NameOf(IntT(W64)) == "int64"
    ensures NameOf(UIntT(W8)) == "uint8" && NameOf(UIntT(W16)) == "uint16"
    ensures NameOf(UIntT(W32)) == "uint32" && NameOf(UIntT(W64)) == "uint64"
  {
    WidthsInBits();
  }

  lemma {:induction false} TypesAreBuiltIn(t: FieldType)
    ensures BuiltIn(t) <==> !t.MessageT? && !t.UndefinedT?
  {
    match t
    case IntT(w) => assert w == W8 || w == W16 || w == W32 || w == W64;
    case UIntT(w) => assert w == W8 || w == W16 || w == W32 || w == W64;
    case _ =>
  }

  /** A built-in type is recognised by its name and by no other. */
  lemma {:induction false} TypeOfName(t: FieldType)
    requires !t.MessageT? && !t.UndefinedT?
    ensures TypeOf(NameOf(t)) == t
  {
    IntegerNames();
  }

  lemma {:induction false} NameOfType(n: string)
    ensures !TypeOf(n).UndefinedT? && (!TypeOf(n).MessageT? ==> NameOf(TypeOf(n)) == n)
  {
    IntegerNames();
  }

  /** Names and built-in types correspond; every other name is that of a message. */
  lemma {:induction false} TypesAndNames(n: string, t: FieldType)
    requires !t.MessageT? && !t.UndefinedT?
    ensures TypeOf(n) == t <==> n == NameOf(t)
    ensures TypeOf(n) == MessageT <==> forall u: FieldType :: !u.MessageT? && !u.UndefinedT? ==> n != NameOf(u)
  {
    TypeOfName(t);
    NameOfType(n);
    forall u: FieldType | !u.MessageT? && !u.UndefinedT? && TypeOf(n) == MessageT ensures n != NameOf(u) {
      TypeOfName(u);
    }
  }

  /** How many fields have no identifier. */
  function AutoCount(fields: seq<FieldDecl>): (n: nat) {
    if fields == [] then 0
    else AutoCount(fields[..|fields| - 1]) + if Explicit(fields[|fields| - 1]) then 0 else 1
  }

  function LastId(f: FieldDecl): (id: nat)
    requires Explicit(f)
  {
    f.ids[|f.ids| - 1]
  }

  /** The last identifier given, or the number of fields without one so far. */
  function ProducedId(fields: seq<FieldDecl>, i: nat): (id: nat)
    requires i < |fields|
  {
    if Explicit(fields[i]) then LastId(fields[i]) else AutoCount(fields[..i + 1])
  }

  /** The places before n of fields without identifier. */
  ghost function Unnumbered(fields: seq<FieldDecl>, n: nat): (places: set<int>)
    requires n <= |fields|
  {
    set j | 0 <= j < n && fields[j].ids == []
  }

  lemma {:induction false} UnnumberedStep(fields: seq<FieldDecl>, n: nat)
    requires n < |fields|
    ensures |Unnumbered(fields, n + 1)| == |Unnumbered(fields, n)| + if fields[n].ids == [] then 1 else 0
  {
    var before, after := Unnumbered(fields, n), Unnumbered(fields, n + 1);
    if fields[n].ids == [] {
      assert after == before + {n};
    } else {
      assert after == before;
    }
  }

  lemma {:induction false} AutoIsCount(fields: seq<FieldDecl>, n: nat)
    requires n <= |fields|
    ensures AutoCount(fields[..n]) == |Unnumbered(fields, n)|
  {
    if n == 0 {
      assert Unnumbered(fields, 0) == {};
    } else {
      AutoIsCount(fields, n - 1);
      AutoCountStep(fields, n - 1);
      UnnumberedStep(fields, n - 1);
    }
  }

  /** A field gets its last identifier, or else its number among the fields that have none. */
  lemma {:induction false} ProducedMeaning(fields: seq<FieldDecl>, i: nat)
    requires i < |fields|
    ensures fields[i].ids != [] ==> ProducedId(fields, i) == fields[i].ids[|fields[i].ids| - 1]
    ensures fields[i].ids == [] ==> ProducedId(fields, i) == |Unnumbered(fields, i + 1)|
  {
    AutoIsCount(fields, i + 1);
  }

  ghost predicate DescribesField(meta: MetaField, fields: seq<FieldDecl>, i: nat)
    requires i < |fields|
  {
    && meta.name == fields[i].name && meta.typeName == fields[i].typeName
    && meta.fieldType == TypeOf(fields[i].typeName) && meta.id == ProducedId(fields, i)
  }

  ghost predicate Describes(mm: MetaMessage, m: MessageDecl) {
    && mm.name == m.name && mm.id == m.id && |mm.fields| == |m.fields|
    && forall i :: 0 <= i < |m.fields| ==> DescribesField(mm.fields[i], m.fields, i)
  }

  method CreateMetaMessage(m: MessageDecl) returns (mm: MetaMessage)
    ensures Describes(mm, m)
  {
    var counter: nat := 0;
    var metas: seq<MetaField> := [];
    for i := 0 to |m.fields|
      invariant counter == AutoCount(m.fields[..i]) && |metas| == i
      invariant forall k :: 0 <= k < i ==> DescribesField(metas[k], m.fields, k)
    {
      var f := m.fields[i];
      assert m.fields[..i + 1][..i] == m.fields[..i];
      if f.ids == [] {
        counter := counter + 1;
      }
      var id := if f.ids != [] then f.ids[|f.ids| - 1] else counter;
      metas := metas + [MetaField(TypeOf(f.typeName), f.typeName, f.name, id)];
    }
    mm := MetaMessage(m.name, m.id, metas);
  }

  ghost predicate DistinctProduced(fields: seq<FieldDecl>) {
    forall i, j :: 0 <= i < j < |fields| ==> ProducedId(fields, i) != ProducedId(fields, j)
  }

  lemma {:induction false} AutoCountStep(fields: seq<FieldDecl>, i: nat)
    requires i < |fields|
    ensures AutoCount(fields[..i + 1]) == AutoCount(fields[..i]) + if Explicit(fields[i]) then 0 else 1
  {
    assert fields[..i + 1][..i] == fields[..i];
  }

  lemma {:induction false} AutoCountGrows(fields: seq<FieldDecl>, i: nat, j: nat)
    requires i <= j <= |fields|
    ensures AutoCount(fields[..i]) <= AutoCount(fields[..j])
    decreases j - i
  {
    if i < j {
      AutoCountGrows(fields, i, j - 1);
      AutoCountStep(fields, j - 1);
    }
  }

  /** Every number up to the count is given to some field. */
  lemma {:induction false} AutoAt(fields: seq<FieldDecl>, v: int) returns (i: nat)
    requires 1 <= v <= AutoCount(fields)
    ensures i < |fields| && !Explicit(fields[i]) && ProducedId(fields, i) == v
  {
    var n := |fields| - 1;
    var front := fields[..n];
    if v <= AutoCount(front) {
      i := AutoAt(front, v);
      assert front[..i + 1] == fields[..i + 1];
    } else {
      i := n;
      assert fields[..n + 1] == fields;
    }
  }

  /** Identifiers that count: the last one of a field, wherever it has any. */
  ghost predicate NoClash(fields: seq<FieldDecl>) {
    && (forall i, j :: 0 <= i < j < |fields| && Explicit(fields[i]) && Explicit(fields[j]) ==>
          LastId(fields[i]) != LastId(fields[j]))
    && forall i :: 0 <= i < |fields| && Explicit(fields[i]) ==>
         LastId(fields[i]) < 1 || AutoCount(fields) < LastId(fields[i])
  }

  lemma {:induction false} AutoRange(fields: seq<FieldDecl>, i: nat)
    requires i < |fields| && !Explicit(fields[i])
    ensures 1 <= ProducedId(fields, i) <= AutoCount(fields)
  {
    AutoCountStep(fields, i);
    AutoCountGrows(fields, i + 1, |fields|);
    assert fields[..|fields|] == fields;
  }

  lemma {:induction false} PairDistinct(fields: seq<FieldDecl>, i: nat, j: nat)
    requires NoClash(fields) && i < j < |fields|
    ensures ProducedId(fields, i) != ProducedId(fields, j)
  {
    if !Explicit(fields[i]) { AutoRange(fields, i); }
    if !Explicit(fields[j]) {
      AutoRange(fields, j);
      AutoCountGrows(fields, i + 1, j);
      AutoCountStep(fields, j);
    }
  }

  lemma {:induction false} ClashShows(fields: seq<FieldDecl>, i: nat)
    requires i < |fields| && Explicit(fields[i]) && 1 <= LastId(fields[i]) <= AutoCount(fields)
    ensures !DistinctProduced(fields)
  {
    var k := AutoAt(fields, LastId(fields[i]));
    assert ProducedId(fields, i) == ProducedId(fields, k);
    assert k < i || i < k;
  }

  /**
    * The fields of a message get distinct identifiers exactly when the given ones differ and
    * none of them is a number that a field without one receives.
    */
  lemma {:induction false} DistinctIffNoClash(fields: seq<FieldDecl>)
    ensures DistinctProduced(fields) <==> NoClash(fields)
  {
    if NoClash(fields) {
      forall i, j | 0 <= i < j < |fields| ensures ProducedId(fields, i) != ProducedId(fields, j) {
        PairDistinct(fields, i, j);
      }
    }
    if DistinctProduced(fields) {
      forall i, j | 0 <= i < j < |fields| && Explicit(fields[i]) && Explicit(fields[j])
        ensures LastId(fields[i]) != LastId(fields[j])
      {
        assert ProducedId(fields, i) != ProducedId(fields, j);
      }
      forall i | 0 <= i < |fields| && Explicit(fields[i])
        ensures LastId(fields[i]) < 1 || AutoCount(fields) < LastId(fields[i])
      {
        if 1 <= LastId(fields[i]) <= AutoCount(fields) { ClashShows(fields, i); }
      }
    }
  }

  /** Fields that all have one identifier, or all have none. */
  ghost predicate Uniform(fields: seq<FieldDecl>) {
    (forall f :: f in fields ==> |f.ids| == 1) || (forall f :: f in fields ==> f.ids == [])
  }

  lemma {:induction false} NoneAuto(fields: seq<FieldDecl>)
    requires forall f :: f in fields ==> Explicit(f)
    ensures AutoCount(fields) == 0
  {
    if fields != [] {
      NoneAuto(fields[..|fields| - 1]);
      assert fields[|fields| - 1] in fields;
    }
  }

  /** In an accepted message that is uniform, the pass has done enough. */
  lemma {:induction false} AcceptedIsDistinct(fields: seq<FieldDecl>)
    requires UniqueFields(fields) && Uniform(fields)
    ensures DistinctProduced(fields)
  {
    assert forall i :: 0 <= i < |fields| ==> fields[i] in fields;
    if forall f :: f in fields ==> |f.ids| == 1 {
      NoneAuto(fields);
      assert NoClash(fields) by {
        assert forall i :: 0 <= i < |fields| ==> LastId(fields[i]) == fields[i].ids[0];
      }
    }
    DistinctIffNoClash(fields);
  }

  /** Otherwise it has not: a mixture, and a field with two identifiers. */
  lemma {:induction false} AcceptedButClashing()
    ensures var mixed := [FieldDecl("bool", [97], []), FieldDecl("bool", [98], [1])];
            UniqueFields(mixed) && !DistinctProduced(mixed)
    ensures var twice := [FieldDecl("bool", [97], [1, 2]), FieldDecl("bool", [98], [2])];
            UniqueFields(twice) && !DistinctProduced(twice)
  {
    var mixed := [FieldDecl("bool", [97], []), FieldDecl("bool", [98], [1])];
    assert mixed[..0 + 1] == [mixed[0]];
    assert AutoCount([mixed[0]]) == AutoCount([]) + 1;
    assert ProducedId(mixed, 0) == ProducedId(mixed, 1);
    var twice := [FieldDecl("bool", [97], [1, 2]), FieldDecl("bool", [98], [2])];
    assert ProducedId(twice, 0) == ProducedId(twice, 1);
  }
}
