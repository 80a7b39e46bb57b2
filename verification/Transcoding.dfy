/**
  * The wire formats together: a message specification, a new generic message made from it as
  * the receiver, and any chain of encodings in between.
  */
module Transcoding {
  import opened Bytes
  import opened Messages
  import opened Schema
  import opened GenericMessages
  import Proto
  import ProtoMessages
  import MsgPackRoundTrip
  import MsgPackMessages
  import LcmMessages

  // ---------------------------------------------------------------- from declarations to specifications

  /** Identifiers below 2^29 and names, both without repetition. */
  ghost predicate Proper(fields: seq<MetaField>) {
    && DifferentFieldIds(fields)
    && (forall i, j :: 0 <= i < j < |fields| ==> fields[i].name != fields[j].name)
    && forall f :: f in fields ==> f.id < Proto.MAX_IDS
  }

  ghost predicate ProperScope(scope: Scope) {
    forall n :: n in scope ==> Proper(scope[n].fields)
  }

  ghost predicate SmallIds(fields: seq<FieldDecl>) {
    forall i :: 0 <= i < |fields| ==> ProducedId(fields, i) < Proto.MAX_IDS
  }

  /**
    * A message that the uniqueness pass accepts becomes a specification that the formats can
    * carry exactly when its numbering does not clash and stays below 2^29.
    */
  lemma {:induction false} AcceptedIsProper(m: MessageDecl, mm: MetaMessage)
    requires UniqueFields(m.fields) && Describes(mm, m)
    ensures Proper(mm.fields) <==> NoClash(m.fields) && SmallIds(m.fields)
  {
    var metas := mm.fields;
    DistinctIffNoClash(m.fields);
    assert forall i :: 0 <= i < |metas| ==> DescribesField(metas[i], m.fields, i);
    if Proper(metas) {
      forall i | 0 <= i < |metas| ensures ProducedId(m.fields, i) < Proto.MAX_IDS { assert metas[i] in metas; }
      forall i, j | 0 <= i < j < |metas| ensures ProducedId(m.fields, i) != ProducedId(m.fields, j) {
        assert metas[i].id != metas[j].id;
      }
    }
  }

  // ---------------------------------------------------------------- instances of one specification

  /** Two instances of a specification differ in their values only. */
  lemma {:induction false} InstancesAreAlike(a: seq<Field>, b: seq<Field>, fields: seq<MetaField>, scope: Scope)
    requires Instance(a, fields, scope) && Instance(b, fields, scope)
    ensures SameShape(a, b)
    decreases a, 1
  {
    var vis := Visible(fields, scope);
    forall i | 0 <= i < |a| ensures SameType(a[i].value, b[i].value) {
      ValuesAreAlike(a[i].value, b[i].value, vis[i], scope);
    }
  }

  lemma {:induction false} ValuesAreAlike(v: Value, w: Value, f: MetaField, scope: Scope)
    requires IsOfType(v, f, scope) && IsOfType(w, f, scope)
    ensures SameType(v, w)
    decreases v, 0
  {
    if f.fieldType.MessageT? {
      InstancesAreAlike(v.fields, w.fields, scope[f.typeName].fields, scope);
    }
  }

  lemma {:induction false} ProperCons(first: seq<MetaField>, rest: seq<MetaField>)
    requires |first| <= 1 && Proper(first) && Proper(rest)
    requires forall f, g :: f in first && g in rest ==> f.id != g.id && f.name != g.name
    ensures Proper(first + rest)
  {
    var all := first + rest;
    forall i, j | 0 <= i < j < |all| ensures all[i].id != all[j].id && all[i].name != all[j].name {
      if i < |first| {
        assert all[i] in first && all[j] == rest[j - |first|];
      } else {
        assert all[i] == rest[i - |first|] && all[j] == rest[j - |first|];
      }
    }
  }

  lemma {:induction false} ProperTail(fields: seq<MetaField>)
    requires fields != [] && Proper(fields)
    ensures Proper(fields[1..]) && fields[0].id < Proto.MAX_IDS
    ensures forall g :: g in fields[1..] ==> g.id != fields[0].id && g.name != fields[0].name
  {
    assert fields[0] in fields;
    forall g | g in fields[1..] ensures g.id != fields[0].id && g.name != fields[0].name {
      var i :| 0 <= i < |fields| - 1 && fields[1..][i] == g;
      assert fields[i + 1] == g;
    }
  }

  lemma {:induction false} VisibleProper(fields: seq<MetaField>, scope: Scope)
    requires Proper(fields)
    ensures Proper(Visible(fields, scope))
  {
    if fields != [] {
      ProperTail(fields);
      VisibleProper(fields[1..], scope);
      ProperCons(if Present(fields[0], scope) then [fields[0]] else [], Visible(fields[1..], scope));
    }
  }

  /** A proper specification makes proper messages. */
  lemma {:induction false} InstanceIsProper(message: seq<Field>, fields: seq<MetaField>, scope: Scope)
    requires Instance(message, fields, scope) && Proper(fields) && ProperScope(scope)
    ensures DistinctIds(message) && DistinctNames(message) && ProtoMessages.IdsFit(message)
    decreases message
  {
    var vis := Visible(fields, scope);
    VisibleProper(fields, scope);
    forall f | f in message
      ensures f.id < Proto.MAX_IDS
      ensures f.value.MessageV? ==>
                DistinctIds(f.value.fields) && DistinctNames(f.value.fields) && ProtoMessages.IdsFit(f.value.fields)
    {
      var i :| 0 <= i < |message| && message[i] == f;
      assert vis[i] in vis && IsOfType(f.value, vis[i], scope);
      if f.value.MessageV? {
        InstanceIsProper(f.value.fields, scope[vis[i].typeName].fields, scope);
      }
    }
  }

  // ---------------------------------------------------------------- chains of formats

  datatype Format = Protobuf | MessagePack | Lcm

  function Encode(format: Format, message: seq<Field>): (b: bytes) {
    match format
    case Protobuf => ProtoMessages.Encode(message)
    case MessagePack => MsgPackMessages.Encode(message)
    case Lcm => LcmMessages.Encode(message)
  }

  /** Decoding and visiting a message that already has values. */
  function DecodeInto(format: Format, target: seq<Field>, b: bytes): (message: seq<Field>) {
    match format
    case Protobuf => ProtoMessages.DecodeInto(target, b)
    case MessagePack => MsgPackMessages.DecodeInto(target, b)
    case Lcm => LcmMessages.AcceptFields(LcmMessages.Start(b), target)
  }

  /** A new generic message is visited by a decoder. */
  function Receive(format: Format, empty: Generic, b: bytes): (g: Generic) {
    Filled(empty, DecodeInto(format, Seen(empty), b))
  }

  /** Passing a message on from format to format, each time into a new generic message. */
  function Relay(formats: seq<Format>, empty: Generic, g: Generic): (h: Generic)
    decreases |formats|
  {
    if formats == [] then g
    else Relay(formats[1..], empty, Receive(formats[0], empty, Encode(formats[0], Seen(g))))
  }

  /** The limits of a format on values, as opposed to specifications. */
  ghost predicate SmallEnough(format: Format, message: seq<Field>) {
    match format
    case Protobuf => |ProtoMessages.Encode(message)| < TWO64
    case MessagePack =>
      MsgPackRoundTrip.Clean(MsgPackMessages.Pack(message)) && MsgPackRoundTrip.Sized(MsgPackMessages.Pack(message))
    case Lcm => LcmMessages.ShortTexts(message)
  }

  /** What a format finds fields by: identifiers below 2^29, names, or nothing but their order. */
  ghost predicate Distinguished(format: Format, message: seq<Field>) {
    match format
    case Protobuf => DistinctIds(message) && ProtoMessages.IdsFit(message)
    case MessagePack => DistinctNames(message)
    case Lcm => true
  }

  ghost predicate Within(format: Format, message: seq<Field>) {
    Distinguished(format, message) && SmallEnough(format, message)
  }

  /** For messages of proper specifications only the limits on values remain. */
  lemma {:induction false} ProperIsDistinguished(format: Format, message: seq<Field>, fields: seq<MetaField>, scope: Scope)
    requires Instance(message, fields, scope) && Proper(fields) && ProperScope(scope)
    ensures Within(format, message) <==> SmallEnough(format, message)
  {
    InstanceIsProper(message, fields, scope);
  }

  /** A message that every format of a chain can carry; the others do not matter. */
  ghost predicate WithinAll(formats: seq<Format>, message: seq<Field>) {
    forall format :: format in formats ==> Within(format, message)
  }

  ghost predicate Sound(mm: MetaMessage, scope: Scope, ranks: Ranks, k: nat) {
    Ranked(mm.fields, scope, ranks, k) && DifferentFieldIds(mm.fields) && DifferentScope(scope)
  }

  lemma {:induction false} OneFormat(format: Format, target: seq<Field>, message: seq<Field>)
    requires SameShape(target, message) && ValidFields(message) && Within(format, message)
    ensures DecodeInto(format, target, Encode(format, message)) == message
  {
    match format
    case Protobuf => ProtoMessages.RoundTrip(target, message);
    case MessagePack => MsgPackMessages.RoundTrip(target, message);
    case Lcm => LcmMessages.AcceptTwice(message, target, target);
  }

  /** A message received by a new generic message of its specification is seen there. */
  lemma {:induction false} ReceivedIsSeen(format: Format, mm: MetaMessage, scope: Scope, ranks: Ranks, k: nat, message: seq<Field>)
    requires Sound(mm, scope, ranks, k) && Instance(message, mm.fields, scope)
    requires ValidFields(message) && Within(format, message)
    ensures Seen(Receive(format, Create(mm, scope, ranks, k), Encode(format, message))) == message
  {
    var empty := Create(mm, scope, ranks, k);
    NewMessageIsInstance(mm, scope, ranks, k);
    InstancesAreAlike(Seen(empty), message, mm.fields, scope);
    OneFormat(format, Seen(empty), message);
    CreatedDistinct(mm, scope, ranks, k);
    FilledIsSeen(empty, message);
  }

  /**
    * For every sound specification, every chain of formats, and every message of the
    * specification that is within the limits of the formats in that chain: the message arrives in a new generic message at the end of the chain as it was
    * at its start.
    */
  lemma {:induction false} RelayIsIdentity(formats: seq<Format>, mm: MetaMessage, scope: Scope, ranks: Ranks, k: nat, g: Generic)
    requires Sound(mm, scope, ranks, k) && Instance(Seen(g), mm.fields, scope)
    requires ValidFields(Seen(g)) && WithinAll(formats, Seen(g))
    ensures Seen(Relay(formats, Create(mm, scope, ranks, k), g)) == Seen(g)
    decreases |formats|
  {
    if formats != [] {
      var empty := Create(mm, scope, ranks, k);
      assert formats[0] in formats;
      ReceivedIsSeen(formats[0], mm, scope, ranks, k, Seen(g));
      RelayIsIdentity(formats[1..], mm, scope, ranks, k, Receive(formats[0], empty, Encode(formats[0], Seen(g))));
    }
  }

  /**
    * Bytes that one format's encoder has produced are produced again after decoding them,
    * relaying the message through any other formats, and encoding it.
    */
  lemma {:induction false} TranscodingIsIdentity(
      format: Format, through: seq<Format>, mm: MetaMessage, scope: Scope, ranks: Ranks, k: nat, message: seq<Field>)
    requires Sound(mm, scope, ranks, k) && Instance(message, mm.fields, scope)
    requires ValidFields(message) && WithinAll([format] + through, message)
    ensures var empty, b := Create(mm, scope, ranks, k), Encode(format, message);
            Encode(format, Seen(Relay(through, empty, Receive(format, empty, b)))) == b
  {
    var empty, b := Create(mm, scope, ranks, k), Encode(format, message);
    assert format in [format] + through;
    ReceivedIsSeen(format, mm, scope, ranks, k, message);
    RelayIsIdentity(through, mm, scope, ranks, k, Receive(format, empty, b));
  }
}
