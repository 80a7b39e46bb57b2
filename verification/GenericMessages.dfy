/**
  * Messages whose type is known at run time only: a generic message is created from a message
  * specification and a scope that resolves the types of its fields.
  */
module GenericMessages {
  import opened Bytes
  import opened Messages
  import opened Schema

  /** Values by field identifier; nested messages are generic messages again. */
  datatype Stored = Plain(v: Value) | Nested(g: Generic)
  datatype Generic = Generic(meta: MetaMessage, values: map<nat, Stored>)

  type Scope = map<string, MetaMessage>
  type Ranks = map<string, nat>

  /** Later declarations of a name replace earlier ones. */
  function ScopeOf(messages: seq<MetaMessage>): (scope: Scope) {
    if messages == [] then map[]
    else
      var last := messages[|messages| - 1];
      ScopeOf(messages[..|messages| - 1])[last.name := last]
  }

  lemma {:induction false} ScopeStep(messages: seq<MetaMessage>, k: nat)
    requires k < |messages|
    ensures ScopeOf(messages[..k + 1]) == ScopeOf(messages[..k])[messages[k].name := messages[k]]
  {
    assert messages[..k + 1][..k] == messages[..k];
  }

  /** A name that nothing declares again keeps its meaning. */
  lemma {:induction false} ScopeKeeps(messages: seq<MetaMessage>, i: nat, k: nat, n: string)
    requires i <= k <= |messages| && forall j :: i <= j < k ==> messages[j].name != n
    ensures n in ScopeOf(messages[..k]) <==> n in ScopeOf(messages[..i])
    ensures n in ScopeOf(messages[..i]) ==> ScopeOf(messages[..k])[n] == ScopeOf(messages[..i])[n]
    decreases k
  {
    if i < k {
      ScopeKeeps(messages, i, k - 1, n);
      ScopeStep(messages, k - 1);
    }
  }

  /** The scope knows every name declared, by its last declaration. */
  lemma {:induction false} ScopeMeaning(messages: seq<MetaMessage>, i: nat)
    requires i < |messages|
    requires forall j :: i < j < |messages| ==> messages[j].name != messages[i].name
    ensures messages[i].name in ScopeOf(messages) && ScopeOf(messages)[messages[i].name] == messages[i]
  {
    ScopeStep(messages, i);
    ScopeKeeps(messages, i + 1, |messages|, messages[i].name);
    assert messages[..|messages|] == messages;
  }

  /** And no other name. */
  lemma {:induction false} UnknownName(messages: seq<MetaMessage>, n: string)
    requires forall j :: 0 <= j < |messages| ==> messages[j].name != n
    ensures n !in ScopeOf(messages)
  {
    ScopeKeeps(messages, 0, |messages|, n);
    assert messages[..|messages|] == messages && messages[..0] == [];
  }

  // ---------------------------------------------------------------- acyclic scopes

  predicate Refers(f: MetaField, scope: Scope) {
    f.fieldType.MessageT? && f.typeName in scope
  }

  /** Fields only refer to messages of lower rank. */
  ghost predicate Below(fields: seq<MetaField>, scope: Scope, ranks: Ranks, k: nat) {
    forall f :: f in fields && Refers(f, scope) ==> f.typeName in ranks && ranks[f.typeName] < k
  }

  /** The messages that have a rank only lead to messages of lower rank. */
  ghost predicate Acyclic(scope: Scope, ranks: Ranks) {
    forall n :: n in scope && n in ranks ==> Below(scope[n].fields, scope, ranks, ranks[n])
  }

  ghost predicate Ranked(fields: seq<MetaField>, scope: Scope, ranks: Ranks, k: nat) {
    Acyclic(scope, ranks) && Below(fields, scope, ranks, k)
  }

  /** Creation that nests at most d calls deep. */
  ghost predicate Ends(fields: seq<MetaField>, scope: Scope, d: nat)
    decreases d
  {
    forall f :: f in fields && Refers(f, scope) ==> d > 0 && Ends(scope[f.typeName].fields, scope, d - 1)
  }

  lemma {:induction false} EndsEarlier(fields: seq<MetaField>, scope: Scope, d: nat, e: nat)
    requires Ends(fields, scope, d) && d <= e
    ensures Ends(fields, scope, e)
    decreases d
  {
    forall f | f in fields && Refers(f, scope) ensures e > 0 && Ends(scope[f.typeName].fields, scope, e - 1) {
      EndsEarlier(scope[f.typeName].fields, scope, d - 1, e - 1);
    }
  }

  ghost predicate IsDepth(fields: seq<MetaField>, scope: Scope, d: nat) {
    Ends(fields, scope, d) && (d > 0 ==> !Ends(fields, scope, d - 1))
  }

  lemma {:induction false} DepthExists(fields: seq<MetaField>, scope: Scope, d: nat) returns (e: nat)
    requires Ends(fields, scope, d)
    ensures IsDepth(fields, scope, e) && e <= d
  {
    if d > 0 && Ends(fields, scope, d - 1) {
      e := DepthExists(fields, scope, d - 1);
    } else {
      e := d;
    }
  }

  lemma {:induction false} OneDepth(fields: seq<MetaField>, scope: Scope, d: nat, e: nat)
    requires IsDepth(fields, scope, d) && IsDepth(fields, scope, e)
    ensures d == e
  {
    if d < e { EndsEarlier(fields, scope, d, e - 1); }
    if e < d { EndsEarlier(fields, scope, e, d - 1); }
  }

  ghost predicate HasDepth(n: string, scope: Scope)
    requires n in scope
  {
    exists d: nat :: IsDepth(scope[n].fields, scope, d)
  }

  ghost function Depth(n: string, scope: Scope): (d: nat)
    requires n in scope && HasDepth(n, scope)
    ensures IsDepth(scope[n].fields, scope, d)
  {
    var d: nat :| IsDepth(scope[n].fields, scope, d); d
  }

  /** The depths of all messages whose creation ends. */
  ghost function Depths(scope: Scope): (ranks: Ranks) {
    map n | n in scope && HasDepth(n, scope) :: Depth(n, scope)
  }

  lemma {:induction false} EndsBelow(fields: seq<MetaField>, scope: Scope, d: nat)
    requires Ends(fields, scope, d)
    ensures Below(fields, scope, Depths(scope), d)
  {
    forall f | f in fields && Refers(f, scope)
      ensures f.typeName in Depths(scope) && Depths(scope)[f.typeName] < d
    {
      var e := DepthExists(scope[f.typeName].fields, scope, d - 1);
      OneDepth(scope[f.typeName].fields, scope, e, Depth(f.typeName, scope));
    }
  }

  lemma {:induction false} BelowEnds(fields: seq<MetaField>, scope: Scope, ranks: Ranks, k: nat)
    requires Ranked(fields, scope, ranks, k)
    ensures Ends(fields, scope, k)
    decreases k
  {
    forall f | f in fields && Refers(f, scope) ensures k > 0 && Ends(scope[f.typeName].fields, scope, k - 1) {
      var l := ranks[f.typeName];
      BelowEnds(scope[f.typeName].fields, scope, ranks, l);
      EndsEarlier(scope[f.typeName].fields, scope, l, k - 1);
    }
  }

  ghost predicate CreationEnds(fields: seq<MetaField>, scope: Scope) {
    exists d: nat :: Ends(fields, scope, d)
  }

  ghost predicate SomehowRanked(fields: seq<MetaField>, scope: Scope) {
    exists ranks: Ranks, k: nat :: Ranked(fields, scope, ranks, k)
  }

  lemma {:induction false} DepthsRank(fields: seq<MetaField>, scope: Scope, d: nat)
    requires Ends(fields, scope, d)
    ensures Ranked(fields, scope, Depths(scope), d)
  {
    var ranks := Depths(scope);
    EndsBelow(fields, scope, d);
    forall n | n in scope && n in ranks ensures Below(scope[n].fields, scope, ranks, ranks[n]) {
      EndsBelow(scope[n].fields, scope, ranks[n]);
    }
  }

  /** Creation ends, at some depth, exactly when ranks show that what it meets is acyclic. */
  lemma {:induction false} EndsIffAcyclic(fields: seq<MetaField>, scope: Scope)
    ensures CreationEnds(fields, scope) <==> SomehowRanked(fields, scope)
  {
    if CreationEnds(fields, scope) {
      var d: nat :| Ends(fields, scope, d);
      DepthsRank(fields, scope, d);
    }
    if SomehowRanked(fields, scope) {
      var ranks: Ranks, k: nat :| Ranked(fields, scope, ranks, k);
      BelowEnds(fields, scope, ranks, k);
    }
  }

  /** Names of messages, each referred to by a field of the one before. */
  ghost predicate Walk(fields: seq<MetaField>, scope: Scope, names: seq<string>)
    decreases |names|
  {
    names == [] || (Leads(fields, scope, names[0]) && Walk(scope[names[0]].fields, scope, names[1..]))
  }

  ghost predicate Leads(fields: seq<MetaField>, scope: Scope, name: string) {
    exists f :: f in fields && Refers(f, scope) && f.typeName == name
  }

  ghost predicate Repeats(names: seq<string>) {
    exists i, j :: 0 <= i < j < |names| && names[i] == names[j]
  }

  /** Some walk comes back to a message it has already met. */
  ghost predicate Cyclic(fields: seq<MetaField>, scope: Scope) {
    exists names :: Walk(fields, scope, names) && Repeats(names)
  }

  lemma {:induction false} WalkInside(fields: seq<MetaField>, scope: Scope, names: seq<string>, i: nat)
    requires Walk(fields, scope, names) && i < |names|
    ensures names[i] in scope && Walk(scope[names[i]].fields, scope, names[i + 1..])
    decreases |names|
  {
    if i > 0 {
      WalkInside(scope[names[0]].fields, scope, names[1..], i - 1);
      assert names[1..][i..] == names[i + 1..];
    }
  }

  /** Along a walk the depth falls. */
  lemma {:induction false} DepthFalls(fields: seq<MetaField>, scope: Scope, names: seq<string>, d: nat, i: nat)
    requires Walk(fields, scope, names) && Ends(fields, scope, d) && i < |names|
    ensures names[i] in scope && d > 0 && Ends(scope[names[i]].fields, scope, d - 1)
    decreases |names|
  {
    var f :| f in fields && Refers(f, scope) && f.typeName == names[0];
    if i > 0 {
      DepthFalls(scope[names[0]].fields, scope, names[1..], d - 1, i - 1);
      EndsEarlier(scope[names[i]].fields, scope, d - 2, d - 1);
    }
  }

  /** A cycle that can be reached is never left. */
  lemma {:induction false} CycleNeverEnds(fields: seq<MetaField>, scope: Scope, names: seq<string>, d: nat)
    requires Walk(fields, scope, names) && Repeats(names)
    ensures !Ends(fields, scope, d)
  {
    if Ends(fields, scope, d) {
      var i, j :| 0 <= i < j < |names| && names[i] == names[j];
      DepthFalls(fields, scope, names, d, i);
      WalkInside(fields, scope, names, i);
      var again := scope[names[i]].fields;
      var e := DepthExists(again, scope, d - 1);
      assert names[i + 1..][j - i - 1] == names[j];
      DepthFalls(again, scope, names[i + 1..], e, j - i - 1);
    }
  }

  lemma {:induction false} LongWalk(fields: seq<MetaField>, scope: Scope, d: nat) returns (names: seq<string>)
    requires !Ends(fields, scope, d)
    ensures Walk(fields, scope, names) && |names| == d + 1
    decreases d
  {
    var f :| f in fields && Refers(f, scope) && (d == 0 || !Ends(scope[f.typeName].fields, scope, d - 1));
    var rest := [];
    if d > 0 {
      rest := LongWalk(scope[f.typeName].fields, scope, d - 1);
    }
    names := [f.typeName] + rest;
    assert names[1..] == rest;
  }

  /** Without repetition a walk is no longer than the scope has messages. */
  lemma {:induction false} ManyNames(names: seq<string>, known: set<string>)
    requires (forall i :: 0 <= i < |names| ==> names[i] in known) && !Repeats(names)
    ensures |names| <= |known|
    decreases |names|
  {
    if names != [] {
      var n := |names| - 1;
      var front := names[..n];
      forall i | 0 <= i < n ensures front[i] in known - {names[n]} {
        assert front[i] == names[i] != names[n];
      }
      assert forall i, j :: 0 <= i < j < n ==> front[i] == names[i] && front[j] == names[j];
      ManyNames(front, known - {names[n]});
    }
  }

  /**
    * Creation ends exactly when no walk comes back to a message, and then it nests no deeper
    * than the scope has messages.
    */
  lemma {:induction false} EndsIffNoCycle(fields: seq<MetaField>, scope: Scope)
    ensures CreationEnds(fields, scope) <==> !Cyclic(fields, scope)
    ensures CreationEnds(fields, scope) <==> Ends(fields, scope, |scope|)
  {
    if Cyclic(fields, scope) {
      var names :| Walk(fields, scope, names) && Repeats(names);
      forall d: nat ensures !Ends(fields, scope, d) {
        CycleNeverEnds(fields, scope, names, d);
      }
    } else if !Ends(fields, scope, |scope|) {
      var names := LongWalk(fields, scope, |scope|);
      forall i | 0 <= i < |names| ensures names[i] in scope.Keys {
        WalkInside(fields, scope, names, i);
      }
      ManyNames(names, scope.Keys);
    }
  }

  // ---------------------------------------------------------------- creation

  /** Fields that receive a value. */
  predicate Present(f: MetaField, scope: Scope) {
    !f.fieldType.UndefinedT? && (f.fieldType.MessageT? ==> f.typeName in scope)
  }

  function ZeroScalar(t: FieldType): (v: Value)
    requires !t.MessageT? && !t.UndefinedT?
  {
    match t
    case BoolT => BoolV(false)
    case CharT => CharV(0)
    case IntT(w) => IntV(w, 0)
    case UIntT(w) => UIntV(w, 0)
    case FloatT => FloatV(0)
    case DoubleT => DoubleV(0)
    case StringT => TextV([])
    case BytesT => TextV([])
  }

  function Zero(f: MetaField, scope: Scope, ghost ranks: Ranks, ghost k: nat): (s: Stored)
    requires Present(f, scope) && Ranked([f], scope, ranks, k)
    decreases k, 0
  {
    if f.fieldType.MessageT? then
      assert f in [f];
      Nested(Create(scope[f.typeName], scope, ranks, ranks[f.typeName]))
    else Plain(ZeroScalar(f.fieldType))
  }

  function Values(fields: seq<MetaField>, scope: Scope, ghost ranks: Ranks, ghost k: nat): (m: map<nat, Stored>)
    requires Ranked(fields, scope, ranks, k)
    decreases k, |fields|
  {
    if fields == [] then map[]
    else
      var f := fields[|fields| - 1];
      var m := Values(fields[..|fields| - 1], scope, ranks, k);
      if Present(f, scope) then m[f.id := Zero(f, scope, ranks, k)] else m
  }

  function Create(mm: MetaMessage, scope: Scope, ghost ranks: Ranks, ghost k: nat): (g: Generic)
    requires Ranked(mm.fields, scope, ranks, k)
    decreases k, |mm.fields| + 1
  {
    Generic(mm, Values(mm.fields, scope, ranks, k))
  }

  class GenericMessage {
    var metaMessage: MetaMessage
    var scopeOfMetaMessages: seq<MetaMessage>
    var mapForScope: Scope
    var values: map<nat, Stored>

    constructor ()
    {
      metaMessage, scopeOfMetaMessages, mapForScope, values := MetaMessage("", 0, []), [], map[], map[];
    }

    function View(): (g: Generic)
      reads this
    {
      Generic(metaMessage, values)
    }

    method ResolveScope(messages: seq<MetaMessage>)
      modifies this`scopeOfMetaMessages, this`mapForScope
      ensures scopeOfMetaMessages == messages && mapForScope == ScopeOf(messages)
    {
      scopeOfMetaMessages := messages;
      mapForScope := map[];
      for i := 0 to |messages|
        invariant mapForScope == ScopeOf(messages[..i]) && scopeOfMetaMessages == messages
      {
        assert messages[..i + 1][..i] == messages[..i];
        mapForScope := mapForScope[messages[i].name := messages[i]];
      }
      assert messages[..|messages|] == messages;
    }

    /** The zero value of a field that has one. */
    method CreateValue(f: MetaField, ghost ranks: Ranks, ghost k: nat) returns (s: Stored)
      requires mapForScope == ScopeOf(scopeOfMetaMessages)
      requires Present(f, mapForScope) && Ranked([f], mapForScope, ranks, k)
      ensures s == Zero(f, mapForScope, ranks, k)
      decreases k, 0
    {
      if f.fieldType.MessageT? {
        assert f in [f];
        var gm := new GenericMessage();
        gm.CreateFrom(mapForScope[f.typeName], scopeOfMetaMessages, ranks, ranks[f.typeName]);
        s := Nested(gm.View());
      } else {
        s := Plain(ZeroScalar(f.fieldType));
      }
    }

    /** Resolves the scope, then gives every field the zero value of its type. */
    method CreateFrom(mm: MetaMessage, messages: seq<MetaMessage>, ghost ranks: Ranks, ghost k: nat)
      requires Ranked(mm.fields, ScopeOf(messages), ranks, k)
      modifies this
      ensures View() == Create(mm, ScopeOf(messages), ranks, k) && ZeroMessage(Seen(View()))
      ensures scopeOfMetaMessages == messages && mapForScope == ScopeOf(messages)
      decreases k, 1
    {
      metaMessage := mm;
      ResolveScope(messages);
      values := map[];
      for i := 0 to |mm.fields|
        invariant metaMessage == mm && scopeOfMetaMessages == messages && mapForScope == ScopeOf(messages)
        invariant Ranked(mm.fields[..i], mapForScope, ranks, k)
        invariant values == Values(mm.fields[..i], mapForScope, ranks, k)
      {
        var f := mm.fields[i];
        ValuesStep(mm.fields, mapForScope, ranks, k, i);
        if Present(f, mapForScope) {
          var s := CreateValue(f, ranks, k);
          values := values[f.id := s];
        }
      }
      assert mm.fields[..|mm.fields|] == mm.fields;
      CreatedIsZero(mm, ScopeOf(messages), ranks, k);
    }
  }

  /** One field more. */
  lemma {:induction false} ValuesStep(fields: seq<MetaField>, scope: Scope, ranks: Ranks, k: nat, i: nat)
    requires Ranked(fields, scope, ranks, k) && i < |fields|
    ensures Ranked(fields[..i], scope, ranks, k) && Ranked(fields[..i + 1], scope, ranks, k)
    ensures Ranked([fields[i]], scope, ranks, k)
    ensures Values(fields[..i + 1], scope, ranks, k)
         == if Present(fields[i], scope) then Values(fields[..i], scope, ranks, k)[fields[i].id := Zero(fields[i], scope, ranks, k)]
            else Values(fields[..i], scope, ranks, k)
  {
    BelowOne(fields, scope, ranks, k, i);
    assert fields[..i + 1][..i] == fields[..i];
  }

  // ---------------------------------------------------------------- what is created

  /** Whichever ranks show that a scope is acyclic, what is created is the same. */
  lemma {:induction false} RanksDoNotMatter(fields: seq<MetaField>, scope: Scope, ranks: Ranks, k: nat, other: Ranks, l: nat)
    requires Ranked(fields, scope, ranks, k)
    requires Ranked(fields, scope, other, l)
    ensures Values(fields, scope, ranks, k) == Values(fields, scope, other, l)
    decreases k, |fields|
  {
    if fields != [] {
      var f := fields[|fields| - 1];
      assert f in fields && f in [f];
      RanksDoNotMatter(fields[..|fields| - 1], scope, ranks, k, other, l);
      if Refers(f, scope) {
        RanksDoNotMatter(scope[f.typeName].fields, scope, ranks, ranks[f.typeName], other, other[f.typeName]);
      }
      assert Present(f, scope) ==> Zero(f, scope, ranks, k) == Zero(f, scope, other, l);
    }
  }

  /** A value is stored for exactly the identifiers of the fields that can have one. */
  lemma {:induction false} CreatedDomain(fields: seq<MetaField>, scope: Scope, ranks: Ranks, k: nat, id: nat)
    requires Ranked(fields, scope, ranks, k)
    ensures id in Values(fields, scope, ranks, k) <==>
              exists i :: 0 <= i < |fields| && Present(fields[i], scope) && fields[i].id == id
  {
    if fields != [] {
      var n := |fields| - 1;
      var front := fields[..n];
      assert fields[n] in fields;
      CreatedDomain(front, scope, ranks, k, id);
      assert forall i :: 0 <= i < n ==> front[i] == fields[i];
    }
  }

  /** No later field that has a value has the same identifier. */
  ghost predicate LastOfItsId(fields: seq<MetaField>, scope: Scope, i: nat)
    requires i < |fields|
  {
    forall j :: i < j < |fields| && Present(fields[j], scope) ==> fields[j].id != fields[i].id
  }

  lemma {:induction false} BelowOne(fields: seq<MetaField>, scope: Scope, ranks: Ranks, k: nat, i: nat)
    requires Below(fields, scope, ranks, k) && i < |fields|
    ensures Below([fields[i]], scope, ranks, k)
  {
    assert fields[i] in fields;
  }

  /** The value is the zero of the last field with that identifier. */
  lemma {:induction false} CreatedValue(fields: seq<MetaField>, scope: Scope, ranks: Ranks, k: nat, i: nat)
    requires Ranked(fields, scope, ranks, k)
    requires i < |fields| && Present(fields[i], scope) && LastOfItsId(fields, scope, i)
    ensures Below([fields[i]], scope, ranks, k)
    ensures var m := Values(fields, scope, ranks, k);
            fields[i].id in m && m[fields[i].id] == Zero(fields[i], scope, ranks, k)
  {
    BelowOne(fields, scope, ranks, k, i);
    var n := |fields| - 1;
    if i < n {
      var front := fields[..n];
      assert front[i] == fields[i] && forall j :: 0 <= j < n ==> front[j] == fields[j];
      CreatedValue(front, scope, ranks, k, i);
    }
  }

  // ---------------------------------------------------------------- what visitors see

  /** Whether a value can be read as a type. */
  predicate Holds(t: FieldType, v: Value) {
    match t
    case BoolT => v.BoolV?
    case CharT => v.CharV?
    case IntT(w) => v.IntV? && v.width == w
    case UIntT(w) => v.UIntV? && v.width == w
    case FloatT => v.FloatV?
    case DoubleT => v.DoubleV?
    case StringT => v.TextV?
    case BytesT => v.TextV?
    case MessageT => v.MessageV?
    case UndefinedT => false
  }

  predicate Fits(t: FieldType, s: Stored) {
    match s
    case Plain(v) => !t.MessageT? && Holds(t, v)
    case Nested(_) => t.MessageT?
  }

  /** The fields a visitor meets, in the order of the specification. */
  function Visited(g: Generic, fields: seq<MetaField>): (r: seq<Field>)
    decreases g, |fields|
  {
    if fields == [] then []
    else
      var f := fields[0];
      var now := if f.id in g.values && Fits(f.fieldType, g.values[f.id])
                 then [Field(f.id, f.name, ToValue(g.values[f.id]))] else [];
      now + Visited(g, fields[1..])
  }

  function ToValue(s: Stored): (v: Value)
    decreases s, 0
  {
    match s
    case Plain(v) => v
    case Nested(g) => MessageV(Visited(g, g.meta.fields))
  }

  /** What a visitor of a generic message sees. */
  function Seen(g: Generic): (message: seq<Field>) {
    Visited(g, g.meta.fields)
  }

  function Visible(fields: seq<MetaField>, scope: Scope): (r: seq<MetaField>)
    ensures forall f :: f in r ==> f in fields && Present(f, scope)
  {
    if fields == [] then []
    else (if Present(fields[0], scope) then [fields[0]] else []) + Visible(fields[1..], scope)
  }

  /** A message as the specification demands it. */
  ghost predicate Instance(message: seq<Field>, fields: seq<MetaField>, scope: Scope)
    decreases message
  {
    var vis := Visible(fields, scope);
    && |message| == |vis|
    && forall i :: 0 <= i < |message| ==>
         && message[i].id == vis[i].id && message[i].name == vis[i].name
         && IsOfType(message[i].value, vis[i], scope)
  }

  ghost predicate IsOfType(v: Value, f: MetaField, scope: Scope)
    decreases v
  {
    && Holds(f.fieldType, v)
    && (f.fieldType.MessageT? ==> f.typeName in scope && Instance(v.fields, scope[f.typeName].fields, scope))
  }

  ghost predicate DifferentFieldIds(fields: seq<MetaField>) {
    forall i, j :: 0 <= i < j < |fields| ==> fields[i].id != fields[j].id
  }

  ghost predicate DifferentScope(scope: Scope) {
    forall n :: n in scope ==> DifferentFieldIds(scope[n].fields)
  }

  /** Every field of a list has its zero in the map, if it has one, and nothing otherwise. */
  ghost predicate Zeroed(g: Generic, fields: seq<MetaField>, scope: Scope, ranks: Ranks, k: nat)
    requires Ranked(fields, scope, ranks, k)
  {
    forall f :: f in fields ==>
      if Present(f, scope) then Below([f], scope, ranks, k) && f.id in g.values && g.values[f.id] == Zero(f, scope, ranks, k)
      else f.id !in g.values
  }

  lemma {:induction false} CreatedZeroed(mm: MetaMessage, scope: Scope, ranks: Ranks, k: nat)
    requires Ranked(mm.fields, scope, ranks, k) && DifferentFieldIds(mm.fields)
    ensures Zeroed(Create(mm, scope, ranks, k), mm.fields, scope, ranks, k)
  {
    var g := Create(mm, scope, ranks, k);
    forall f | f in mm.fields
      ensures if Present(f, scope) then Below([f], scope, ranks, k) && f.id in g.values && g.values[f.id] == Zero(f, scope, ranks, k)
              else f.id !in g.values
    {
      var i :| 0 <= i < |mm.fields| && mm.fields[i] == f;
      if Present(f, scope) {
        CreatedValue(mm.fields, scope, ranks, k, i);
      } else {
        CreatedDomain(mm.fields, scope, ranks, k, f.id);
      }
    }
  }

  /** The zero of a type is of that type. */
  lemma {:induction false} ZeroIsOfType(f: MetaField, scope: Scope, ranks: Ranks, k: nat)
    requires Present(f, scope) && Ranked([f], scope, ranks, k) && DifferentScope(scope)
    ensures Fits(f.fieldType, Zero(f, scope, ranks, k)) && IsOfType(ToValue(Zero(f, scope, ranks, k)), f, scope)
    decreases k, 0
  {
    if f.fieldType.MessageT? {
      assert f in [f];
      NewMessageIsInstance(scope[f.typeName], scope, ranks, ranks[f.typeName]);
    }
  }

  lemma {:induction false} InstanceCons(first: seq<Field>, rest: seq<Field>, fields: seq<MetaField>, scope: Scope)
    requires fields != [] && Instance(rest, fields[1..], scope)
    requires !Present(fields[0], scope) ==> first == []
    requires Present(fields[0], scope) ==>
               && |first| == 1 && first[0].id == fields[0].id && first[0].name == fields[0].name
               && IsOfType(first[0].value, fields[0], scope)
    ensures Instance(first + rest, fields, scope)
  {
    var all, vis := first + rest, Visible(fields, scope);
    forall i | 0 <= i < |all|
      ensures all[i].id == vis[i].id && all[i].name == vis[i].name && IsOfType(all[i].value, vis[i], scope)
    {
      if i >= |first| { assert all[i] == rest[i - |first|]; }
    }
  }

  lemma {:induction false} VisitedIsInstance(g: Generic, fields: seq<MetaField>, scope: Scope, ranks: Ranks, k: nat)
    requires Ranked(fields, scope, ranks, k) && DifferentScope(scope)
    requires Zeroed(g, fields, scope, ranks, k)
    ensures Instance(Visited(g, fields), fields, scope)
    decreases k, |fields|
  {
    if fields != [] {
      var f := fields[0];
      assert f in fields;
      if Present(f, scope) { ZeroIsOfType(f, scope, ranks, k); }
      VisitedIsInstance(g, fields[1..], scope, ranks, k);
      var now := if Present(f, scope) then [Field(f.id, f.name, ToValue(g.values[f.id]))] else [];
      InstanceCons(now, Visited(g, fields[1..]), fields, scope);
    }
  }

  /** A new message is an instance of its specification. */
  lemma {:induction false} NewMessageIsInstance(mm: MetaMessage, scope: Scope, ranks: Ranks, k: nat)
    requires Ranked(mm.fields, scope, ranks, k) && DifferentFieldIds(mm.fields) && DifferentScope(scope)
    ensures Instance(Seen(Create(mm, scope, ranks, k)), mm.fields, scope)
    decreases k, |mm.fields| + 1
  {
    CreatedZeroed(mm, scope, ranks, k);
    VisitedIsInstance(Create(mm, scope, ranks, k), mm.fields, scope, ranks, k);
  }

  // ---------------------------------------------------------------- zeros

  /** Nothing but zeros: false, zero numbers and bit patterns, empty text, at every depth. */
  predicate AllZero(v: Value) {
    match v
    case BoolV(b) => !b
    case CharV(c) => c == 0
    case IntV(_, i) => i == 0
    case UIntV(_, u) => u == 0
    case FloatV(bits) => bits == 0
    case DoubleV(bits) => bits == 0
    case TextV(s) => |s| == 0
    case MessageV(fields) => forall f :: f in fields ==> AllZero(f.value)
  }

  ghost predicate ZeroMessage(fields: seq<Field>) {
    forall f :: f in fields ==> AllZero(f.value)
  }

  ghost predicate ZeroValues(m: map<nat, Stored>) {
    forall id :: id in m ==> AllZero(ToValue(m[id]))
  }

  lemma {:induction false} ZeroVisited(g: Generic, fields: seq<MetaField>)
    requires ZeroValues(g.values)
    ensures ZeroMessage(Visited(g, fields))
    decreases |fields|
  {
    if fields != [] {
      ZeroVisited(g, fields[1..]);
    }
  }

  lemma {:induction false} ZeroIsZero(f: MetaField, scope: Scope, ranks: Ranks, k: nat)
    requires Present(f, scope) && Ranked([f], scope, ranks, k)
    ensures AllZero(ToValue(Zero(f, scope, ranks, k)))
    decreases k, 0
  {
    if f.fieldType.MessageT? {
      assert f in [f];
      CreatedIsZero(scope[f.typeName], scope, ranks, ranks[f.typeName]);
    }
  }

  lemma {:induction false} ValuesAreZero(fields: seq<MetaField>, scope: Scope, ranks: Ranks, k: nat)
    requires Ranked(fields, scope, ranks, k)
    ensures ZeroValues(Values(fields, scope, ranks, k))
    decreases k, |fields|
  {
    if fields != [] {
      var n := |fields| - 1;
      BelowOne(fields, scope, ranks, k, n);
      ValuesAreZero(fields[..n], scope, ranks, k);
      if Present(fields[n], scope) { ZeroIsZero(fields[n], scope, ranks, k); }
    }
  }

  /** Whatever the specification, a visitor of a new message meets nothing but zeros. */
  lemma {:induction false} CreatedIsZero(mm: MetaMessage, scope: Scope, ranks: Ranks, k: nat)
    requires Ranked(mm.fields, scope, ranks, k)
    ensures ZeroMessage(Seen(Create(mm, scope, ranks, k)))
    decreases k, |mm.fields| + 1
  {
    ValuesAreZero(mm.fields, scope, ranks, k);
    ZeroVisited(Create(mm, scope, ranks, k), mm.fields);
  }

  /** The field of a message that a field of its specification describes. */
  ghost predicate Shows(message: seq<Field>, f: MetaField) {
    exists g :: g in message && g.id == f.id && g.name == f.name && Holds(f.fieldType, g.value)
  }

  lemma {:induction false} ShowsVisited(g: Generic, fields: seq<MetaField>, f: MetaField)
    requires f in fields && f.id in g.values && Fits(f.fieldType, g.values[f.id])
    ensures Shows(Visited(g, fields), f)
    decreases |fields|
  {
    var first := fields[0];
    if f == first {
      var h := Field(f.id, f.name, ToValue(g.values[f.id]));
      assert h in Visited(g, fields) && Holds(f.fieldType, h.value);
    } else {
      ShowsVisited(g, fields[1..], f);
      var h :| h in Visited(g, fields[1..]) && h.id == f.id && h.name == f.name && Holds(f.fieldType, h.value);
      assert h in Visited(g, fields);
    }
  }

  lemma {:induction false} VisitedIsStored(g: Generic, fields: seq<MetaField>, h: Field)
    requires h in Visited(g, fields)
    ensures h.id in g.values
    decreases |fields|
  {
    if h in Visited(g, fields[1..]) {
      VisitedIsStored(g, fields[1..], h);
    }
  }

  /** A new message shows its fields of the built-in types, those of known messages, and no others. */
  lemma {:induction false} NewMessageShows(mm: MetaMessage, scope: Scope, ranks: Ranks, k: nat, f: MetaField)
    requires Ranked(mm.fields, scope, ranks, k) && DifferentFieldIds(mm.fields) && DifferentScope(scope)
    requires f in mm.fields
    ensures Shows(Seen(Create(mm, scope, ranks, k)), f) <==>
              BuiltIn(f.fieldType) || (f.fieldType == MessageT && f.typeName in scope)
  {
    var g := Create(mm, scope, ranks, k);
    CreatedZeroed(mm, scope, ranks, k);
    if Present(f, scope) {
      ZeroIsOfType(f, scope, ranks, k);
      ShowsVisited(g, mm.fields, f);
      TypesAreBuiltIn(f.fieldType);
    } else if Shows(Seen(g), f) {
      var h :| h in Seen(g) && h.id == f.id && h.name == f.name && Holds(f.fieldType, h.value);
      VisitedIsStored(g, mm.fields, h);
    }
  }

  // ---------------------------------------------------------------- values set by a visitor

  /** A visited value replaces the stored one; a nested message is visited in its turn. */
  function StoreIn(s: Stored, v: Value): (t: Stored)
    decreases s, 0
  {
    match s
    case Plain(_) => Plain(v)
    case Nested(g) =>
      if v.MessageV? then Nested(Generic(g.meta, StoreAll(g, g.meta.fields, v.fields, g.values))) else s
  }

  /** The visited fields get their new values one after the other. */
  function StoreAll(g: Generic, fields: seq<MetaField>, message: seq<Field>, values: map<nat, Stored>): (r: map<nat, Stored>)
    decreases g, |fields|
  {
    if fields == [] then values
    else
      var f := fields[0];
      if f.id in g.values && Fits(f.fieldType, g.values[f.id]) && message != [] then
        StoreAll(g, fields[1..], message[1..], values[f.id := StoreIn(g.values[f.id], message[0].value)])
      else StoreAll(g, fields[1..], message, values)
  }

  /** A generic message after being visited. */
  function Filled(g: Generic, message: seq<Field>): (h: Generic) {
    Generic(g.meta, StoreAll(g, g.meta.fields, message, g.values))
  }

  /** No identifier twice, in the message and in those nested in it. */
  ghost predicate DistinctTree(g: Generic) {
    DifferentFieldIds(g.meta.fields) && forall id :: id in g.values ==> DistinctStored(g.values[id])
  }

  ghost predicate DistinctStored(s: Stored) {
    s.Nested? ==> DistinctTree(s.g)
  }

  ghost predicate SameAt(a: map<nat, Stored>, b: map<nat, Stored>, id: nat) {
    (id in a <==> id in b) && (id in a ==> a[id] == b[id])
  }

  lemma {:induction false} StoreFrame(g: Generic, fields: seq<MetaField>, message: seq<Field>, values: map<nat, Stored>, id: nat)
    requires forall f :: f in fields ==> f.id != id
    ensures SameAt(StoreAll(g, fields, message, values), values, id)
    decreases |fields|
  {
    if fields != [] {
      var f := fields[0];
      assert f in fields;
      if f.id in g.values && Fits(f.fieldType, g.values[f.id]) && message != [] {
        StoreFrame(g, fields[1..], message[1..], values[f.id := StoreIn(g.values[f.id], message[0].value)], id);
      } else {
        StoreFrame(g, fields[1..], message, values, id);
      }
    }
  }

  lemma {:induction false} FirstIsDifferent(fields: seq<MetaField>)
    requires fields != [] && DifferentFieldIds(fields)
    ensures DifferentFieldIds(fields[1..]) && forall f :: f in fields[1..] ==> f.id != fields[0].id
  {
    forall f | f in fields[1..] ensures f.id != fields[0].id {
      var i :| 0 <= i < |fields| - 1 && fields[1..][i] == f;
      assert fields[i + 1] == f;
    }
  }

  lemma {:induction false} StoredIsSeen(s: Stored, t: FieldType, v: Value)
    requires Fits(t, s) && SameType(ToValue(s), v) && DistinctStored(s)
    ensures Fits(t, StoreIn(s, v)) && ToValue(StoreIn(s, v)) == v
    decreases s, 0
  {
    if s.Nested? {
      AllStoredIsSeen(s.g, s.g.meta, s.g.meta.fields, v.fields, s.g.values);
    }
  }

  ghost predicate Agree(fields: seq<MetaField>, a: map<nat, Stored>, b: map<nat, Stored>) {
    forall f :: f in fields ==> SameAt(a, b, f.id)
  }

  lemma {:induction false} ShapeTail(a: seq<Field>, b: seq<Field>)
    requires SameShape(a, b) && a != []
    ensures SameShape(a[1..], b[1..]) && SameType(a[0].value, b[0].value)
  {
  }

  lemma {:induction false} AllStoredIsSeen(g: Generic, meta: MetaMessage, fields: seq<MetaField>, message: seq<Field>, values: map<nat, Stored>)
    requires DifferentFieldIds(fields) && Agree(fields, values, g.values)
    requires forall id :: id in g.values ==> DistinctStored(g.values[id])
    requires SameShape(Visited(g, fields), message)
    ensures Visited(Generic(meta, StoreAll(g, fields, message, values)), fields) == message
    decreases g, |fields|
  {
    if fields != [] {
      var f, rest := fields[0], fields[1..];
      assert f in fields;
      FirstIsDifferent(fields);
      if f.id in g.values && Fits(f.fieldType, g.values[f.id]) {
        var before := Visited(g, fields);
        assert before[1..] == Visited(g, rest);
        ShapeTail(before, message);
        var stored := StoreIn(g.values[f.id], message[0].value);
        StoredIsSeen(g.values[f.id], f.fieldType, message[0].value);
        StoreFrame(g, rest, message[1..], values[f.id := stored], f.id);
        AllStoredIsSeen(g, meta, rest, message[1..], values[f.id := stored]);
        assert message == [message[0]] + message[1..];
      } else {
        assert Visited(g, fields) == [] + Visited(g, rest) == Visited(g, rest);
        StoreFrame(g, rest, message, values, f.id);
        AllStoredIsSeen(g, meta, rest, message, values);
      }
    }
  }

  /** What a visitor has set is what the next visitor sees. */
  lemma {:induction false} FilledIsSeen(g: Generic, message: seq<Field>)
    requires DistinctTree(g) && SameShape(Seen(g), message)
    ensures Seen(Filled(g, message)) == message
  {
    AllStoredIsSeen(g, g.meta, g.meta.fields, message, g.values);
  }

  lemma {:induction false} CreatedDistinct(mm: MetaMessage, scope: Scope, ranks: Ranks, k: nat)
    requires Ranked(mm.fields, scope, ranks, k) && DifferentFieldIds(mm.fields) && DifferentScope(scope)
    ensures DistinctTree(Create(mm, scope, ranks, k))
    decreases k
  {
    var g := Create(mm, scope, ranks, k);
    forall id | id in g.values ensures DistinctStored(g.values[id]) {
      CreatedDomain(mm.fields, scope, ranks, k, id);
      var i :| 0 <= i < |mm.fields| && Present(mm.fields[i], scope) && mm.fields[i].id == id;
      var f := mm.fields[i];
      assert f in mm.fields;
      CreatedValue(mm.fields, scope, ranks, k, i);
      if f.fieldType.MessageT? {
        CreatedDistinct(scope[f.typeName], scope, ranks, ranks[f.typeName]);
      }
    }
  }
}
