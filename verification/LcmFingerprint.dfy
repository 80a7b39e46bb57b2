/** The fingerprint of a message type, as the LCM encoder and decoder compute it. */
module LcmFingerprint {
  import opened Bytes
  import opened Messages
  import opened LcmHash

  const SEED: Word := 0x12345678

  function Ascii(s: string): (b: bytes)
    ensures |b| == |s|
  {
    seq(|s|, i requires 0 <= i < |s| => s[i] as int % 256)
  }

  /** The type names that enter the fingerprint do not tell signed from unsigned. */
  function TypeName(v: Value): (s: string)
    requires !v.MessageV?
    ensures |s| <= 7
  {
    match v
    case BoolV(_) => "boolean"
    case CharV(_) => "int8_t"
    case IntV(w, _) => IntName(w)
    case UIntV(w, _) => IntName(w)
    case FloatV(_) => "float"
    case DoubleV(_) => "double"
    case TextV(_) => "string"
  }

  function IntName(w: Width): (s: string)
    ensures |s| <= 7
  {
    match w case W8 => "int8_t" case W16 => "int16_t" case W32 => "int32_t" case W64 => "int64_t"
  }

  /** The two sides differ in what they mix of a name beyond its first 255 bytes. */
  datatype Side = Encoder | Decoder

  /** calculateHash(string): the length, cut off at 255, and the characters. */
  function NameChars(s: bytes, side: Side): (b: bytes) {
    if |s| <= 255 then [|s|] + s
    else if side == Encoder then [255] + s
    else [255] + s[..255]
  }

  /** What is mixed after the name: type and dimension, or the dimension alone for nested messages. */
  function KindChars(v: Value): (b: bytes) {
    if v.MessageV? then [0] else NameChars(Ascii(TypeName(v)), Encoder) + [0]
  }

  function FieldChars(f: Field, side: Side): (b: bytes) {
    NameChars(f.name, side) + KindChars(f.value)
  }

  function FieldsChars(fields: seq<Field>, side: Side): (b: bytes) {
    if fields == [] then [] else FieldChars(fields[0], side) + FieldsChars(fields[1..], side)
  }

  /** The sum of the fingerprints of nested messages, wrapping around. */
  function NestedSum(fields: seq<Field>, side: Side): (x: Word)
    decreases fields, 0
  {
    if fields == [] then 0
    else Add(NestedSum(fields[1..], side), NestedHash(fields[0].value, side))
  }

  function NestedHash(v: Value, side: Side): (x: Word)
    decreases v, 0
  {
    if v.MessageV? then Fingerprint(v.fields, side) else 0
  }

  function Fingerprint(fields: seq<Field>, side: Side): (x: Word)
    decreases fields, 1
  {
    Rotate(Add(MixAll(SEED, FieldsChars(fields, side)), NestedSum(fields, side)))
  }

  // ---------------------------------------------------------------- encoder and decoder agree

  ghost predicate ShortNames(fields: seq<Field>) {
    forall f :: f in fields ==> |f.name| <= 255 && (f.value.MessageV? ==> ShortNames(f.value.fields))
  }

  /** The same fields up to identifiers, values and signedness. */
  ghost predicate Alike(fields: seq<Field>, others: seq<Field>)
    decreases fields, 1
  {
    && |fields| == |others|
    && forall i :: 0 <= i < |fields| ==>
         fields[i].name == others[i].name && AlikeValue(fields[i].value, others[i].value)
  }

  ghost predicate AlikeValue(v: Value, w: Value)
    decreases v, 0
  {
    if v.MessageV? then w.MessageV? && Alike(v.fields, w.fields)
    else !w.MessageV? && TypeName(v) == TypeName(w)
  }

  lemma {:induction false} ShortTail(fields: seq<Field>)
    requires ShortNames(fields) && fields != []
    ensures |fields[0].name| <= 255 && ShortNames(fields[1..])
    ensures fields[0].value.MessageV? ==> ShortNames(fields[0].value.fields)
  {
    assert fields[0] in fields;
  }

  lemma {:induction false} AlikeTail(fields: seq<Field>, others: seq<Field>)
    requires Alike(fields, others) && fields != []
    ensures fields[0].name == others[0].name && AlikeValue(fields[0].value, others[0].value)
    ensures Alike(fields[1..], others[1..])
  {
  }

  lemma {:induction false} SameChars(fields: seq<Field>, others: seq<Field>, side: Side, side': Side)
    requires Alike(fields, others) && ShortNames(fields)
    ensures FieldsChars(fields, side) == FieldsChars(others, side')
  {
    if fields != [] {
      ShortTail(fields);
      AlikeTail(fields, others);
      SameChars(fields[1..], others[1..], side, side');
    }
  }

  lemma {:induction false} SameSum(fields: seq<Field>, others: seq<Field>, side: Side, side': Side)
    requires Alike(fields, others) && ShortNames(fields)
    ensures NestedSum(fields, side) == NestedSum(others, side')
    decreases fields, 0
  {
    if fields != [] {
      ShortTail(fields);
      AlikeTail(fields, others);
      SameSum(fields[1..], others[1..], side, side');
      if fields[0].value.MessageV? {
        SameFingerprint(fields[0].value.fields, others[0].value.fields, side, side');
      }
    }
  }

  /**
    * While names have at most 255 bytes, encoder and decoder agree on the fingerprint, and
    * it depends neither on values nor on identifiers nor on the signedness of integers.
    */
  lemma {:induction false} SameFingerprint(fields: seq<Field>, others: seq<Field>, side: Side, side': Side)
    requires Alike(fields, others) && ShortNames(fields)
    ensures Fingerprint(fields, side) == Fingerprint(others, side')
    decreases fields, 1
  {
    SameChars(fields, others, side, side');
    SameSum(fields, others, side, side');
  }

  // ---------------------------------------------------------------- renaming is detected

  /** Exactly one field differs: by one character of its name, or by such a change inside it. */
  ghost predicate Renamed(fields: seq<Field>, others: seq<Field>)
    decreases fields, 1
  {
    exists i :: 0 <= i < |fields| && RenamedAt(fields, others, i)
  }

  ghost predicate RenamedAt(fields: seq<Field>, others: seq<Field>, i: int)
    requires 0 <= i < |fields|
    decreases fields, 0
  {
    EqualButAt(fields, others, i) && RenamedField(fields[i], others[i])
  }

  ghost predicate RenamedField(f: Field, g: Field)
    decreases f
  {
    || (OneCharacterApart(f.name, g.name) && f.value == g.value)
    || (f.name == g.name && f.value.MessageV? && g.value.MessageV? && Renamed(f.value.fields, g.value.fields))
  }

  lemma {:induction false} PrefixApart(p: bytes, s: bytes, t: bytes, q: bytes)
    requires OneCharacterApart(s, t)
    ensures OneCharacterApart(p + s + q, p + t + q)
  {
    var i :| 0 <= i < |s| && OneCharacterAt(s, t, i);
    var a, b := p + s + q, p + t + q;
    assert s == s[..i] + [s[i]] + s[i + 1..];
    assert t == t[..i] + [t[i]] + t[i + 1..];
    assert a[..|p| + i] == p + s[..i] == b[..|p| + i];
    assert a[|p| + i + 1..] == s[i + 1..] + q == b[|p| + i + 1..];
    assert OneCharacterAt(a, b, |p| + i);
  }

  lemma {:induction false} CharsConcat(a: seq<Field>, b: seq<Field>)
    ensures FieldsChars(a + b, Encoder) == FieldsChars(a, Encoder) + FieldsChars(b, Encoder)
  {
    if a == [] {
      assert a + b == b;
    } else {
      assert (a + b)[1..] == a[1..] + b;
      CharsConcat(a[1..], b);
    }
  }

  /** The characters of one field among those of the others. */
  lemma {:induction false} CharsAround(fields: seq<Field>, i: nat)
    requires i < |fields|
    ensures FieldsChars(fields, Encoder)
         == FieldsChars(fields[..i], Encoder) + FieldChars(fields[i], Encoder) + FieldsChars(fields[i + 1..], Encoder)
  {
    assert fields == fields[..i] + ([fields[i]] + fields[i + 1..]);
    CharsConcat(fields[..i], [fields[i]] + fields[i + 1..]);
    assert ([fields[i]] + fields[i + 1..])[1..] == fields[i + 1..];
  }

  lemma {:induction false} AddTwice(a: Word, b: Word, c: Word)
    ensures Add(Add(a, b), c) == (a + b + c) % TWO64
  {
  }

  lemma {:induction false} AddSwap(a: Word, b: Word, c: Word)
    ensures Add(Add(a, b), c) == Add(Add(a, c), b)
    ensures Add(0, a) == a
  {
    AddTwice(a, b, c);
    AddTwice(a, c, b);
    SmallMod(a, TWO64);
  }

  lemma {:induction false} SumAround(fields: seq<Field>, i: nat)
    requires i < |fields|
    ensures NestedSum(fields, Encoder)
         == Add(Add(NestedSum(fields[..i], Encoder), NestedSum(fields[i + 1..], Encoder)),
                NestedHash(fields[i].value, Encoder))
    decreases i
  {
    if i == 0 {
      assert fields[..0] == [];
      AddSwap(NestedSum(fields[1..], Encoder), 0, 0);
    } else {
      var tail := fields[1..];
      var h := NestedHash(fields[0].value, Encoder);
      SumAround(tail, i - 1);
      FrontSum(fields, i);
      assert tail[i..] == fields[i + 1..] && tail[i - 1] == fields[i];
      var front, back := NestedSum(tail[..i - 1], Encoder), NestedSum(tail[i..], Encoder);
      AddSwap(Add(front, back), NestedHash(fields[i].value, Encoder), h);
      AddSwap(front, back, h);
    }
  }

  lemma {:induction false} FrontSum(fields: seq<Field>, i: nat)
    requires 0 < i < |fields|
    ensures NestedSum(fields[..i], Encoder)
         == Add(NestedSum(fields[1..][..i - 1], Encoder), NestedHash(fields[0].value, Encoder))
  {
    assert fields[..i][1..] == fields[1..][..i - 1];
  }

  lemma {:induction false} WordsDiffer(a: Word, b: Word, x: Word)
    requires a != b
    ensures Add(x, a) != Add(x, b) && Add(a, x) != Add(b, x)
  {
  }

  lemma {:induction false} Regroup(before: bytes, n: bytes, name: bytes, kind: bytes, after: bytes)
    ensures before + ((n + name) + kind) + after == (before + n) + name + (kind + after)
  {
    Associative(n, name, kind);
    Associative(before, n, name + kind);
    Associative(before + n, name, kind);
    Associative((before + n) + name, kind, after);
  }

  /** The two lists differ at index i only. */
  ghost predicate EqualButAt(fields: seq<Field>, others: seq<Field>, i: nat) {
    i < |fields| == |others| && fields[..i] == others[..i] && fields[i + 1..] == others[i + 1..]
  }

  lemma {:induction false} CharsApart(fields: seq<Field>, others: seq<Field>, i: nat)
    requires EqualButAt(fields, others, i)
    requires OneCharacterApart(fields[i].name, others[i].name) && fields[i].value == others[i].value
    ensures OneCharacterApart(FieldsChars(fields, Encoder), FieldsChars(others, Encoder))
  {
    var f, g, kind := fields[i].name, others[i].name, KindChars(fields[i].value);
    var before, after := FieldsChars(fields[..i], Encoder), FieldsChars(fields[i + 1..], Encoder);
    assert |f| == |g|;
    var n := [if |f| <= 255 then |f| else 255];
    CharsAround(fields, i);
    CharsAround(others, i);
    Regroup(before, n, f, kind, after);
    Regroup(before, n, g, kind, after);
    PrefixApart(before + n, f, g, kind + after);
  }

  /** A name that changes changes the characters mixed and nothing else. */
  lemma {:induction false} NameMatters(fields: seq<Field>, others: seq<Field>, i: nat)
    requires EqualButAt(fields, others, i)
    requires OneCharacterApart(fields[i].name, others[i].name) && fields[i].value == others[i].value
    ensures Fingerprint(fields, Encoder) != Fingerprint(others, Encoder)
  {
    CharsApart(fields, others, i);
    NoCollision(SEED, FieldsChars(fields, Encoder), FieldsChars(others, Encoder));
    SumAround(fields, i);
    SumAround(others, i);
    DifferentWords(MixAll(SEED, FieldsChars(fields, Encoder)), MixAll(SEED, FieldsChars(others, Encoder)),
                   NestedSum(fields, Encoder));
  }

  lemma {:induction false} DifferentWords(a: Word, b: Word, x: Word)
    requires a != b
    ensures Rotate(Add(a, x)) != Rotate(Add(b, x)) && Rotate(Add(x, a)) != Rotate(Add(x, b))
  {
    WordsDiffer(a, b, x);
    RotateInjective(Add(a, x), Add(b, x));
    RotateInjective(Add(x, a), Add(x, b));
  }

  /** A nested message whose fingerprint changes changes the sum and nothing else. */
  lemma {:induction false} NestedMatters(fields: seq<Field>, others: seq<Field>, i: nat)
    requires EqualButAt(fields, others, i)
    requires fields[i].name == others[i].name && fields[i].value.MessageV? && others[i].value.MessageV?
    requires Fingerprint(fields[i].value.fields, Encoder) != Fingerprint(others[i].value.fields, Encoder)
    ensures Fingerprint(fields, Encoder) != Fingerprint(others, Encoder)
  {
    CharsAround(fields, i);
    CharsAround(others, i);
    SumAround(fields, i);
    SumAround(others, i);
    WordsDiffer(Fingerprint(fields[i].value.fields, Encoder), Fingerprint(others[i].value.fields, Encoder),
                Add(NestedSum(fields[..i], Encoder), NestedSum(fields[i + 1..], Encoder)));
    DifferentWords(NestedSum(fields, Encoder), NestedSum(others, Encoder),
                   MixAll(SEED, FieldsChars(fields, Encoder)));
  }

  /** Changing one character of one field name, at any depth, changes the fingerprint. */
  lemma {:induction false} RenamingIsDetected(fields: seq<Field>, others: seq<Field>)
    requires Renamed(fields, others)
    ensures Fingerprint(fields, Encoder) != Fingerprint(others, Encoder)
    decreases fields
  {
    var i :| 0 <= i < |fields| && RenamedAt(fields, others, i);
    var f, g := fields[i], others[i];
    assert RenamedField(f, g);
    if OneCharacterApart(f.name, g.name) && f.value == g.value {
      NameMatters(fields, others, i);
    } else {
      RenamingIsDetected(f.value.fields, g.value.fields);
      NestedMatters(fields, others, i);
    }
  }

  // ---------------------------------------------------------------- longer names

  ghost predicate Agreed(fields: seq<Field>) {
    Fingerprint(fields, Encoder) == Fingerprint(fields, Decoder)
  }

  /** What the decoder mixes of a name besides its length. */
  function SeenName(s: bytes): (b: bytes) {
    if |s| <= 255 then s else s[..255]
  }

  /** The same message up to the characters of names beyond the first 255, at any depth. */
  ghost predicate SameSeen(fields: seq<Field>, others: seq<Field>)
    decreases fields, 1
  {
    && |fields| == |others|
    && forall i :: 0 <= i < |fields| ==> SameSeenField(fields[i], others[i])
  }

  ghost predicate SameSeenField(f: Field, g: Field)
    decreases f
  {
    && f.id == g.id && |f.name| == |g.name| && SeenName(f.name) == SeenName(g.name)
    && if f.value.MessageV? then g.value.MessageV? && SameSeen(f.value.fields, g.value.fields)
       else f.value == g.value
  }

  lemma {:induction false} SeenTail(fields: seq<Field>, others: seq<Field>)
    requires SameSeen(fields, others) && fields != []
    ensures SameSeenField(fields[0], others[0]) && SameSeen(fields[1..], others[1..])
  {
  }

  lemma {:induction false} SeenChars(fields: seq<Field>, others: seq<Field>)
    requires SameSeen(fields, others)
    ensures FieldsChars(fields, Decoder) == FieldsChars(others, Decoder)
  {
    if fields != [] {
      SeenTail(fields, others);
      SeenChars(fields[1..], others[1..]);
    }
  }

  lemma {:induction false} SeenSum(fields: seq<Field>, others: seq<Field>)
    requires SameSeen(fields, others)
    ensures NestedSum(fields, Decoder) == NestedSum(others, Decoder)
    decreases fields, 0
  {
    if fields != [] {
      SeenTail(fields, others);
      SeenSum(fields[1..], others[1..]);
      if fields[0].value.MessageV? {
        DecoderIsBlind(fields[0].value.fields, others[0].value.fields);
      }
    }
  }

  /** The decoder does not see what lies beyond the 255th character of a name. */
  lemma {:induction false} DecoderIsBlind(fields: seq<Field>, others: seq<Field>)
    requires SameSeen(fields, others)
    ensures Fingerprint(fields, Decoder) == Fingerprint(others, Decoder)
    decreases fields, 1
  {
    SeenChars(fields, others);
    SeenSum(fields, others);
  }

  lemma {:induction false} SeenByItself(fields: seq<Field>)
    ensures SameSeen(fields, fields)
    decreases fields
  {
    forall i | 0 <= i < |fields| ensures SameSeenField(fields[i], fields[i]) {
      if fields[i].value.MessageV? {
        SeenByItself(fields[i].value.fields);
      }
    }
  }

  lemma {:induction false} SeenIsShort(fields: seq<Field>, others: seq<Field>)
    requires SameSeen(fields, others) && ShortNames(fields)
    ensures ShortNames(others)
    decreases fields
  {
    forall g | g in others ensures |g.name| <= 255 && (g.value.MessageV? ==> ShortNames(g.value.fields)) {
      var i :| 0 <= i < |others| && others[i] == g;
      assert fields[i] in fields && SameSeenField(fields[i], g);
      if g.value.MessageV? {
        SeenIsShort(fields[i].value.fields, g.value.fields);
      }
    }
  }

  /** Of two messages that differ in a character the decoder does not see, one is not agreed on. */
  lemma {:induction false} LongNamesDisagree(fields: seq<Field>, others: seq<Field>)
    requires SameSeen(fields, others) && Renamed(fields, others)
    ensures !Agreed(fields) || !Agreed(others)
  {
    DecoderIsBlind(fields, others);
    RenamingIsDetected(fields, others);
  }

  /** A long name with a different last character. */
  lemma {:induction false} OtherName(name: bytes) returns (other: bytes)
    requires |name| > 255
    ensures |other| == |name| && SeenName(other) == SeenName(name) && OneCharacterApart(name, other)
  {
    var n := |name| - 1;
    other := name[..n] + [if name[n] == 0 then 1 else 0];
    assert OneCharacterAt(name, other, n);
  }

  lemma {:induction false} OneFieldSeen(fields: seq<Field>, i: nat, g: Field)
    requires i < |fields| && SameSeenField(fields[i], g) && RenamedField(fields[i], g)
    ensures SameSeen(fields, fields[i := g]) && Renamed(fields, fields[i := g])
  {
    SeenByItself(fields);
    assert EqualButAt(fields, fields[i := g], i);
    assert RenamedAt(fields, fields[i := g], i);
  }

  /** A name that is too long can be changed where the decoder does not look. */
  lemma {:induction false} LongNameHides(fields: seq<Field>) returns (others: seq<Field>)
    requires !ShortNames(fields)
    ensures SameSeen(fields, others) && Renamed(fields, others)
    decreases fields
  {
    var f :| f in fields && (|f.name| > 255 || (f.value.MessageV? && !ShortNames(f.value.fields)));
    var i :| 0 <= i < |fields| && fields[i] == f;
    var g := f;
    if |f.name| > 255 {
      var name := OtherName(f.name);
      if f.value.MessageV? { SeenByItself(f.value.fields); }
      g := f.(name := name);
    } else {
      var nested := LongNameHides(f.value.fields);
      g := f.(value := MessageV(nested));
    }
    OneFieldSeen(fields, i, g);
    others := fields[i := g];
  }

  /**
    * Encoder and decoder agree on a message, whatever its names hold beyond 255 characters,
    * exactly when no name at any depth is longer than that.
    */
  lemma {:induction false} AgreementIffShortNames(fields: seq<Field>)
    ensures (forall others :: SameSeen(fields, others) ==> Agreed(others)) <==> ShortNames(fields)
  {
    if ShortNames(fields) {
      forall others | SameSeen(fields, others) ensures Agreed(others) {
        SeenIsShort(fields, others);
        AlikeItself(others);
        SameFingerprint(others, others, Encoder, Decoder);
      }
    } else {
      var others := LongNameHides(fields);
      LongNamesDisagree(fields, others);
      SeenByItself(fields);
    }
  }

  lemma {:induction false} AlikeItself(fields: seq<Field>)
    ensures Alike(fields, fields)
    decreases fields
  {
    forall i | 0 <= i < |fields| ensures AlikeValue(fields[i].value, fields[i].value) {
      if fields[i].value.MessageV? {
        AlikeItself(fields[i].value.fields);
      }
    }
  }
}
