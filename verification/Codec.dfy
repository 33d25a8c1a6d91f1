/** The generated codec of messages whose declared fields are strings numbered 1 to `n`:
    `ClientRequestParams` has five, `ServerResponse` one. */
module Codec {
  import opened Wire

  /** The value of a message: its string fields in number order, and the fields it does not know. */
  datatype Msg = Msg(strings: seq<seq<Byte>>, unknown: seq<Field>)

  const MAX_STRINGS: nat := 15      // one-byte tags, as in both message types
  const RECURSION_LIMIT: nat := 100

  /** `n` string fields, which strings are valid UTF-8, and whether unknown fields are written back. */
  datatype Schema = Schema(n: nat, utf8: seq<Byte> -> bool, preserve: bool)

  ghost predicate SchemaOk(c: Schema) {
    1 <= c.n <= MAX_STRINGS
  }

  function Empty(c: Schema): Msg {
    Msg(seq(c.n, _ => []), [])
  }

  ghost predicate Shaped(c: Schema, a: Msg) {
    |a.strings| == c.n
  }

  /** A tag of a declared field with the string wire type. */
  predicate Known(c: Schema, tag: nat) {
    1 <= tag / 8 <= c.n && tag % 8 == LENGTH_DELIMITED
  }

  // ---------------------------------------------------------------- the meaning of the bytes

  /** What the parse loop makes of the input: the message, and whether it stopped exactly at the end. */
  datatype Parsed = Failure | Success(msg: Msg, atEnd: bool)

  /** One round of the parse loop. */
  datatype Stepped = Stop(parsed: Parsed) | Next(msg: Msg, rest: seq<Byte>)

  function Step(c: Schema, b: seq<Byte>, a: Msg): (r: Stepped)
    requires |a.strings| == c.n
    ensures r.Next? ==> |r.rest| < |b| && |r.msg.strings| == c.n
  {
    var (tag, rest) := ReadTag(b);
    if tag == 0 then Stop(Success(a, b == []))
    else if Known(c, tag) then
      match ReadString(rest)
      case Fail => Stop(Failure)
      case Ok(s, rest') => if c.utf8(s) then Next(a.(strings := a.strings[tag / 8 - 1 := s]), rest') else Stop(Failure)
    else
      match ReadValue(rest, tag / 8, tag % 8, RECURSION_LIMIT)
      case Fail => Stop(Failure)
      case Ok(v, rest') => Next(a.(unknown := a.unknown + [Field(tag / 8, v)]), rest')
  }

  function ParseSpec(c: Schema, b: seq<Byte>, a: Msg): Parsed
    requires |a.strings| == c.n
    decreases |b|
  {
    match Step(c, b, a)
    case Stop(p) => p
    case Next(a', rest) => ParseSpec(c, rest, a')
  }

  /** The canonical bytes of string field `i + 1` and its successors. */
  function EncodeStrings(a: seq<seq<Byte>>, i: nat): seq<Byte>
    requires i <= |a|
    decreases |a| - i
  {
    if i == |a| then []
    else
      var s := if a[i] == [] then [] else EncodeVarint(MakeTag(i + 1, LENGTH_DELIMITED)) + EncodeString(a[i]);
      s + EncodeStrings(a, i + 1)
  }

  function Encode(c: Schema, a: Msg): seq<Byte> {
    EncodeStrings(a.strings, 0) + if c.preserve then EncodeFields(a.unknown) else []
  }

  function Merge(a: Msg, b: Msg): (r: Msg)
    requires |a.strings| == |b.strings|
    ensures |r.strings| == |a.strings|
  {
    Msg(MergeStrings(a.strings, b.strings), a.unknown + b.unknown)
  }

  function MergeStrings(a: seq<seq<Byte>>, b: seq<seq<Byte>>): (r: seq<seq<Byte>>)
    requires |a| == |b|
    ensures |r| == |a|
  {
    seq(|a|, i requires 0 <= i < |a| => if b[i] == [] then a[i] else b[i])
  }

  /** Messages that can be written: strings are valid UTF-8 of representable size, and every unknown field is
      in range and really unknown. */
  ghost predicate MsgOk(c: Schema, a: Msg) {
    && Shaped(c, a)
    && (forall i | 0 <= i < c.n && a.strings[i] != [] :: c.utf8(a.strings[i]) && |a.strings[i]| <= INT_MAX)
    && UnknownOk(c, a.unknown)
  }

  ghost predicate UnknownOk(c: Schema, fs: seq<Field>) {
    forall i | 0 <= i < |fs| ::
      FieldOk(fs[i], RECURSION_LIMIT) && !Known(c, MakeTag(fs[i].number, WireType(fs[i].value)))
  }

  /** What survives writing. */
  function Kept(c: Schema, a: Msg): Msg {
    if c.preserve then a else a.(unknown := [])
  }

  // ---------------------------------------------------------------- round trip and concatenation

  lemma StepString(c: Schema, i: nat, s: seq<Byte>, rest: seq<Byte>, m: Msg)
    requires SchemaOk(c) && Shaped(c, m) && i < c.n && c.utf8(s) && |s| <= INT_MAX
    ensures Step(c, EncodeVarint(MakeTag(i + 1, LENGTH_DELIMITED)) + EncodeString(s) + rest, m)
         == Next(m.(strings := m.strings[i := s]), rest)
  {
    hide ReadTag, ReadString, ReadValue, EncodeString, EncodeVarint;
    var tag := EncodeVarint(MakeTag(i + 1, LENGTH_DELIMITED));
    assert tag + EncodeString(s) + rest == tag + (EncodeString(s) + rest);
    TagRoundTrip(i + 1, LENGTH_DELIMITED, EncodeString(s) + rest);
    StringRoundTrip(s, rest);
  }

  lemma StepUnknown(c: Schema, f: Field, rest: seq<Byte>, m: Msg)
    requires SchemaOk(c) && Shaped(c, m)
    requires FieldOk(f, RECURSION_LIMIT) && !Known(c, MakeTag(f.number, WireType(f.value)))
    ensures Step(c, EncodeField(f) + rest, m) == Next(m.(unknown := m.unknown + [f]), rest)
  {
    hide ReadTag, ReadString, ReadValue, EncodeField;
    FieldRoundTrip(f, RECURSION_LIMIT, rest);
    assert Field(f.number, f.value) == f;
  }

  lemma MergeSame(m: seq<seq<Byte>>, a: seq<seq<Byte>>)
    requires |m| == |a| && forall j | 0 <= j < |a| && a[j] != [] :: m[j] == a[j]
    ensures MergeStrings(m, a) == m
  {
  }

  lemma MergeAgain(m: seq<seq<Byte>>, a: seq<seq<Byte>>, i: nat)
    requires |m| == |a| && i < |a| && a[i] != []
    ensures MergeStrings(m[i := a[i]], a) == MergeStrings(m, a)
  {
  }

  lemma {:induction false} StringsAppend(c: Schema, a: seq<seq<Byte>>, i: nat, rest: seq<Byte>, m: Msg)
    requires SchemaOk(c) && Shaped(c, m) && |a| == c.n && i <= c.n
    requires forall j | 0 <= j < c.n && a[j] != [] :: c.utf8(a[j]) && |a[j]| <= INT_MAX
    requires forall j | 0 <= j < i && a[j] != [] :: m.strings[j] == a[j]
    ensures ParseSpec(c, EncodeStrings(a, i) + rest, m) == ParseSpec(c, rest, m.(strings := MergeStrings(m.strings, a)))
    decreases |a| - i
  {
    hide Step, EncodeVarint, EncodeString, MergeStrings;
    if i == |a| {
      assert EncodeStrings(a, i) + rest == rest;
      MergeSame(m.strings, a);
    } else {
      var more := EncodeStrings(a, i + 1) + rest;
      if a[i] == [] {
        assert EncodeStrings(a, i) + rest == more;
        StringsAppend(c, a, i + 1, rest, m);
      } else {
        var m' := m.(strings := m.strings[i := a[i]]);
        assert EncodeStrings(a, i) + rest == EncodeVarint(MakeTag(i + 1, LENGTH_DELIMITED)) + EncodeString(a[i]) + more;
        StepString(c, i, a[i], more, m);
        StringsAppend(c, a, i + 1, rest, m');
        MergeAgain(m.strings, a, i);
      }
    }
  }

  lemma {:induction false} UnknownAppend(c: Schema, fs: seq<Field>, rest: seq<Byte>, m: Msg)
    requires SchemaOk(c) && Shaped(c, m) && UnknownOk(c, fs)
    ensures ParseSpec(c, EncodeFields(fs) + rest, m) == ParseSpec(c, rest, m.(unknown := m.unknown + fs))
    decreases |fs|
  {
    hide Step;
    if fs == [] {
      assert EncodeFields(fs) + rest == rest && m.unknown + fs == m.unknown;
    } else {
      var more := EncodeFields(fs[1..]) + rest;
      var m' := m.(unknown := m.unknown + [fs[0]]);
      assert EncodeFields(fs) + rest == EncodeField(fs[0]) + more;
      StepUnknown(c, fs[0], more, m);
      UnknownAppend(c, fs[1..], rest, m');
      assert m'.unknown + fs[1..] == m.unknown + fs;
    }
  }

  /** Parsing what was written, followed by anything, merges the message and goes on with the rest. */
  lemma ParseEncoded(c: Schema, a: Msg, rest: seq<Byte>, m: Msg)
    requires SchemaOk(c) && MsgOk(c, a) && Shaped(c, m)
    ensures ParseSpec(c, Encode(c, a) + rest, m) == ParseSpec(c, rest, Merge(m, Kept(c, a)))
  {
    var tail := (if c.preserve then EncodeFields(a.unknown) else []) + rest;
    assert Encode(c, a) + rest == EncodeStrings(a.strings, 0) + tail;
    StringsAppend(c, a.strings, 0, tail, m);
    var m' := m.(strings := MergeStrings(m.strings, a.strings));
    if c.preserve {
      UnknownAppend(c, a.unknown, rest, m');
    } else {
      assert tail == rest && m.unknown + [] == m.unknown;
    }
  }

  lemma MergeIntoEmpty(c: Schema, a: Msg)
    requires Shaped(c, a)
    ensures Merge(Empty(c), a) == a
  {
    assert MergeStrings(Empty(c).strings, a.strings) == a.strings;
    assert [] + a.unknown == a.unknown;
  }

  /** Writing and parsing gives the message back exactly when nothing was dropped. */
  lemma RoundTrip(c: Schema, a: Msg)
    requires SchemaOk(c) && MsgOk(c, a)
    ensures ParseSpec(c, Encode(c, a), Empty(c)) == Success(Kept(c, a), true)
    ensures ParseSpec(c, Encode(c, a), Empty(c)) == Success(a, true) <==> c.preserve || a.unknown == []
  {
    ParseEncoded(c, a, [], Empty(c));
    assert Encode(c, a) + [] == Encode(c, a);
    MergeIntoEmpty(c, Kept(c, a));
  }

  /** Parsing the concatenation of two encodings is merging. */
  lemma Concatenation(c: Schema, a: Msg, b: Msg)
    requires SchemaOk(c) && MsgOk(c, a) && MsgOk(c, b)
    ensures ParseSpec(c, Encode(c, a) + Encode(c, b), Empty(c)) == Success(Merge(Kept(c, a), Kept(c, b)), true)
  {
    ParseEncoded(c, a, Encode(c, b), Empty(c));
    MergeIntoEmpty(c, Kept(c, a));
    ParseEncoded(c, b, [], Kept(c, a));
    assert Encode(c, b) + [] == Encode(c, b);
  }

  lemma StepIsOk(c: Schema, b: seq<Byte>, m: Msg)
    requires SchemaOk(c) && MsgOk(c, m)
    ensures Step(c, b, m).Next? ==> MsgOk(c, Step(c, b, m).msg)
    ensures Step(c, b, m).Stop? && Step(c, b, m).parsed.Success? ==> Step(c, b, m).parsed.msg == m
  {
    hide ReadVarint32, ReadString, ReadValue;
    var (tag, rest) := ReadTag(b);
    if tag != 0 && !Known(c, tag) {
      ReadValueIsOk(rest, tag / 8, tag % 8, RECURSION_LIMIT);
    }
  }

  /** Every message the parser produces from a writable one is writable. */
  lemma {:induction false} ParsedIsOk(c: Schema, b: seq<Byte>, m: Msg)
    requires SchemaOk(c) && MsgOk(c, m)
    ensures ParseSpec(c, b, m).Success? ==> MsgOk(c, ParseSpec(c, b, m).msg)
    decreases |b|
  {
    assert |m.strings| == c.n;
    hide Step, MsgOk;
    StepIsOk(c, b, m);
    match Step(c, b, m)
    case Stop(_) =>
    case Next(m', rest) => ParsedIsOk(c, rest, m');
  }

  /** For every accepted input, writing and parsing the result is the identity on what is kept: the
      canonical form is stable. */
  lemma ReparseIsIdentity(c: Schema, b: seq<Byte>)
    requires SchemaOk(c) && ParseSpec(c, b, Empty(c)).Success?
    ensures
      var a := ParseSpec(c, b, Empty(c)).msg;
      ParseSpec(c, Encode(c, a), Empty(c)) == Success(Kept(c, a), true)
  {
    ParsedIsOk(c, b, Empty(c));
    RoundTrip(c, ParseSpec(c, b, Empty(c)).msg);
  }
}
