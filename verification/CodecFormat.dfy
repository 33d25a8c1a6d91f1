/** Which inputs the generated parsers accept and what they make of them, and which bytes the serializers write, stated
    on the grammar of the wire format. */
module CodecFormat {
  import opened Common
  import opened Wire
  import opened WireFormat
  import opened Codec

  // ---------------------------------------------------------------- what is accepted

  /** A string with the number of a declared field. */
  predicate Declared(c: Schema, i: Item) {
    KindOf(i.tag) == 2 && 1 <= NumberOf(i.tag) <= c.n
  }

  function StringOf(i: Item): seq<Byte> {
    if i.body.Delimited? then i.body.s else []
  }

  predicate TextOk(c: Schema, i: Item) {
    Declared(c, i) ==> c.utf8(StringOf(i))
  }

  /** The input consists of complete fields, whose declared strings are valid, up to where it stops. */
  ghost predicate Splits(c: Schema, b: seq<Byte>, items: seq<Item>, tail: seq<Byte>) {
    && b == Texts(items) + tail && AllWellFormed(items, 100) && Stops(tail)
    && forall k | 0 <= k < |items| :: TextOk(c, items[k])
  }

  predicate IsFor(c: Schema, i: Item, number: nat) {
    Declared(c, i) && NumberOf(i.tag) == number
  }

  /** Item `k` is the last one for that field. */
  predicate LastFor(c: Schema, items: seq<Item>, number: nat, k: nat) {
    && k < |items| && IsFor(c, items[k], number)
    && forall l | k < l < |items| :: !IsFor(c, items[l], number)
  }

  /** A string becomes the last one for its field, and stays if there is none. */
  ghost predicate Becomes(c: Schema, items: seq<Item>, number: nat, was: seq<Byte>, now: seq<Byte>) {
    || (exists k: nat :: LastFor(c, items, number, k) && now == StringOf(items[k]))
    || ((forall k | 0 <= k < |items| :: !IsFor(c, items[k], number)) && now == was)
  }

  function Others(c: Schema, items: seq<Item>): seq<Item> {
    if items == [] then []
    else (if Declared(c, items[0]) then [] else [items[0]]) + Others(c, items[1..])
  }

  /** The fields turn message `a` into `m`: each string is the last one for its number, and what is not declared is kept
      in order. */
  ghost predicate Filled(c: Schema, items: seq<Item>, a: Msg, m: Msg) {
    && |a.strings| == |m.strings| == c.n
    && (forall i | 0 <= i < c.n :: Becomes(c, items, i + 1, a.strings[i], m.strings[i]))
    && m.unknown == a.unknown + Meanings(Others(c, items))
  }

  ghost predicate Acceptable(c: Schema, b: seq<Byte>) {
    exists items, tail :: Splits(c, b, items, tail)
  }

  /** Accepting `b` turns `a` into `m`, however it splits. */
  ghost predicate Turns(c: Schema, b: seq<Byte>, a: Msg, m: Msg, atEnd: bool) {
    forall items, tail | Splits(c, b, items, tail) :: Filled(c, items, a, m) && (atEnd <==> tail == [])
  }

  // ---------------------------------------------------------------- one round

  /** What one field does to a message. */
  function Applied(c: Schema, a: Msg, i: Item): (m: Msg)
    requires |a.strings| == c.n
    ensures |m.strings| == c.n
  {
    if Declared(c, i) then a.(strings := a.strings[NumberOf(i.tag) - 1 := StringOf(i)])
    else a.(unknown := a.unknown + [Meaning(i)])
  }

  lemma StepReads(c: Schema, i: Item, rest: seq<Byte>, a: Msg)
    requires |a.strings| == c.n && WellFormed(i, 100)
    ensures Step(c, Text(i) + rest, a) == if TextOk(c, i) then Next(Applied(c, a, i), rest) else Stop(Failure)
  {
    hide ReadTag, ReadString, ReadValue, IsVarint, Base128;
    var b := Text(i) + rest;
    assert b == i.tag + (BodyText(i.body) + rest);
    TagReads(i.tag, BodyText(i.body) + rest);
    if Declared(c, i) {
      StringReads(i.body.length, i.body.s, rest);
    } else {
      BodyReads(i.body, NumberOf(i.tag), KindOf(i.tag), 100, rest);
    }
  }

  lemma StepWasRead(c: Schema, b: seq<Byte>, a: Msg) returns (i: Item)
    requires |a.strings| == c.n && Step(c, b, a).Next?
    ensures WellFormed(i, 100) && TextOk(c, i) && b == Text(i) + Step(c, b, a).rest
  {
    hide ReadTag, ReadString, ReadValue, IsVarint, Base128;
    var (tag, rest) := ReadTag(b);
    var t := TagWasRead(b);
    if Known(c, tag) {
      var length := StringWasRead(rest);
      var s := ReadString(rest).value;
      i := Item(t, Delimited(length, s));
      assert b == t + (length + s + ReadString(rest).rest);
    } else {
      var x := BodyWasRead(rest, tag / 8, tag % 8, 100);
      i := Item(t, x);
      assert b == t + (BodyText(x) + ReadValue(rest, tag / 8, tag % 8, 100).rest);
    }
  }

  // ---------------------------------------------------------------- all rounds

  lemma NothingFilled(c: Schema, a: Msg)
    requires |a.strings| == c.n
    ensures Filled(c, [], a, a)
  {
    assert Meanings([]) == [] && a.unknown + [] == a.unknown;
  }

  lemma BecomesFirst(c: Schema, i: Item, more: seq<Item>, number: nat, was: seq<Byte>, now: seq<Byte>)
    requires Becomes(c, more, number, if IsFor(c, i, number) then StringOf(i) else was, now)
    ensures Becomes(c, [i] + more, number, was, now)
  {
    var items := [i] + more;
    assert forall l | 0 < l < |items| :: items[l] == more[l - 1];
    if k: nat :| LastFor(c, more, number, k) && now == StringOf(more[k]) {
      assert LastFor(c, items, number, k + 1) && items[k + 1] == more[k];
    } else if IsFor(c, i, number) {
      assert LastFor(c, items, number, 0);
    }
  }

  lemma OthersFirst(c: Schema, i: Item, more: seq<Item>)
    ensures Meanings(Others(c, [i] + more)) == (if Declared(c, i) then [] else [Meaning(i)]) + Meanings(Others(c, more))
  {
    assert ([i] + more)[1..] == more;
    var others := Others(c, more);
    if Declared(c, i) {
      assert [] + others == others && [] + Meanings(others) == Meanings(others);
    } else {
      assert ([i] + others)[1..] == others;
    }
  }

  lemma FilledFirst(c: Schema, i: Item, more: seq<Item>, a: Msg, m: Msg)
    requires |a.strings| == c.n && Filled(c, more, Applied(c, a, i), m)
    ensures Filled(c, [i] + more, a, m)
  {
    var a' := Applied(c, a, i);
    hide Becomes, Others;
    forall j | 0 <= j < c.n ensures Becomes(c, [i] + more, j + 1, a.strings[j], m.strings[j]) {
      assert a'.strings[j] == if IsFor(c, i, j + 1) then StringOf(i) else a.strings[j];
      BecomesFirst(c, i, more, j + 1, a.strings[j], m.strings[j]);
    }
    OthersFirst(c, i, more);
    assert a'.unknown == a.unknown + if Declared(c, i) then [] else [Meaning(i)];
  }

  /** Complete fields are taken into the message one by one. */
  lemma {:induction false} FieldsAreParsed(c: Schema, items: seq<Item>, rest: seq<Byte>, a: Msg) returns (m: Msg)
    requires |a.strings| == c.n && AllWellFormed(items, 100)
    requires forall k | 0 <= k < |items| :: TextOk(c, items[k])
    ensures Filled(c, items, a, m) && ParseSpec(c, Texts(items) + rest, a) == ParseSpec(c, rest, m)
    decreases |items|
  {
    if items == [] {
      m := a;
      NothingFilled(c, a);
      assert Texts(items) + rest == rest;
    } else {
      hide Step;
      var tail := Texts(items[1..]) + rest;
      assert Texts(items) + rest == Text(items[0]) + tail;
      StepReads(c, items[0], tail, a);
      m := FieldsAreParsed(c, items[1..], rest, Applied(c, a, items[0]));
      FilledFirst(c, items[0], items[1..], a, m);
      assert [items[0]] + items[1..] == items;
    }
  }

  lemma {:induction false} FieldsWereParsed(c: Schema, b: seq<Byte>, a: Msg) returns (items: seq<Item>, tail: seq<Byte>)
    requires |a.strings| == c.n && ParseSpec(c, b, a).Success?
    ensures Splits(c, b, items, tail)
    decreases |b|
  {
    match Step(c, b, a)
    case Stop(_) =>
      StopsIffZero(b);
      items, tail := [], b;
      assert Texts(items) + tail == b;
    case Next(a', rest) =>
      var i := StepWasRead(c, b, a);
      var more;
      more, tail := FieldsWereParsed(c, rest, a');
      items := [i] + more;
      assert items[1..] == more;
      assert b == Text(i) + (Texts(more) + tail);
  }

  /** The parser accepts an input exactly if it splits into complete fields up to where it stops, and then makes of it
      what the fields say; it stopped at the end exactly if nothing was left. */
  lemma ParsesIff(c: Schema, b: seq<Byte>, a: Msg)
    requires |a.strings| == c.n
    ensures ParseSpec(c, b, a).Success? <==> Acceptable(c, b)
    ensures ParseSpec(c, b, a).Success? ==> Turns(c, b, a, ParseSpec(c, b, a).msg, ParseSpec(c, b, a).atEnd)
  {
    if ParseSpec(c, b, a).Success? {
      var items, tail := FieldsWereParsed(c, b, a);
    }
    forall items, tail | Splits(c, b, items, tail)
      ensures ParseSpec(c, b, a).Success? && Filled(c, items, a, ParseSpec(c, b, a).msg)
      ensures ParseSpec(c, b, a).atEnd <==> tail == []
    {
      var m := FieldsAreParsed(c, items, tail, a);
      StopsIffZero(tail);
    }
  }

  // ---------------------------------------------------------------- what is rejected

  /** Fields that are complete and whose strings are valid. */
  predicate AllGood(c: Schema, items: seq<Item>) {
    AllWellFormed(items, 100) && forall k | 0 <= k < |items| :: TextOk(c, items[k])
  }

  /** After complete fields, a tag whose value cannot be read. */
  lemma UnreadableIsRejected(c: Schema, items: seq<Item>, tag: seq<Byte>, rest: seq<Byte>, a: Msg)
    requires |a.strings| == c.n && AllGood(c, items) && IsVarint(tag) && TagOf(tag) != 0
    requires ReadValue(rest, NumberOf(tag), KindOf(tag), 100).Fail?
    ensures ParseSpec(c, Texts(items) + (tag + rest), a) == Failure
  {
    hide ReadTag, ReadString, IsVarint, Base128;
    var m := FieldsAreParsed(c, items, tag + rest, a);
    TagReads(tag, rest);
  }

  /** A string, declared or not, of which fewer bytes are there than its length says. */
  lemma CutStringIsRejected(c: Schema, items: seq<Item>, tag: seq<Byte>, length: seq<Byte>, s: seq<Byte>, a: Msg)
    requires |a.strings| == c.n && AllGood(c, items) && IsVarint(tag) && NumberOf(tag) >= 1 && KindOf(tag) == 2
    requires IsVarint(length) && |s| < TagOf(length)
    ensures ParseSpec(c, Texts(items) + (tag + (length + s)), a) == Failure
  {
    VarintReads(length, s, MAX_VARINT_BYTES);
    UnreadableIsRejected(c, items, tag, length + s, a);
  }

  /** A declared string that is complete but not valid, whatever follows. */
  lemma InvalidTextIsRejected(c: Schema, items: seq<Item>, i: Item, rest: seq<Byte>, a: Msg)
    requires |a.strings| == c.n && AllGood(c, items)
    requires WellFormed(i, 100) && Declared(c, i) && !c.utf8(StringOf(i))
    ensures ParseSpec(c, Texts(items) + (Text(i) + rest), a) == Failure
  {
    hide Step;
    var m := FieldsAreParsed(c, items, Text(i) + rest, a);
    StepReads(c, i, rest, m);
  }

  /** A number of 32 or 64 bits of which bytes are missing. */
  lemma CutFixedIsRejected(c: Schema, items: seq<Item>, tag: seq<Byte>, s: seq<Byte>, a: Msg)
    requires |a.strings| == c.n && AllGood(c, items) && IsVarint(tag)
    requires (KindOf(tag) == 1 && |s| < 8) || (KindOf(tag) == 5 && |s| < 4)
    ensures ParseSpec(c, Texts(items) + (tag + s), a) == Failure
  {
    UnreadableIsRejected(c, items, tag, s, a);
  }

  /** A varint that does not end, within ten bytes or at all. */
  lemma EndlessNumberIsRejected(c: Schema, items: seq<Item>, tag: seq<Byte>, s: seq<Byte>, a: Msg)
    requires |a.strings| == c.n && AllGood(c, items) && IsVarint(tag) && TagOf(tag) != 0 && KindOf(tag) == 0
    requires forall n | 0 <= n <= |s| :: !IsVarint(s[..n])
    ensures ParseSpec(c, Texts(items) + (tag + s), a) == Failure
  {
    VarintIsPrefix(s);
    UnreadableIsRejected(c, items, tag, s, a);
  }

  /** A group, opened with fewer than a hundred others open, that the input stops in. */
  lemma OpenGroupIsRejected(c: Schema, items: seq<Item>, tag: seq<Byte>, inner: seq<Item>, tail: seq<Byte>, a: Msg)
    requires |a.strings| == c.n && AllGood(c, items) && IsVarint(tag) && KindOf(tag) == 3
    requires AllWellFormed(inner, 99) && Stops(tail)
    ensures ParseSpec(c, Texts(items) + (tag + (Texts(inner) + tail)), a) == Failure
  {
    GroupFails(inner, NumberOf(tag), 99, tail);
    UnreadableIsRejected(c, items, tag, Texts(inner) + tail, a);
  }

  lemma {:induction false} GroupFails(items: seq<Item>, number: nat, depth: nat, tail: seq<Byte>)
    requires AllWellFormed(items, depth) && Stops(tail)
    ensures ReadGroup(Texts(items) + tail, number, depth).Fail?
    decreases |items|
  {
    hide ReadTag, ReadValue, IsVarint, Base128;
    if items == [] {
      assert Texts(items) + tail == tail;
      StopsIffZero(tail);
    } else {
      var i := items[0];
      var more := Texts(items[1..]) + tail;
      assert Texts(items) + tail == i.tag + (BodyText(i.body) + more);
      TagReads(i.tag, BodyText(i.body) + more);
      BodyReads(i.body, NumberOf(i.tag), KindOf(i.tag), depth, more);
      GroupFails(items[1..], number, depth, tail);
    }
  }

  /** A tag of no kind, the end of a group that was not opened, or the field number 0. */
  lemma BadTagIsRejected(c: Schema, items: seq<Item>, tag: seq<Byte>, rest: seq<Byte>, a: Msg)
    requires |a.strings| == c.n && AllGood(c, items) && IsVarint(tag) && TagOf(tag) != 0
    requires KindOf(tag) in {4, 6, 7} || NumberOf(tag) == 0
    ensures ParseSpec(c, Texts(items) + (tag + rest), a) == Failure
  {
    UnreadableIsRejected(c, items, tag, rest, a);
  }

  // ---------------------------------------------------------------- what is written

  /** The declared strings that are not empty, from number `i + 1` on, and what follows them. */
  function FieldsFrom(strings: seq<seq<Byte>>, i: nat, more: seq<Field>): seq<Field>
    requires i <= |strings|
    decreases |strings| - i
  {
    if i == |strings| then more
    else (if strings[i] == [] then [] else [Field(i + 1, Bytes(strings[i]))]) + FieldsFrom(strings, i + 1, more)
  }

  /** The bytes are the shortest complete fields that mean the message: its strings that are not empty, in the order of
      their numbers, and then the fields that are preserved. */
  ghost predicate Written(c: Schema, a: Msg, bytes: seq<Byte>, items: seq<Item>) {
    && bytes == Texts(items) && AllWellFormed(items, 100) && ShortItems(items)
    && Meanings(items) == FieldsFrom(a.strings, 0, if c.preserve then a.unknown else [])
  }

  /** Provided that the message can be written at all. */
  ghost predicate IsWritten(c: Schema, a: Msg, bytes: seq<Byte>) {
    SchemaOk(c) && MsgOk(c, a) ==> exists items :: Written(c, a, bytes, items)
  }

  lemma OneOfFields(fs: seq<Field>)
    requires forall i | 0 <= i < |fs| :: FieldOk(fs[i], 100)
    ensures FieldsOk(fs, 100)
  {
    if fs != [] {
      OneOfFields(fs[1..]);
    }
  }

  lemma {:induction false} StringsAreWritten(c: Schema, a: Msg, i: nat, more: seq<Field>) returns (items: seq<Item>)
    requires SchemaOk(c) && MsgOk(c, a) && i <= c.n && FieldsOk(more, 100)
    ensures Texts(items) == EncodeStrings(a.strings, i) + EncodeFields(more)
    ensures AllWellFormed(items, 100) && ShortItems(items) && Meanings(items) == FieldsFrom(a.strings, i, more)
    decreases c.n - i
  {
    hide EncodeStrings, EncodeField, EncodeFields, AllWellFormed, ShortItems, Texts, Meanings, FieldOk;
    if i == c.n {
      NoStrings(a.strings, i);
      items := FieldsAreWritten(more, 100);
      assert EncodeStrings(a.strings, i) + EncodeFields(more) == EncodeFields(more);
    } else {
      items := StringsAreWritten(c, a, i + 1, more);
      StringsStep(a.strings, i, EncodeFields(more));
      if a.strings[i] == [] {
        assert [] + FieldsFrom(a.strings, i + 1, more) == FieldsFrom(a.strings, i + 1, more);
      } else {
        StringIsOk(c, a, i);
        var f := FieldIsWritten(Field(i + 1, Bytes(a.strings[i])), 100);
        OneMoreItem(f, items);
        items := [f] + items;
      }
    }
  }

  lemma StringIsOk(c: Schema, a: Msg, i: nat)
    requires SchemaOk(c) && MsgOk(c, a) && i < c.n && a.strings[i] != []
    ensures FieldOk(Field(i + 1, Bytes(a.strings[i])), 100)
  {
  }

  lemma OneMoreItem(i: Item, items: seq<Item>)
    ensures Texts([i] + items) == Text(i) + Texts(items) && Meanings([i] + items) == [Meaning(i)] + Meanings(items)
    ensures WellFormed(i, 100) && AllWellFormed(items, 100) ==> AllWellFormed([i] + items, 100)
    ensures ShortItem(i) && ShortItems(items) ==> ShortItems([i] + items)
  {
    assert ([i] + items)[1..] == items;
  }

  lemma StringsStep(a: seq<seq<Byte>>, i: nat, rest: seq<Byte>)
    requires i < |a|
    ensures EncodeStrings(a, i) + rest ==
      if a[i] == [] then EncodeStrings(a, i + 1) + rest
      else EncodeField(Field(i + 1, Bytes(a[i]))) + (EncodeStrings(a, i + 1) + rest)
  {
    hide EncodeVarint, EncodeString;
    var s := EncodeField(Field(i + 1, Bytes(a[i])));
    assert EncodeValue(i + 1, Bytes(a[i])) == EncodeString(a[i]);
    assert s == EncodeVarint(MakeTag(i + 1, LENGTH_DELIMITED)) + EncodeString(a[i]);
    assert EncodeStrings(a, i) == (if a[i] == [] then [] else s) + EncodeStrings(a, i + 1);
    hide EncodeStrings, EncodeField;
    assert [] + EncodeStrings(a, i + 1) == EncodeStrings(a, i + 1);
    assert s + EncodeStrings(a, i + 1) + rest == s + (EncodeStrings(a, i + 1) + rest);
  }

  /** Every message that can be written is written so. */
  lemma EncodeIsWritten(c: Schema, a: Msg) returns (items: seq<Item>)
    requires SchemaOk(c) && MsgOk(c, a)
    ensures Written(c, a, Encode(c, a), items)
  {
    var more := if c.preserve then a.unknown else [];
    OneOfFields(more);
    items := StringsAreWritten(c, a, 0, more);
  }

  lemma EncodingIsWritten(c: Schema, a: Msg)
    ensures IsWritten(c, a, Encode(c, a))
  {
    if SchemaOk(c) && MsgOk(c, a) {
      var items := EncodeIsWritten(c, a);
    }
  }

  /** A message whose only value is a short string: tag 10, 18, 26, 34, 42 and so on, its length and its bytes. */
  lemma OneString(c: Schema, a: Msg, i: nat)
    requires SchemaOk(c) && Shaped(c, a) && i < c.n && 1 <= |a.strings[i]| < 128 && a.unknown == []
    requires forall j | 0 <= j < c.n && j != i :: a.strings[j] == []
    ensures Encode(c, a) == [10 + 8 * i, |a.strings[i]|] + a.strings[i]
  {
    EmptyStrings(a.strings, 0, i);
    EmptyStrings(a.strings, i + 1, c.n);
    assert EncodeFields([]) == [];
  }

  lemma NoStrings(a: seq<seq<Byte>>, i: nat)
    requires i == |a|
    ensures EncodeStrings(a, i) == []
  {
  }

  lemma {:induction false} EmptyStrings(a: seq<seq<Byte>>, i: nat, n: nat)
    requires i <= n <= |a| && forall j | i <= j < n :: a[j] == []
    ensures EncodeStrings(a, i) == EncodeStrings(a, n)
    decreases n - i
  {
    if i < n {
      EmptyStrings(a, i + 1, n);
    }
  }

  /** Byte for byte: what a one-letter string is written as, what is read from it, and that the same string cut short is
      rejected. */
  lemma OneLetter(c: Schema)
    requires SchemaOk(c) && c.utf8([97])
    ensures Encode(c, Empty(c).(strings := Empty(c).strings[0 := [97]])) == [10, 1, 97]
    ensures ParseSpec(c, [10, 1, 97], Empty(c)) == Success(Empty(c).(strings := Empty(c).strings[0 := [97]]), true)
    ensures ParseSpec(c, [10, 5, 97], Empty(c)) == Failure
  {
    var a := Empty(c).(strings := Empty(c).strings[0 := [97]]);
    LetterIsOk(c, a);
    LetterTags();
    hide *;
    OneString(c, a, 0);
    RoundTrip(c, a);
    CutStringIsRejected(c, [], [10], [5], [97], Empty(c));
  }

  lemma LetterIsOk(c: Schema, a: Msg)
    requires SchemaOk(c) && c.utf8([97]) && a == Empty(c).(strings := Empty(c).strings[0 := [97]])
    ensures MsgOk(c, a) && Shaped(c, a) && Shaped(c, Empty(c)) && Kept(c, a) == a && AllGood(c, [])
  {
  }

  lemma LetterTags()
    ensures IsVarint([10]) && NumberOf([10]) == 1 && KindOf([10]) == 2 && IsVarint([5]) && TagOf([5]) == 5
    ensures Texts([]) + ([10] + ([5] + [97])) == [10, 5, 97]
  {
    assert [10][1..] == [] && [5][1..] == [];
  }
}
