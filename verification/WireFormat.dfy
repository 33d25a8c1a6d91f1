/** The wire format as a grammar: which bytes are complete fields, and what they mean, without a word on how they are
    read or written; and the proof that the readers read exactly these and the writers write the shortest of them. */
module WireFormat {
  import opened Common
  import opened Wire

  // ---------------------------------------------------------------- varints

  /** All bytes but the last have their high bit set, and there are at most ten. */
  predicate IsVarint(s: seq<Byte>) {
    1 <= |s| <= 10 && s[|s| - 1] < 128 && forall i | 0 <= i < |s| - 1 :: s[i] >= 128
  }

  /** Seven bits of each byte, the lowest first. */
  function Base128(s: seq<Byte>): nat {
    if s == [] then 0 else s[0] % 128 + 128 * Base128(s[1..])
  }

  lemma {:induction false} VarintReads(s: seq<Byte>, rest: seq<Byte>, limit: nat)
    requires IsVarint(s) && |s| <= limit
    ensures ReadVarint(s + rest, limit) == Ok(Base128(s), rest)
    decreases |s|
  {
    var b := s + rest;
    assert b[0] == s[0];
    if |s| == 1 {
      assert b[1..] == rest && s[1..] == [];
    } else {
      assert b[1..] == s[1..] + rest;
      VarintReads(s[1..], rest, limit - 1);
    }
  }

  /** What was read is a varint that the input starts with. */
  lemma {:induction false} VarintWasRead(b: seq<Byte>, limit: nat) returns (s: seq<Byte>)
    requires limit <= 10 && ReadVarint(b, limit).Ok?
    ensures
      var r := ReadVarint(b, limit);
      IsVarint(s) && |s| <= limit && b == s + r.rest && r.value == Base128(s)
    decreases limit
  {
    var x, r := b[0], ReadVarint(b, limit);
    if x < 128 {
      s := [x];
      assert s[1..] == [];
      assert b == s + b[1..];
    } else {
      var t := VarintWasRead(b[1..], limit - 1);
      hide IsVarint, Base128;
      s := [x] + t;
      VarintCons(x, t);
      assert b == [x] + b[1..] == [x] + (t + r.rest) == s + r.rest;
    }
  }

  lemma VarintCons(x: Byte, t: seq<Byte>)
    requires x >= 128 && IsVarint(t) && |t| <= 9
    ensures IsVarint([x] + t) && |[x] + t| == |t| + 1 && Base128([x] + t) == x - 128 + 128 * Base128(t)
  {
    assert ([x] + t)[1..] == t;
  }

  lemma VarintIsPrefix(s: seq<Byte>)
    ensures ReadVarint(s, MAX_VARINT_BYTES).Ok? ==> exists n | 0 <= n <= |s| :: IsVarint(s[..n])
  {
    if ReadVarint(s, MAX_VARINT_BYTES).Ok? {
      var t := VarintWasRead(s, MAX_VARINT_BYTES);
      assert s[..|t|] == t;
    }
  }

  // ---------------------------------------------------------------- fields

  /** The bytes of one field: its tag, and what follows it. */
  datatype Item = Item(tag: seq<Byte>, body: Body)

  datatype Body =
    | Number(s: seq<Byte>)                            // a varint
    | Raw(s: seq<Byte>)                               // four or eight bytes
    | Delimited(length: seq<Byte>, s: seq<Byte>)      // a varint and that many bytes
    | Nested(items: seq<Item>, end: seq<Byte>)        // fields and an end tag

  function Text(i: Item): seq<Byte>
    decreases i, 1
  {
    i.tag + BodyText(i.body)
  }

  function BodyText(b: Body): seq<Byte>
    decreases b, 0
  {
    match b
    case Number(s) => s
    case Raw(s) => s
    case Delimited(length, s) => length + s
    case Nested(items, end) => Texts(items) + end
  }

  function Texts(items: seq<Item>): seq<Byte>
    decreases items, 0
  {
    if items == [] then [] else Text(items[0]) + Texts(items[1..])
  }

  /** A tag is a 32-bit number: the field's number and, in the low three bits, its kind. */
  function TagOf(tag: seq<Byte>): nat {
    Base128(tag) % 0x1_0000_0000
  }

  function NumberOf(tag: seq<Byte>): nat {
    TagOf(tag) / 8
  }

  function KindOf(tag: seq<Byte>): nat {
    TagOf(tag) % 8
  }

  /** Complete fields, with at most `depth` groups nested. */
  predicate WellFormed(i: Item, depth: nat)
    decreases i, 1
  {
    IsVarint(i.tag) && NumberOf(i.tag) >= 1 && BodyOk(i.body, NumberOf(i.tag), KindOf(i.tag), depth)
  }

  predicate BodyOk(b: Body, number: nat, kind: nat, depth: nat)
    decreases b, 0
  {
    match kind
    case 0 => b.Number? && IsVarint(b.s)
    case 1 => b.Raw? && |b.s| == 8
    case 2 => b.Delimited? && IsVarint(b.length) && TagOf(b.length) == |b.s| <= 0x7FFF_FFFF
    case 3 =>
      && b.Nested? && depth > 0 && AllWellFormed(b.items, depth - 1)
      && IsVarint(b.end) && NumberOf(b.end) == number && KindOf(b.end) == 4
    case 5 => b.Raw? && |b.s| == 4
    case _ => false
  }

  predicate AllWellFormed(items: seq<Item>, depth: nat)
    decreases items, 0
  {
    items != [] ==> WellFormed(items[0], depth) && AllWellFormed(items[1..], depth)
  }

  /** No tag but 0 can be read: the end of the input, a tag that is cut off or too long, or a 0. */
  predicate Stops(tail: seq<Byte>) {
    forall n | 0 <= n <= |tail| && IsVarint(tail[..n]) :: TagOf(tail[..n]) == 0
  }

  // ---------------------------------------------------------------- what they mean

  function Meaning(i: Item): Field
    decreases i, 1
  {
    Field(NumberOf(i.tag), BodyMeaning(i.body))
  }

  function BodyMeaning(b: Body): Value
    decreases b, 0
  {
    match b
    case Number(s) => Varint(Base128(s) % 0x1_0000_0000_0000_0000)
    case Raw(s) => if |s| == 4 then Fixed32(Fixed(s)) else Fixed64(Fixed(s))
    case Delimited(_, s) => Bytes(s)
    case Nested(items, _) => Group(Meanings(items))
  }

  function Meanings(items: seq<Item>): (r: seq<Field>)
    ensures |r| == |items|
    decreases items, 0
  {
    if items == [] then [] else [Meaning(items[0])] + Meanings(items[1..])
  }

  /** The lowest byte first. */
  function Fixed(s: seq<Byte>): nat {
    if |s| == 0 then 0 else Fixed(s[..|s| - 1]) + s[|s| - 1] * Pow256(|s| - 1)
  }

  lemma {:induction false} FixedIsDecoded(s: seq<Byte>)
    ensures DecodeFixed(s) == Fixed(s)
    decreases |s|
  {
    if s != [] {
      DecodeLast(s);
      FixedIsDecoded(s[..|s| - 1]);
    }
  }

  lemma {:induction false} DecodeLast(s: seq<Byte>)
    requires s != []
    ensures DecodeFixed(s) == DecodeFixed(s[..|s| - 1]) + s[|s| - 1] * Pow256(|s| - 1)
    decreases |s|
  {
    var n := |s| - 1;
    if n > 0 {
      DecodeLast(s[1..]);
      assert s[1..][..n - 1] == s[..n][1..];
      Scaled(s[n], Pow256(n - 1));
    }
  }

  lemma Scaled(x: nat, p: nat)
    ensures 256 * (x * p) == x * (256 * p)
  {
  }

  // ---------------------------------------------------------------- the readers read exactly these

  lemma TagReads(tag: seq<Byte>, rest: seq<Byte>)
    requires IsVarint(tag)
    ensures ReadTag(tag + rest) == (TagOf(tag), rest)
  {
    VarintReads(tag, rest, MAX_VARINT_BYTES);
  }

  lemma TagWasRead(b: seq<Byte>) returns (tag: seq<Byte>)
    requires ReadTag(b).0 != 0
    ensures IsVarint(tag) && b == tag + ReadTag(b).1 && TagOf(tag) == ReadTag(b).0
  {
    tag := VarintWasRead(b, MAX_VARINT_BYTES);
  }

  lemma StopsIffZero(b: seq<Byte>)
    ensures Stops(b) <==> ReadTag(b).0 == 0
  {
    hide ReadTag, IsVarint, TagOf;
    if ReadTag(b).0 != 0 {
      var tag := TagWasRead(b);
      assert b[..|tag|] == tag;
    }
    forall n | 0 <= n <= |b| && IsVarint(b[..n]) ensures TagOf(b[..n]) == ReadTag(b).0 {
      TagReads(b[..n], b[n..]);
      assert b == b[..n] + b[n..];
    }
  }

  lemma StringReads(length: seq<Byte>, s: seq<Byte>, rest: seq<Byte>)
    requires IsVarint(length) && TagOf(length) == |s| <= 0x7FFF_FFFF
    ensures ReadString(length + s + rest) == Ok(s, rest)
  {
    assert length + s + rest == length + (s + rest);
    VarintReads(length, s + rest, MAX_VARINT_BYTES);
    assert (s + rest)[..|s|] == s && (s + rest)[|s|..] == rest;
  }

  lemma StringWasRead(b: seq<Byte>) returns (length: seq<Byte>)
    requires ReadString(b).Ok?
    ensures
      var r := ReadString(b);
      IsVarint(length) && b == length + r.value + r.rest && TagOf(length) == |r.value| <= 0x7FFF_FFFF
  {
    length := VarintWasRead(b, MAX_VARINT_BYTES);
  }

  lemma RawReads(s: seq<Byte>, rest: seq<Byte>)
    ensures ReadRaw(s + rest, |s|) == Ok(s, rest)
  {
  }

  lemma {:induction false} BodyReads(b: Body, number: nat, kind: nat, depth: nat, rest: seq<Byte>)
    requires number >= 1 && BodyOk(b, number, kind, depth)
    ensures ReadValue(BodyText(b) + rest, number, kind, depth) == Ok(BodyMeaning(b), rest)
    decreases b, 0
  {
    hide ReadVarint, ReadString, ReadTag;
    match b
    case Number(s) => VarintReads(s, rest, MAX_VARINT_BYTES);
    case Raw(s) =>
      FixedIsDecoded(s);
      RawReads(s, rest);
    case Delimited(length, s) => StringReads(length, s, rest);
    case Nested(items, end) =>
      GroupReads(items, end, number, depth - 1, rest);
      assert Texts(items) + end + rest == Texts(items) + (end + rest);
  }

  lemma {:induction false} GroupReads(items: seq<Item>, end: seq<Byte>, number: nat, depth: nat, rest: seq<Byte>)
    requires AllWellFormed(items, depth) && IsVarint(end) && NumberOf(end) == number && KindOf(end) == 4
    ensures ReadGroup(Texts(items) + (end + rest), number, depth) == Ok(Meanings(items), rest)
    decreases items, 1
  {
    hide ReadTag, ReadValue;
    var tail := end + rest;
    if items == [] {
      assert Texts(items) + tail == tail;
      TagReads(end, rest);
    } else {
      var i := items[0];
      var more := Texts(items[1..]) + tail;
      assert Texts(items) + tail == i.tag + (BodyText(i.body) + more);
      TagReads(i.tag, BodyText(i.body) + more);
      BodyReads(i.body, NumberOf(i.tag), KindOf(i.tag), depth, more);
      GroupReads(items[1..], end, number, depth, rest);
    }
  }

  lemma {:induction false} BodyWasRead(b: seq<Byte>, number: nat, kind: nat, depth: nat) returns (x: Body)
    requires ReadValue(b, number, kind, depth).Ok?
    ensures number >= 1 && BodyOk(x, number, kind, depth)
    ensures
      var r := ReadValue(b, number, kind, depth);
      b == BodyText(x) + r.rest && r.value == BodyMeaning(x)
    decreases |b|, 1
  {
    hide ReadVarint, ReadString, ReadGroup;
    if kind == 0 {
      var s := VarintWasRead(b, MAX_VARINT_BYTES);
      x := Number(s);
    } else if kind == 2 {
      var length := StringWasRead(b);
      x := Delimited(length, ReadString(b).value);
    } else if kind == 3 {
      var items, end := GroupWasRead(b, number, depth - 1);
      x := Nested(items, end);
    } else {
      var s := b[..if kind == 1 then 8 else 4];
      x := Raw(s);
      FixedIsDecoded(s);
    }
  }

  lemma {:induction false} GroupWasRead(b: seq<Byte>, number: nat, depth: nat)
    returns (items: seq<Item>, end: seq<Byte>)
    requires ReadGroup(b, number, depth).Ok?
    ensures AllWellFormed(items, depth) && IsVarint(end) && NumberOf(end) == number && KindOf(end) == 4
    ensures
      var r := ReadGroup(b, number, depth);
      b == Texts(items) + end + r.rest && r.value == Meanings(items)
    decreases |b|, 0
  {
    hide ReadTag, ReadValue;
    var (tag, rest) := ReadTag(b);
    var t := TagWasRead(b);
    if tag % 8 == 4 {
      items, end := [], t;
      assert Texts(items) + end == end;
    } else {
      var x := BodyWasRead(rest, tag / 8, tag % 8, depth);
      var rest' := ReadValue(rest, tag / 8, tag % 8, depth).rest;
      var more;
      more, end := GroupWasRead(rest', number, depth);
      items := [Item(t, x)] + more;
      assert items[1..] == more;
      assert b == t + (BodyText(x) + (Texts(more) + end + ReadGroup(b, number, depth).rest));
    }
  }

  // ---------------------------------------------------------------- the writers write the shortest of these

  /** No byte could be saved. */
  predicate Short(s: seq<Byte>) {
    |s| > 1 ==> s[|s| - 1] != 0
  }

  predicate ShortItem(i: Item)
    decreases i, 1
  {
    Short(i.tag) && Base128(i.tag) == TagOf(i.tag) && ShortBody(i.body)
  }

  predicate ShortBody(b: Body)
    decreases b, 0
  {
    match b
    case Number(s) => Short(s) && Base128(s) < 0x1_0000_0000_0000_0000
    case Raw(_) => true
    case Delimited(length, s) => Short(length) && Base128(length) == |s|
    case Nested(items, end) => ShortItems(items) && Short(end) && Base128(end) == TagOf(end)
  }

  predicate ShortItems(items: seq<Item>)
    decreases items, 0
  {
    items != [] ==> ShortItem(items[0]) && ShortItems(items[1..])
  }

  lemma {:induction false} VarintIsWritten(n: nat, limit: nat)
    requires 1 <= limit <= 10 && n < Pow128(limit)
    ensures
      var s := EncodeVarint(n);
      IsVarint(s) && |s| <= limit && Short(s) && Base128(s) == n && (n > 0 ==> s[|s| - 1] != 0)
    decreases limit
  {
    if n < 128 {
      assert EncodeVarint(n)[1..] == [];
    } else {
      VarintIsWritten(n / 128, limit - 1);
      VarintCons(n % 128 + 128, EncodeVarint(n / 128));
    }
  }

  lemma Varint64IsWritten(n: nat)
    requires n < TWO64
    ensures IsVarint(EncodeVarint(n)) && Short(EncodeVarint(n)) && Base128(EncodeVarint(n)) == n
  {
    TenBytesAreEnough();
    VarintIsWritten(n, 10);
  }

  lemma TagIsWritten(number: nat, kind: nat) returns (tag: seq<Byte>)
    requires 1 <= number <= MAX_NUMBER && kind < 8
    ensures tag == EncodeVarint(MakeTag(number, kind)) && IsVarint(tag) && Short(tag)
    ensures Base128(tag) == TagOf(tag) == 8 * number + kind && NumberOf(tag) == number && KindOf(tag) == kind
  {
    tag := EncodeVarint(MakeTag(number, kind));
    Varint64IsWritten(MakeTag(number, kind));
  }

  lemma FixedIsWritten(n: nat, width: nat)
    requires n < Pow256(width)
    ensures Fixed(EncodeFixed(n, width)) == n
  {
    FixedRoundTrip(n, width);
    FixedIsDecoded(EncodeFixed(n, width));
  }

  /** The bytes of a field are the shortest that mean it. */
  lemma {:induction false} FieldIsWritten(f: Field, depth: nat) returns (i: Item)
    requires FieldOk(f, depth)
    ensures Text(i) == EncodeField(f) && WellFormed(i, depth) && Meaning(i) == f && ShortItem(i)
    decreases f, 1
  {
    hide EncodeVarint, EncodeFixed, IsVarint, Short, Base128;
    var tag := TagIsWritten(f.number, WireType(f.value));
    var body := ValueIsWritten(f.number, f.value, depth);
    i := Item(tag, body);
  }

  lemma {:induction false} ValueIsWritten(number: nat, v: Value, depth: nat) returns (b: Body)
    requires 1 <= number <= MAX_NUMBER && ValueOk(v, depth)
    ensures BodyText(b) == EncodeValue(number, v) && BodyOk(b, number, WireType(v), depth)
    ensures BodyMeaning(b) == v && ShortBody(b)
    decreases v, 0
  {
    hide EncodeVarint, EncodeFixed, IsVarint, Short, Base128;
    FixedWidths();
    match v
    case Varint(n) =>
      Varint64IsWritten(n);
      b := Number(EncodeVarint(n));
    case Fixed32(n) =>
      FixedIsWritten(n, 4);
      b := Raw(EncodeFixed(n, 4));
    case Fixed64(n) =>
      FixedIsWritten(n, 8);
      b := Raw(EncodeFixed(n, 8));
    case Bytes(s) =>
      Varint64IsWritten(|s|);
      b := Delimited(EncodeVarint(|s|), s);
    case Group(fs) =>
      var items := FieldsAreWritten(fs, depth - 1);
      var end := TagIsWritten(number, 4);
      b := Nested(items, end);
  }

  lemma {:induction false} FieldsAreWritten(fs: seq<Field>, depth: nat) returns (items: seq<Item>)
    requires FieldsOk(fs, depth)
    ensures Texts(items) == EncodeFields(fs) && AllWellFormed(items, depth)
    ensures Meanings(items) == fs && ShortItems(items)
    decreases fs, 0
  {
    if fs == [] {
      items := [];
    } else {
      var i := FieldIsWritten(fs[0], depth);
      var more := FieldsAreWritten(fs[1..], depth);
      items := [i] + more;
      assert items[1..] == more;
    }
  }
}
