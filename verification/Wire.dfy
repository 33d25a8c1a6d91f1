/** The wire format of Protocol Buffers: base 128 varints, tags, length-delimited records, groups, and the
    fields a message does not know. */
module Wire {
  import opened Common

  type Byte = b: nat | b < 256

  const TWO32: nat := 0x1_0000_0000
  const INT_MAX: nat := 0x7FFF_FFFF
  const MAX_VARINT_BYTES: nat := 10

  /** A value and the bytes after it, or failure. */
  datatype Result<+T> = Fail | Ok(value: T, rest: seq<Byte>)

  // ---------------------------------------------------------------- varints

  function EncodeVarint(n: nat): (s: seq<Byte>)
    ensures |s| > 0
  {
    if n < 128 then [n] else [n % 128 + 128] + EncodeVarint(n / 128)
  }

  /** Reads at most `limit` bytes; the bits of the value are not yet truncated. */
  function ReadVarint(b: seq<Byte>, limit: nat): (r: Result<nat>)
    ensures r.Ok? ==> |r.rest| < |b| && r.rest == b[|b| - |r.rest|..]
    decreases limit
  {
    if b == [] || limit == 0 then Fail
    else if b[0] < 128 then Ok(b[0], b[1..])
    else match ReadVarint(b[1..], limit - 1)
      case Fail => Fail
      case Ok(v, rest) => Ok(b[0] - 128 + 128 * v, rest)
  }

  function ReadVarint32(b: seq<Byte>): (r: Result<nat>)
    ensures r.Ok? ==> |r.rest| < |b| && r.value < TWO32
  {
    match ReadVarint(b, MAX_VARINT_BYTES)
    case Fail => Fail
    case Ok(v, rest) => Ok(v % TWO32, rest)
  }

  function ReadVarint64(b: seq<Byte>): (r: Result<nat>)
    ensures r.Ok? ==> |r.rest| < |b| && r.value < TWO64
  {
    match ReadVarint(b, MAX_VARINT_BYTES)
    case Fail => Fail
    case Ok(v, rest) => Ok(v % TWO64, rest)
  }

  function Pow128(k: nat): nat {
    if k == 0 then 1 else 128 * Pow128(k - 1)
  }

  lemma {:induction false} VarintRoundTrip(n: nat, limit: nat, rest: seq<Byte>)
    requires limit > 0 && n < Pow128(limit)
    ensures ReadVarint(EncodeVarint(n) + rest, limit) == Ok(n, rest)
    decreases limit
  {
    var s := EncodeVarint(n) + rest;
    if n < 128 {
      assert s[1..] == rest;
    } else {
      assert s[1..] == EncodeVarint(n / 128) + rest;
      VarintRoundTrip(n / 128, limit - 1, rest);
    }
  }

  lemma TenBytesAreEnough()
    ensures TWO64 < Pow128(MAX_VARINT_BYTES)
  {
    assert Pow128(2) == 16384;
    assert Pow128(4) == 128 * (128 * Pow128(2));
    assert Pow128(6) == 128 * (128 * Pow128(4));
    assert Pow128(8) == 128 * (128 * Pow128(6));
    assert Pow128(10) == 128 * (128 * Pow128(8));
  }

  lemma ReadsBack(n: nat, rest: seq<Byte>)
    requires n < TWO64
    ensures ReadVarint(EncodeVarint(n) + rest, MAX_VARINT_BYTES) == Ok(n, rest)
  {
    TenBytesAreEnough();
    VarintRoundTrip(n, MAX_VARINT_BYTES, rest);
  }

  lemma Varint32RoundTrip(n: nat, rest: seq<Byte>)
    requires n < TWO32
    ensures ReadVarint32(EncodeVarint(n) + rest) == Ok(n, rest)
  {
    ReadsBack(n, rest);
    assert n % TWO32 == n;
  }

  lemma Varint64RoundTrip(n: nat, rest: seq<Byte>)
    requires n < TWO64
    ensures ReadVarint64(EncodeVarint(n) + rest) == Ok(n, rest)
  {
    ReadsBack(n, rest);
    assert n % TWO64 == n;
  }

  // ---------------------------------------------------------------- fixed-size integers and byte strings

  function EncodeFixed(n: nat, width: nat): (s: seq<Byte>)
    ensures |s| == width
  {
    if width == 0 then [] else [n % 256] + EncodeFixed(n / 256, width - 1)
  }

  function DecodeFixed(s: seq<Byte>): nat {
    if s == [] then 0 else s[0] + 256 * DecodeFixed(s[1..])
  }

  function Pow256(k: nat): nat {
    if k == 0 then 1 else 256 * Pow256(k - 1)
  }

  lemma {:induction false} FixedRoundTrip(n: nat, width: nat)
    requires n < Pow256(width)
    ensures DecodeFixed(EncodeFixed(n, width)) == n
    decreases width
  {
    if width > 0 {
      assert EncodeFixed(n, width)[1..] == EncodeFixed(n / 256, width - 1);
      FixedRoundTrip(n / 256, width - 1);
    }
  }

  lemma {:induction false} FixedFits(s: seq<Byte>)
    ensures DecodeFixed(s) < Pow256(|s|)
  {
    if s != [] {
      FixedFits(s[1..]);
    }
  }

  function ReadRaw(b: seq<Byte>, n: nat): (r: Result<seq<Byte>>)
    ensures r.Ok? <==> n <= |b|
    ensures r.Ok? ==> b == r.value + r.rest && |r.value| == n
  {
    if n <= |b| then Ok(b[..n], b[n..]) else Fail
  }

  function EncodeString(s: seq<Byte>): seq<Byte> {
    EncodeVarint(|s|) + s
  }

  /** A length that does not fit a signed 32-bit integer is rejected. */
  function ReadString(b: seq<Byte>): (r: Result<seq<Byte>>)
    ensures r.Ok? ==> |r.rest| < |b| && |r.value| <= INT_MAX
  {
    match ReadVarint32(b)
    case Fail => Fail
    case Ok(n, rest) => if n <= INT_MAX then ReadRaw(rest, n) else Fail
  }

  lemma StringRoundTrip(s: seq<Byte>, rest: seq<Byte>)
    requires |s| <= INT_MAX
    ensures ReadString(EncodeString(s) + rest) == Ok(s, rest)
  {
    assert EncodeString(s) + rest == EncodeVarint(|s|) + (s + rest);
    Varint32RoundTrip(|s|, s + rest);
    assert (s + rest)[..|s|] == s && (s + rest)[|s|..] == rest;
  }

  // ---------------------------------------------------------------- tags

  const VARINT: nat := 0
  const FIXED64: nat := 1
  const LENGTH_DELIMITED: nat := 2
  const START_GROUP: nat := 3
  const END_GROUP: nat := 4
  const FIXED32: nat := 5
  const MAX_NUMBER: nat := 0x1FFF_FFFF

  function MakeTag(number: nat, wireType: nat): nat {
    number * 8 + wireType
  }

  /** `ReadTag`: a tag that cannot be read counts as 0, as does the end of the input. */
  function ReadTag(b: seq<Byte>): (r: (nat, seq<Byte>))
    ensures r.0 != 0 ==> |r.1| < |b|
    ensures r.0 < TWO32
  {
    match ReadVarint32(b)
    case Fail => (0, b)
    case Ok(tag, rest) => (tag, rest)
  }

  lemma OneByteTag(b: seq<Byte>)
    requires b != [] && b[0] < 128
    ensures ReadTag(b) == (b[0], b[1..])
  {
    assert b[0] % TWO32 == b[0];
  }

  lemma EndReadsAsZero(b: seq<Byte>)
    ensures b == [] ==> ReadTag(b) == (0, [])
  {
  }

  lemma TagRoundTrip(number: nat, wireType: nat, rest: seq<Byte>)
    requires 1 <= number <= MAX_NUMBER && wireType < 8
    ensures ReadTag(EncodeVarint(MakeTag(number, wireType)) + rest) == (MakeTag(number, wireType), rest)
    ensures MakeTag(number, wireType) / 8 == number && MakeTag(number, wireType) % 8 == wireType
  {
    Varint32RoundTrip(MakeTag(number, wireType), rest);
  }

  // ---------------------------------------------------------------- unknown fields

  datatype Field = Field(number: nat, value: Value)

  datatype Value =
    | Varint(n: nat)
    | Fixed32(n: nat)
    | Fixed64(n: nat)
    | Bytes(s: seq<Byte>)
    | Group(fields: seq<Field>)

  function WireType(v: Value): (t: nat)
    ensures t < 8
  {
    match v
    case Varint(_) => VARINT
    case Fixed32(_) => FIXED32
    case Fixed64(_) => FIXED64
    case Bytes(_) => LENGTH_DELIMITED
    case Group(_) => START_GROUP
  }

  function EncodeField(f: Field): seq<Byte>
    decreases f, 1
  {
    EncodeVarint(MakeTag(f.number, WireType(f.value))) + EncodeValue(f.number, f.value)
  }

  function EncodeValue(number: nat, v: Value): seq<Byte>
    decreases v, 0
  {
    match v
    case Varint(n) => EncodeVarint(n)
    case Fixed32(n) => EncodeFixed(n, 4)
    case Fixed64(n) => EncodeFixed(n, 8)
    case Bytes(s) => EncodeString(s)
    case Group(fs) => EncodeFields(fs) + EncodeVarint(MakeTag(number, END_GROUP))
  }

  function EncodeFields(fs: seq<Field>): seq<Byte>
    decreases fs, 0
  {
    if fs == [] then [] else EncodeField(fs[0]) + EncodeFields(fs[1..])
  }

  /** The value of a field whose tag has been read. `budget` is how many groups may still be nested. */
  function ReadValue(b: seq<Byte>, number: nat, wireType: nat, budget: nat): (r: Result<Value>)
    ensures r.Ok? ==> |r.rest| <= |b|
    decreases |b|, 1
  {
    if number == 0 then Fail
    else if wireType == VARINT then
      (match ReadVarint64(b) case Fail => Fail case Ok(n, rest) => Ok(Varint(n), rest))
    else if wireType == FIXED64 then
      (match ReadRaw(b, 8) case Fail => Fail case Ok(s, rest) => Ok(Fixed64(DecodeFixed(s)), rest))
    else if wireType == LENGTH_DELIMITED then
      (match ReadString(b) case Fail => Fail case Ok(s, rest) => Ok(Bytes(s), rest))
    else if wireType == START_GROUP && budget > 0 then
      (match ReadGroup(b, number, budget - 1) case Fail => Fail case Ok(fs, rest) => Ok(Group(fs), rest))
    else if wireType == FIXED32 then
      (match ReadRaw(b, 4) case Fail => Fail case Ok(s, rest) => Ok(Fixed32(DecodeFixed(s)), rest))
    else Fail
  }

  /** The fields up to the end tag of group `number`. */
  function ReadGroup(b: seq<Byte>, number: nat, budget: nat): (r: Result<seq<Field>>)
    ensures r.Ok? ==> |r.rest| <= |b|
    decreases |b|, 0
  {
    var (tag, rest) := ReadTag(b);
    if tag == 0 then Fail
    else if tag % 8 == END_GROUP then
      if tag / 8 == number then Ok([], rest) else Fail
    else match ReadValue(rest, tag / 8, tag % 8, budget)
      case Fail => Fail
      case Ok(v, rest') =>
        match ReadGroup(rest', number, budget)
        case Fail => Fail
        case Ok(fs, rest'') => Ok([Field(tag / 8, v)] + fs, rest'')
  }

  /** Fields that can come from the wire: numbers and sizes in range, groups nested at most `budget` deep. */
  ghost predicate FieldOk(f: Field, budget: nat)
    decreases f, 1
  {
    1 <= f.number <= MAX_NUMBER && ValueOk(f.value, budget)
  }

  ghost predicate ValueOk(v: Value, budget: nat)
    decreases v, 0
  {
    match v
    case Varint(n) => n < TWO64
    case Fixed32(n) => n < TWO32
    case Fixed64(n) => n < TWO64
    case Bytes(s) => |s| <= INT_MAX
    case Group(fs) => budget > 0 && FieldsOk(fs, budget - 1)
  }

  ghost predicate FieldsOk(fs: seq<Field>, budget: nat)
    decreases fs, 0
  {
    fs != [] ==> FieldOk(fs[0], budget) && FieldsOk(fs[1..], budget)
  }

  lemma FixedWidths()
    ensures Pow256(4) == TWO32 && Pow256(8) == TWO64
  {
    assert Pow256(2) == 65536;
    assert Pow256(4) == 256 * (256 * Pow256(2));
    assert Pow256(6) == 256 * (256 * Pow256(4));
    assert Pow256(8) == 256 * (256 * Pow256(6));
  }

  lemma {:induction false} ValueRoundTrip(number: nat, v: Value, budget: nat, rest: seq<Byte>)
    requires 1 <= number <= MAX_NUMBER && ValueOk(v, budget)
    ensures ReadValue(EncodeValue(number, v) + rest, number, WireType(v), budget) == Ok(v, rest)
    decreases v, 0
  {
    FixedWidths();
    var b := EncodeValue(number, v) + rest;
    match v
    case Varint(n) => Varint64RoundTrip(n, rest);
    case Fixed32(n) =>
      assert b[..4] == EncodeFixed(n, 4) && b[4..] == rest;
      FixedRoundTrip(n, 4);
    case Fixed64(n) =>
      assert b[..8] == EncodeFixed(n, 8) && b[8..] == rest;
      FixedRoundTrip(n, 8);
    case Bytes(s) => StringRoundTrip(s, rest);
    case Group(fs) =>
      assert b == EncodeFields(fs) + (EncodeVarint(MakeTag(number, END_GROUP)) + rest);
      GroupRoundTrip(fs, number, budget - 1, rest);
  }

  lemma {:induction false} FieldRoundTrip(f: Field, budget: nat, rest: seq<Byte>)
    requires FieldOk(f, budget)
    ensures
      var (tag, rest') := ReadTag(EncodeField(f) + rest);
      && tag == MakeTag(f.number, WireType(f.value)) && tag / 8 == f.number && tag % 8 == WireType(f.value)
      && ReadValue(rest', tag / 8, tag % 8, budget) == Ok(f.value, rest)
    decreases f, 1
  {
    var tag, body := EncodeVarint(MakeTag(f.number, WireType(f.value))), EncodeValue(f.number, f.value);
    assert EncodeField(f) + rest == tag + (body + rest);
    TagRoundTrip(f.number, WireType(f.value), body + rest);
    ValueRoundTrip(f.number, f.value, budget, rest);
  }

  lemma {:induction false} GroupRoundTrip(fs: seq<Field>, number: nat, budget: nat, rest: seq<Byte>)
    requires 1 <= number <= MAX_NUMBER && FieldsOk(fs, budget)
    ensures ReadGroup(EncodeFields(fs) + (EncodeVarint(MakeTag(number, END_GROUP)) + rest), number, budget) ==
      Ok(fs, rest)
    decreases fs, 1
  {
    hide ReadTag, ReadValue, EncodeField, EncodeVarint;
    var tail := EncodeVarint(MakeTag(number, END_GROUP)) + rest;
    if fs == [] {
      assert EncodeFields(fs) + tail == tail;
      TagRoundTrip(number, END_GROUP, rest);
    } else {
      var t := EncodeFields(fs[1..]) + tail;
      assert EncodeFields(fs) + tail == EncodeField(fs[0]) + t;
      FieldRoundTrip(fs[0], budget, t);
      GroupRoundTrip(fs[1..], number, budget, rest);
      assert [fs[0]] + fs[1..] == fs && Field(fs[0].number, fs[0].value) == fs[0];
    }
  }

  /** Whatever is read from the wire can be written and read again. */
  lemma {:induction false} ReadValueIsOk(b: seq<Byte>, number: nat, wireType: nat, budget: nat)
    ensures
      var r := ReadValue(b, number, wireType, budget);
      r.Ok? ==> number >= 1 && ValueOk(r.value, budget) && WireType(r.value) == wireType
    decreases |b|, 1
  {
    FixedWidths();
    if number != 0 {
      if wireType == FIXED64 && |b| >= 8 {
        FixedFits(b[..8]);
      } else if wireType == FIXED32 && |b| >= 4 {
        FixedFits(b[..4]);
      } else if wireType == START_GROUP && budget > 0 {
        ReadGroupIsOk(b, number, budget - 1);
      }
    }
  }

  lemma {:induction false} ReadGroupIsOk(b: seq<Byte>, number: nat, budget: nat)
    ensures var r := ReadGroup(b, number, budget); r.Ok? ==> FieldsOk(r.value, budget)
    decreases |b|, 0
  {
    var (tag, rest) := ReadTag(b);
    if tag != 0 && tag % 8 != END_GROUP {
      ReadValueIsOk(rest, tag / 8, tag % 8, budget);
      match ReadValue(rest, tag / 8, tag % 8, budget)
      case Fail =>
      case Ok(v, rest') =>
        ReadGroupIsOk(rest', number, budget);
        match ReadGroup(rest', number, budget)
        case Fail =>
        case Ok(fs, _) => assert ([Field(tag / 8, v)] + fs)[1..] == fs;
    }
  }
}
