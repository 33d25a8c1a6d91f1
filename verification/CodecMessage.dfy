/** The generated message class: a parse loop that fills its fields, two serializers, the size they agree
    on, and merging. */
module CodecMessage {
  import opened Common
  import opened Wire
  import opened CodedStreams
  import opened Codec
  import opened CodecFormat
  import opened Sizes

  class CodedOutputStream {
    var written: seq<Byte>

    constructor ()
      ensures written == []
    {
      written := [];
    }

    method WriteRaw(s: seq<Byte>)
      modifies this
      ensures written == old(written) + s
    {
      written := written + s;
    }
  }

  /** Writes `value` seven bits at a time. */
  method WriteVarintToArray(value: nat, target: array<Byte>, at: nat) returns (end: nat)
    requires at + |EncodeVarint(value)| <= target.Length
    modifies target
    ensures Wrote(old(target[..]), target[..], at, EncodeVarint(value), end)
  {
    var v := value;
    end := at;
    ghost var t, written := target[..], [];
    while v >= 128
      invariant end + |EncodeVarint(v)| <= target.Length
      invariant Wrote(t, target[..], at, written, end)
      invariant written + EncodeVarint(v) == EncodeVarint(value)
      decreases v
    {
      ghost var u := target[..];
      target[end] := v % 128 + 128;
      WroteByte(t, u, target[..], at, written, end);
      written := written + [target[end]];
      v := v / 128;
      end := end + 1;
    }
    ghost var u := target[..];
    target[end] := v;
    WroteByte(t, u, target[..], at, written, end);
    end := end + 1;
  }

  lemma WroteByte(t: seq<Byte>, u: seq<Byte>, v: seq<Byte>, at: nat, s: seq<Byte>, end: nat)
    requires Wrote(t, u, at, s, end) && end < |u| == |v| && v == u[end := v[end]]
    ensures Wrote(t, v, at, s + [v[end]], end + 1)
  {
    assert v[..at] == u[..at];
    assert v[at..end + 1] == u[at..end] + [v[end]];
    assert v[end + 1..] == u[end..][1..];
  }

  method WriteRawToArray(s: seq<Byte>, target: array<Byte>, at: nat) returns (end: nat)
    requires at + |s| <= target.Length
    modifies target
    ensures Wrote(old(target[..]), target[..], at, s, end)
  {
    for i := 0 to |s|
      invariant target[at..at + i] == s[..i]
      invariant target[..at] == old(target[..at]) && target[at + i..] == old(target[at + i..])
    {
      target[at + i] := s[i];
      assert target[at..at + i + 1] == target[at..at + i] + [s[i]];
    }
    end := at + |s|;
  }

  /** `t` became `u` by writing `s` at position `at`, and nothing else; `end` is the position after it. */
  ghost predicate Wrote(t: seq<Byte>, u: seq<Byte>, at: nat, s: seq<Byte>, end: nat) {
    && end == at + |s| <= |t| == |u|
    && u[..at] == t[..at] && u[at..end] == s && u[end..] == t[end..]
  }

  lemma WroteBoth(t: seq<Byte>, u: seq<Byte>, v: seq<Byte>, at: nat, s: seq<Byte>, mid: nat, s': seq<Byte>, end: nat)
    requires Wrote(t, u, at, s, mid) && Wrote(u, v, mid, s', end)
    ensures Wrote(t, v, at, s + s', end)
  {
    assert v[at..end] == v[..mid][at..] + v[mid..end];
    assert v[..at] == v[..mid][..at] && u[..mid][at..] == u[at..mid];
    assert v[end..] == u[end..] == u[mid..][|s'|..];
  }

  lemma StringsFrom(a: seq<seq<Byte>>, i: nat, before: seq<Byte>)
    requires i < |a|
    ensures
      var first := EncodeVarint(MakeTag(i + 1, LENGTH_DELIMITED));
      before + EncodeStrings(a, i) ==
        if a[i] == [] then before + EncodeStrings(a, i + 1)
        else before + first + EncodeString(a[i]) + EncodeStrings(a, i + 1)
  {
    var first, rest := EncodeVarint(MakeTag(i + 1, LENGTH_DELIMITED)), EncodeStrings(a, i + 1);
    assert EncodeStrings(a, i) == (if a[i] == [] then [] else first + EncodeString(a[i])) + rest;
    hide *;
    assert [] + rest == rest;
    Assoc4(before, first, EncodeString(a[i]), rest);
  }

  lemma Assoc4(a: seq<Byte>, b: seq<Byte>, c: seq<Byte>, d: seq<Byte>)
    ensures a + ((b + c) + d) == a + b + c + d
  {
  }

  lemma NoStringsFrom(a: seq<seq<Byte>>, i: nat)
    requires i == |a|
    ensures EncodeStrings(a, i) == []
  {
  }

  class Message {
    const schema: Schema
    var strings: seq<seq<Byte>>
    var unknown: seq<Field>

    ghost predicate Valid()
      reads this
    {
      SchemaOk(schema) && |strings| == schema.n
    }

    ghost function Value(): Msg
      reads this
    {
      Msg(strings, unknown)
    }

    constructor (schema: Schema)
      requires SchemaOk(schema)
      ensures this.schema == schema && Valid() && Value() == Empty(schema)
    {
      this.schema := schema;
      strings, unknown := seq(schema.n, _ => []), [];
    }

    method Clear()
      requires Valid()
      modifies this
      ensures Valid() && Value() == Empty(schema)
    {
      strings, unknown := seq(schema.n, _ => []), [];
    }

    method MergePartialFromCodedStream(input: CodedInputStream) returns (ok: bool)
      requires Valid()
      modifies this, input
      ensures Valid()
      ensures
        match ParseSpec(schema, old(input.rest), old(Value()))
        case Failure => !ok
        case Success(a, atEnd) => ok && Value() == a && input.legitimateEnd == atEnd
      ensures ok <==> Acceptable(schema, old(input.rest))
      ensures ok ==> Turns(schema, old(input.rest), old(Value()), Value(), input.legitimateEnd)
    {
      SchemaSize();
      hide *;
      ParsesIff(schema, input.rest, Value());
      ok := ReadFields(input);
    }

    lemma SchemaSize()
      requires Valid()
      ensures |Value().strings| == schema.n
    {
    }

    /** The loop over the tags. */
    method ReadFields(input: CodedInputStream) returns (ok: bool)
      requires Valid()
      modifies this, input
      ensures Valid()
      ensures
        match ParseSpec(schema, old(input.rest), old(Value()))
        case Failure => !ok
        case Success(a, atEnd) => ok && Value() == a && input.legitimateEnd == atEnd
    {
      hide ReadTag, ReadString, ReadValue;
      while true
        invariant Valid()
        invariant ParseSpec(schema, input.rest, Value()) == ParseSpec(schema, old(input.rest), old(Value()))
        decreases |input.rest|
      {
        var tag, below := input.ReadTagWithCutoff(127);
        var number := tag / 8;
        if below && 1 <= number <= schema.n && tag % 256 == MakeTag(number, LENGTH_DELIMITED) {
          assert Known(schema, tag);
          match ReadString(input.rest) {
            case Fail => return false;
            case Ok(s, rest) =>
              input.rest := rest;
              strings := strings[number - 1 := s];
              if !schema.utf8(s) {
                return false;
              }
          }
        } else {
          assert tag != 0 ==> !Known(schema, tag);
          if tag == 0 {
            return true;
          }
          match ReadValue(input.rest, number, tag % 8, RECURSION_LIMIT) {
            case Fail => return false;
            case Ok(v, rest) =>
              input.rest := rest;
              unknown := unknown + [Field(number, v)];
          }
        }
      }
    }

    method SerializeWithCachedSizes(output: CodedOutputStream)
      requires Valid()
      modifies output
      ensures output.written == old(output.written) + Encode(schema, Value())
      ensures IsWritten(schema, Value(), output.written[|old(output.written)|..])
    {
      EncodingIsWritten(schema, Value());
      hide IsWritten;
      assert unknown == [] ==> EncodeFields(unknown) == [];
      hide EncodeVarint, EncodeString, EncodeFields, EncodeStrings;
      for i := 0 to schema.n
        invariant output.written + EncodeStrings(strings, i) == old(output.written) + EncodeStrings(strings, 0)
      {
        StringsFrom(strings, i, output.written);
        if |strings[i]| > 0 {
          output.WriteRaw(EncodeVarint(MakeTag(i + 1, LENGTH_DELIMITED)));
          output.WriteRaw(EncodeString(strings[i]));
        }
      }
      NoStringsFrom(strings, schema.n);
      assert output.written + [] == output.written;
      if unknown != [] && schema.preserve {
        output.WriteRaw(EncodeFields(unknown));
      }
    }

    method SerializeToArray(target: array<Byte>, at: nat) returns (end: nat)
      requires Valid() && at + |Encode(schema, Value())| <= target.Length
      modifies target
      ensures Wrote(old(target[..]), target[..], at, Encode(schema, Value()), end)
      ensures at <= end <= target.Length && IsWritten(schema, Value(), target[at..end])
    {
      EncodingIsWritten(schema, Value());
      hide IsWritten;
      assert unknown == [] ==> EncodeFields(unknown) == [];
      hide EncodeVarint, EncodeString, EncodeFields, EncodeStrings;
      end := WriteStrings(target, at);
      ghost var done := EncodeStrings(strings, 0);
      if unknown != [] && schema.preserve {
        ghost var t, mid := target[..], end;
        end := WriteRawToArray(EncodeFields(unknown), target, end);
        WroteBoth(old(target[..]), t, target[..], at, done, mid, EncodeFields(unknown), end);
      } else {
        assert done + [] == done;
      }
    }

    method WriteStrings(target: array<Byte>, at: nat) returns (end: nat)
      requires Valid() && at + |EncodeStrings(strings, 0)| <= target.Length
      modifies target
      ensures Wrote(old(target[..]), target[..], at, EncodeStrings(strings, 0), end)
    {
      hide EncodeVarint, EncodeString;
      end := at;
      ghost var done: seq<Byte> := [];
      for i := 0 to schema.n
        invariant done + EncodeStrings(strings, i) == EncodeStrings(strings, 0)
        invariant Wrote(old(target[..]), target[..], at, done, end)
      {
        if |strings[i]| > 0 {
          end, done := WriteOne(i, target, at, end, done, old(target[..]));
        }
      }
      assert done + [] == done;
    }

    /** One string field: its tag, its length and its bytes. */
    method WriteOne(i: nat, target: array<Byte>, at: nat, from: nat, ghost done: seq<Byte>, ghost was: seq<Byte>)
      returns (end: nat, ghost done': seq<Byte>)
      requires Valid() && i < schema.n && strings[i] != []
      requires Wrote(was, target[..], at, done, from)
      requires from + |EncodeStrings(strings, i)| <= target.Length
      modifies target
      ensures done' == done + (EncodeVarint(MakeTag(i + 1, LENGTH_DELIMITED)) + EncodeString(strings[i]))
      ensures Wrote(was, target[..], at, done', end)
    {
      ghost var t0 := target[..];
      var e1 := WriteVarintToArray(MakeTag(i + 1, LENGTH_DELIMITED), target, from);
      ghost var t1 := target[..];
      var e2 := WriteVarintToArray(|strings[i]|, target, e1);
      ghost var t2 := target[..];
      end := WriteRawToArray(strings[i], target, e2);
      ghost var a, b := EncodeVarint(MakeTag(i + 1, LENGTH_DELIMITED)), EncodeVarint(|strings[i]|);
      WroteBoth(t0, t1, t2, from, a, e1, b, e2);
      WroteBoth(t0, t2, target[..], from, a + b, e2, strings[i], end);
      assert a + b + strings[i] == a + EncodeString(strings[i]);
      done' := done + (a + EncodeString(strings[i]));
      WroteBoth(was, t0, target[..], at, done, from, a + EncodeString(strings[i]), end);
    }

    method ByteSizeLong() returns (size: nat)
      requires Valid() && FieldsOk(unknown, RECURSION_LIMIT)
      requires forall i | 0 <= i < |strings| :: |strings[i]| < TWO64
      ensures size == |Encode(schema, Value())|
    {
      size := 0;
      if unknown != [] && schema.preserve {
        FieldsSizeIsExact(unknown, RECURSION_LIMIT);
        size := size + FieldsSize(unknown);
      }
      ghost var extra := size;
      for i := 0 to schema.n
        invariant size + |EncodeStrings(strings, i)| == extra + |EncodeStrings(strings, 0)|
      {
        if |strings[i]| > 0 {
          VarintSizeIsExact(|strings[i]|);
          assert |EncodeVarint(MakeTag(i + 1, LENGTH_DELIMITED))| == 1;
          size := size + 1 + StringSize(strings[i]);
        }
      }
    }

    method MergeFrom(from: Message)
      requires from != this && Valid() && from.Valid() && from.schema == schema
      modifies this
      ensures Valid() && Value() == Merge(old(Value()), from.Value())
    {
      unknown := unknown + from.unknown;
      for i := 0 to schema.n
        invariant |strings| == schema.n
        invariant forall j | 0 <= j < schema.n ::
          strings[j] == if j < i && from.strings[j] != [] then from.strings[j] else old(strings)[j]
        invariant unknown == old(unknown) + from.unknown
      {
        if |from.strings[i]| > 0 {
          strings := strings[i := from.strings[i]];
        }
      }
      assert strings == MergeStrings(old(strings), from.strings);
    }

    method CopyFrom(from: Message)
      requires Valid() && from.Valid() && from.schema == schema
      modifies this
      ensures Valid() && Value() == old(from.Value())
    {
      if from == this {
        return;
      }
      Clear();
      MergeFrom(from);
      MergeIntoEmpty(schema, from.Value());
    }
  }
}
