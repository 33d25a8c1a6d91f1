/** The input that the generated parsers read. How much of it is buffered is not known, so the cheap questions may
    be answered in the negative at any time. */
module CodedStreams {
  import opened Wire

  class CodedInputStream {
    var rest: seq<Byte>
    var legitimateEnd: bool

    constructor (bytes: seq<Byte>)
      ensures rest == bytes && !legitimateEnd
    {
      rest, legitimateEnd := bytes, false;
    }

    /** Reads a tag, with a shortcut for one byte; `below` tells that it is in `[1, cutoff]`. */
    method ReadTagWithCutoff(cutoff: nat) returns (tag: nat, below: bool)
      requires 127 <= cutoff < 128
      modifies this
      ensures (tag, rest) == ReadTag(old(rest))
      ensures below <==> 1 <= tag <= cutoff
      ensures tag == 0 ==> legitimateEnd == (old(rest) == [])
    {
      hide ReadTag;
      if rest != [] && 0 < rest[0] < 128 {
        OneByteTag(rest);
        tag := rest[0];
        rest := rest[1..];
        return tag, true;
      }
      EndReadsAsZero(rest);
      legitimateEnd := rest == [];
      var (t, r) := ReadTag(rest);
      tag, rest := t, r;
      below := (tag + TWO32 - 1) % TWO32 < cutoff;
    }

    method ReadTagNoLastTag() returns (tag: nat)
      modifies this
      ensures (tag, rest) == ReadTag(old(rest))
      ensures legitimateEnd == if tag == 0 then old(rest) == [] else old(legitimateEnd)
    {
      var (t, r) := ReadTag(rest);
      if t == 0 {
        legitimateEnd := rest == [];
      }
      tag, rest := t, r;
    }

    method ExpectTag(expected: nat) returns (found: bool)
      requires expected < 128
      modifies this`rest
      ensures found ==> old(rest) != [] && old(rest)[0] == expected && rest == old(rest)[1..]
      ensures !found ==> rest == old(rest)
    {
      var buffered: bool := *;
      found := buffered && rest != [] && rest[0] == expected;
      if found {
        rest := rest[1..];
      }
    }

    /** Whether a byte is buffered and equals `expected`, without consuming it. */
    method Peek(expected: nat) returns (found: bool)
      ensures found ==> rest != [] && rest[0] == expected
    {
      var buffered: bool := *;
      found := buffered && rest != [] && rest[0] == expected;
    }

    method ExpectAtEnd() returns (atEnd: bool)
      modifies this`legitimateEnd
      ensures atEnd ==> rest == [] && legitimateEnd
      ensures !atEnd ==> legitimateEnd == old(legitimateEnd)
    {
      var atLimit: bool := *;
      atEnd := rest == [] && atLimit;
      if atEnd {
        legitimateEnd := true;
      }
    }
  }
}
