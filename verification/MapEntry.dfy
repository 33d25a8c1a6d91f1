/** Parsing one entry of a map field: the loop of the entry message, and the faster parser that inserts
    into the map before it has seen the whole entry. */
module MapEntry {
  import opened Wire
  import opened WireFormat
  import opened CodedStreams

  /** How the key and value types are read, their tags and defaults, and how deep groups may still nest.
      A value is read into an existing one, because messages merge. */
  datatype Handlers<!K, !V> = Handlers(
    readKey: seq<Byte> -> Result<K>,
    readValue: (V, seq<Byte>) -> Result<V>,
    keyTag: nat,
    valueTag: nat,
    defaultKey: K,
    defaultValue: V,
    budget: nat)

  ghost predicate HandlersOk<K(!new), V(!new)>(h: Handlers<K, V>) {
    && h.keyTag / 8 == 1 && h.valueTag / 8 == 2
    && (forall b :: h.readKey(b).Ok? ==> |h.readKey(b).rest| <= |b|)
    && (forall v, b :: h.readValue(v, b).Ok? ==> |h.readValue(v, b).rest| <= |b|)
  }

  /** An entry, what follows it, and whether the input ended exactly there. */
  datatype Entry<K, V> = Invalid | Parsed(key: K, value: V, rest: seq<Byte>, atEnd: bool)

  /** What the loop of the entry message computes from `b`, starting with `key` and `value`. */
  ghost function EntrySpec<K(!new), V(!new)>(h: Handlers<K, V>, b: seq<Byte>, key: K, value: V): Entry<K, V>
    requires HandlersOk(h)
    decreases |b|
  {
    var (tag, rest) := ReadTag(b);
    if tag == h.keyTag then
      match h.readKey(rest)
      case Fail => Invalid
      case Ok(k, rest') => EntrySpec(h, rest', k, value)
    else if tag == h.valueTag then
      match h.readValue(value, rest)
      case Fail => Invalid
      case Ok(v, rest') => EntrySpec(h, rest', key, v)
    else if tag == 0 || tag % 8 == END_GROUP then Parsed(key, value, rest, tag == 0 && b == [])
    else
      match ReadValue(rest, tag / 8, tag % 8, h.budget)
      case Fail => Invalid
      case Ok(_, rest') => EntrySpec(h, rest', key, value)
  }

  // ---------------------------------------------------------------- the same on the grammar

  /** Where the reading of an entry stands: the input that is left, and the key and value so far. */
  datatype Stage<K, V> = Stage(rest: seq<Byte>, key: K, value: V)

  /** One field brings it from `x` to `y`: a key, a value that is read into the one so far, or any other complete
      field. */
  ghost predicate Goes<K(!new), V(!new)>(h: Handlers<K, V>, x: Stage<K, V>, tag: seq<Byte>, y: Stage<K, V>) {
    && IsVarint(tag) && tag <= x.rest
    && var after := x.rest[|tag|..];
       if TagOf(tag) == h.keyTag then h.readKey(after) == Ok(y.key, y.rest) && y.value == x.value
       else if TagOf(tag) == h.valueTag then h.readValue(x.value, after) == Ok(y.value, y.rest) && y.key == x.key
       else
         && (exists body :: WellFormed(Item(tag, body), h.budget) && after == BodyText(body) + y.rest)
         && y.key == x.key && y.value == x.value
  }

  /** It ends where no tag but 0 can be read, or behind the end tag of a group. */
  ghost predicate Ends<K(!new), V(!new)>(h: Handlers<K, V>, b: seq<Byte>, rest: seq<Byte>) {
    || (rest == b && forall n | 0 <= n <= |b| :: !IsVarint(b[..n]))
    || exists tag :: EndsWith(h, tag, b, rest)
  }

  ghost predicate EndsWith<K(!new), V(!new)>(h: Handlers<K, V>, tag: seq<Byte>, b: seq<Byte>, rest: seq<Byte>) {
    && IsVarint(tag) && b == tag + rest
    && (TagOf(tag) == 0 || (KindOf(tag) == 4 && TagOf(tag) != h.keyTag && TagOf(tag) != h.valueTag))
  }

  ghost predicate GoesTo<K(!new), V(!new)>(h: Handlers<K, V>, x: Stage<K, V>, y: Stage<K, V>) {
    exists tag :: Goes(h, x, tag, y)
  }

  /** From `x` on the reading goes through these stages, to an end that makes the entry `e`. */
  ghost predicate Reads<K(!new), V(!new)>(h: Handlers<K, V>, x: Stage<K, V>, more: seq<Stage<K, V>>, e: Entry<K, V>)
    decreases |more|
  {
    if more == [] then
      e.Parsed? && e.key == x.key && e.value == x.value && Ends(h, x.rest, e.rest) && (e.atEnd <==> x.rest == [])
    else GoesTo(h, x, more[0]) && Reads(h, more[0], more[1..], e)
  }

  lemma GoesOn<K(!new), V(!new)>(h: Handlers<K, V>, x: Stage<K, V>, tag: seq<Byte>, y: Stage<K, V>)
    requires HandlersOk(h) && Goes(h, x, tag, y)
    ensures EntrySpec(h, x.rest, x.key, x.value) == EntrySpec(h, y.rest, y.key, y.value)
  {
    hide ReadTag, ReadValue, IsVarint, Base128;
    var after := x.rest[|tag|..];
    assert x.rest == tag + after;
    TagReads(tag, after);
    if TagOf(tag) != h.keyTag && TagOf(tag) != h.valueTag {
      var body :| WellFormed(Item(tag, body), h.budget) && after == BodyText(body) + y.rest;
      BodyReads(body, NumberOf(tag), KindOf(tag), h.budget, y.rest);
    }
  }

  lemma EndsNow<K(!new), V(!new)>(h: Handlers<K, V>, x: Stage<K, V>, rest: seq<Byte>)
    requires HandlersOk(h) && Ends(h, x.rest, rest)
    ensures EntrySpec(h, x.rest, x.key, x.value) == Parsed(x.key, x.value, rest, x.rest == [])
  {
    hide ReadValue, IsVarint, Base128;
    if tag :| EndsWith(h, tag, x.rest, rest) {
      TagReads(tag, rest);
      NotEmpty(tag);
    } else {
      VarintIsPrefix(x.rest);
    }
  }

  lemma NotEmpty(s: seq<Byte>)
    requires IsVarint(s)
    ensures s != []
  {
  }

  lemma {:induction false} WasRead<K(!new), V(!new)>(h: Handlers<K, V>, x: Stage<K, V>, more: seq<Stage<K, V>>,
      e: Entry<K, V>)
    requires HandlersOk(h) && Reads(h, x, more, e)
    ensures EntrySpec(h, x.rest, x.key, x.value) == e
    decreases |more|
  {
    hide EntrySpec, Goes, Ends;
    if more == [] {
      EndsNow(h, x, e.rest);
    } else {
      var tag :| Goes(h, x, tag, more[0]);
      GoesOn(h, x, tag, more[0]);
      WasRead(h, more[0], more[1..], e);
    }
  }

  /** What the specification does next is a stage or an end. */
  lemma NextStage<K(!new), V(!new)>(h: Handlers<K, V>, x: Stage<K, V>) returns (ends: bool, y: Stage<K, V>)
    requires HandlersOk(h) && EntrySpec(h, x.rest, x.key, x.value).Parsed?
    ensures ends ==> Ends(h, x.rest, EntrySpec(h, x.rest, x.key, x.value).rest)
    ensures ends ==> EntrySpec(h, x.rest, x.key, x.value) == Parsed(x.key, x.value, y.rest, x.rest == [])
    ensures !ends ==> GoesTo(h, x, y) && |y.rest| < |x.rest|
    ensures !ends ==> EntrySpec(h, x.rest, x.key, x.value) == EntrySpec(h, y.rest, y.key, y.value)
  {
    hide ReadValue, IsVarint, Base128;
    var (tag, rest) := ReadTag(x.rest);
    ends, y := tag == 0 || (tag % 8 == 4 && tag != h.keyTag && tag != h.valueTag), Stage(rest, x.key, x.value);
    if tag == 0 {
      ZeroEnds(h, x.rest);
      return;
    }
    var t := TagWasRead(x.rest);
    assert x.rest[|t|..] == rest;
    if ends {
      assert EndsWith(h, t, x.rest, rest);
      return;
    }
    if tag == h.keyTag {
      y := Stage(h.readKey(rest).rest, h.readKey(rest).value, x.value);
    } else if tag == h.valueTag {
      y := Stage(h.readValue(x.value, rest).rest, x.key, h.readValue(x.value, rest).value);
    } else {
      var body := BodyWasRead(rest, tag / 8, tag % 8, h.budget);
      y := Stage(ReadValue(rest, tag / 8, tag % 8, h.budget).rest, x.key, x.value);
      assert WellFormed(Item(t, body), h.budget);
    }
    assert Goes(h, x, t, y);
  }

  lemma ZeroEnds<K(!new), V(!new)>(h: Handlers<K, V>, b: seq<Byte>)
    requires ReadTag(b).0 == 0
    ensures Ends(h, b, ReadTag(b).1)
  {
    if ReadVarint(b, MAX_VARINT_BYTES).Ok? {
      var t := VarintWasRead(b, MAX_VARINT_BYTES);
      assert EndsWith(h, t, b, ReadTag(b).1);
    } else {
      forall n | 0 <= n <= |b| ensures !IsVarint(b[..n]) {
        NoVarintHere(b, n);
      }
    }
  }

  lemma NoVarintHere(b: seq<Byte>, n: nat)
    requires n <= |b| && ReadVarint(b, MAX_VARINT_BYTES).Fail?
    ensures !IsVarint(b[..n])
  {
    if IsVarint(b[..n]) {
      assert b == b[..n] + b[n..];
      VarintReads(b[..n], b[n..], MAX_VARINT_BYTES);
    }
  }

  lemma {:induction false} CanBeRead<K(!new), V(!new)>(h: Handlers<K, V>, x: Stage<K, V>)
    returns (more: seq<Stage<K, V>>)
    requires HandlersOk(h) && EntrySpec(h, x.rest, x.key, x.value).Parsed?
    ensures Reads(h, x, more, EntrySpec(h, x.rest, x.key, x.value))
    decreases |x.rest|
  {
    hide EntrySpec, Ends, GoesTo;
    var ends, y := NextStage(h, x);
    if ends {
      more := [];
    } else {
      var after := CanBeRead(h, y);
      more := [y] + after;
      assert more[1..] == after;
    }
  }

  /** An entry is parsed exactly if the reading can go through stages to an end, and it is the one that is made
      there. */
  lemma EntryIff<K(!new), V(!new)>(h: Handlers<K, V>, x: Stage<K, V>, e: Entry<K, V>)
    requires HandlersOk(h) && e.Parsed?
    ensures EntrySpec(h, x.rest, x.key, x.value) == e <==> exists more :: Reads(h, x, more, e)
  {
    if EntrySpec(h, x.rest, x.key, x.value) == e {
      var more := CanBeRead(h, x);
    }
    if more :| Reads(h, x, more, e) {
      WasRead(h, x, more, e);
    }
  }

  ghost predicate IsEntry<K(!new), V(!new)>(h: Handlers<K, V>, x: Stage<K, V>) {
    exists more, e :: Reads(h, x, more, e)
  }

  lemma ParsedIff<K(!new), V(!new)>(h: Handlers<K, V>, x: Stage<K, V>)
    requires HandlersOk(h)
    ensures EntrySpec(h, x.rest, x.key, x.value).Parsed? <==> IsEntry(h, x)
  {
    if EntrySpec(h, x.rest, x.key, x.value).Parsed? {
      var more := CanBeRead(h, x);
    }
    if more, e :| Reads(h, x, more, e) {
      WasRead(h, x, more, e);
      IsParsed(h, x, more, e);
    }
  }

  lemma {:induction false} IsParsed<K(!new), V(!new)>(h: Handlers<K, V>, x: Stage<K, V>, more: seq<Stage<K, V>>,
      e: Entry<K, V>)
    requires Reads(h, x, more, e)
    ensures e.Parsed?
    decreases |more|
  {
    if more != [] {
      IsParsed(h, more[0], more[1..], e);
    }
  }

  // ---------------------------------------------------------------- last occurrence wins

  datatype Event<K, V> = KeySeen(key: K) | ValueSeen(value: V)
  datatype Events<K, V> = Bad | Good(events: seq<Event<K, V>>, rest: seq<Byte>, atEnd: bool)

  /** The keys and values in the input, in order, for value types that do not merge. */
  ghost function Scan<K(!new), V(!new)>(h: Handlers<K, V>, b: seq<Byte>): Events<K, V>
    requires HandlersOk(h)
    decreases |b|
  {
    var (tag, rest) := ReadTag(b);
    if tag == h.keyTag then
      match h.readKey(rest)
      case Fail => Bad
      case Ok(k, rest') => Prepend(KeySeen(k), Scan(h, rest'))
    else if tag == h.valueTag then
      match h.readValue(h.defaultValue, rest)
      case Fail => Bad
      case Ok(v, rest') => Prepend(ValueSeen(v), Scan(h, rest'))
    else if tag == 0 || tag % 8 == END_GROUP then Good([], rest, tag == 0 && b == [])
    else
      match ReadValue(rest, tag / 8, tag % 8, h.budget)
      case Fail => Bad
      case Ok(_, rest') => Scan(h, rest')
  }

  function Prepend<K, V>(e: Event<K, V>, es: Events<K, V>): Events<K, V> {
    if es.Bad? then Bad else es.(events := [e] + es.events)
  }

  function LastKey<K, V>(es: seq<Event<K, V>>, default: K): K {
    if es == [] then default
    else
      var e := es[|es| - 1];
      if e.KeySeen? then e.key else LastKey(es[..|es| - 1], default)
  }

  function LastValue<K, V>(es: seq<Event<K, V>>, default: V): V {
    if es == [] then default
    else
      var e := es[|es| - 1];
      if e.ValueSeen? then e.value else LastValue(es[..|es| - 1], default)
  }

  lemma {:induction false} LastOfPrepended<K, V>(e: Event<K, V>, es: seq<Event<K, V>>, k: K, v: V)
    ensures LastKey([e] + es, k) == LastKey(es, if e.KeySeen? then e.key else k)
    ensures LastValue([e] + es, v) == LastValue(es, if e.ValueSeen? then e.value else v)
    decreases |es|
  {
    if es == [] {
      assert [e] + es == [e];
      assert [e][..0] == [];
    } else {
      var n := |es| - 1;
      assert ([e] + es)[..n + 1] == [e] + es[..n];
      LastOfPrepended(e, es[..n], k, v);
    }
  }

  /** The entry has the last key and the last value of the input, and defaults for those that are missing. */
  lemma {:induction false} LastOccurrenceWins<K(!new), V(!new)>(h: Handlers<K, V>, b: seq<Byte>, key: K, value: V)
    requires HandlersOk(h)
    requires forall v, b :: h.readValue(v, b) == h.readValue(h.defaultValue, b)
    ensures EntrySpec(h, b, key, value) ==
      match Scan(h, b)
      case Bad => Invalid
      case Good(es, rest, atEnd) => Parsed(LastKey(es, key), LastValue(es, value), rest, atEnd)
    decreases |b|
  {
    hide ReadTag, ReadValue;
    var (tag, rest) := ReadTag(b);
    if tag == h.keyTag {
      match h.readKey(rest)
      case Fail =>
      case Ok(k, rest') =>
        LastOccurrenceWins(h, rest', k, value);
        if Scan(h, rest').Good? {
          LastOfPrepended(KeySeen(k), Scan(h, rest').events, key, value);
        }
    } else if tag == h.valueTag {
      assert h.readValue(value, rest) == h.readValue(h.defaultValue, rest);
      match h.readValue(value, rest)
      case Fail =>
      case Ok(v, rest') =>
        LastOccurrenceWins(h, rest', key, v);
        if Scan(h, rest').Good? {
          LastOfPrepended(ValueSeen(v), Scan(h, rest').events, key, value);
        }
    } else if tag != 0 && tag % 8 != END_GROUP {
      match ReadValue(rest, tag / 8, tag % 8, h.budget)
      case Fail =>
      case Ok(_, rest') => LastOccurrenceWins(h, rest', key, value);
    }
  }

  // ---------------------------------------------------------------- the two parsers

  lemma EndOfEntry<K(!new), V(!new)>(h: Handlers<K, V>, key: K, value: V)
    requires HandlersOk(h)
    ensures EntrySpec(h, [], key, value) == Parsed(key, value, [], true)
  {
    EndReadsAsZero([]);
  }

  class EntryImpl<K(!new), V(!new)> {
    const h: Handlers<K, V>
    var key: K
    var value: V
    var hasKey: bool
    var hasValue: bool

    constructor (h: Handlers<K, V>)
      ensures this.h == h && key == h.defaultKey && value == h.defaultValue
    {
      this.h, key, value, hasKey, hasValue := h, h.defaultKey, h.defaultValue, false, false;
    }

    /** The reference: the tag loop of the entry message. */
    method MergePartialFromCodedStream(input: CodedInputStream) returns (ok: bool)
      requires HandlersOk(h) && !input.legitimateEnd
      modifies this, input
      ensures
        match EntrySpec(h, old(input.rest), old(key), old(value))
        case Invalid => !ok
        case Parsed(k, v, rest, atEnd) =>
          ok && key == k && value == v && input.rest == rest && input.legitimateEnd == atEnd
    {
      hide ReadTag, ReadValue;
      while true
        invariant EntrySpec(h, input.rest, key, value) == EntrySpec(h, old(input.rest), old(key), old(value))
        invariant !input.legitimateEnd
        decreases |input.rest|
      {
        var tag := input.ReadTagNoLastTag();
        if tag == h.keyTag {
          match h.readKey(input.rest) {
            case Fail => return false;
            case Ok(k, rest) => key, input.rest, hasKey := k, rest, true;
          }
        } else if tag == h.valueTag {
          match h.readValue(value, input.rest) {
            case Fail => return false;
            case Ok(v, rest) => value, input.rest, hasValue := v, rest, true;
          }
          var atEnd := input.ExpectAtEnd();
          if atEnd {
            EndOfEntry(h, key, value);
            return true;
          }
        } else {
          if tag == 0 || tag % 8 == END_GROUP {
            return true;
          }
          match ReadValue(input.rest, tag / 8, tag % 8, h.budget) {
            case Fail => return false;
            case Ok(_, rest) => input.rest := rest;
          }
        }
      }
    }
  }

  class Parser<K(==,!new), V(!new)> {
    const h: Handlers<K, V>
    var map_: map<K, V>
    var key_: K

    constructor (h: Handlers<K, V>, m: map<K, V>)
      ensures this.h == h && map_ == m
    {
      this.h, map_, key_ := h, m, h.defaultKey;
    }

    /** The fast parser. Whatever the stream answers to its cheap questions, it does what the reference
        does and then inserts; when the entry is malformed the map is as before. */
    method MergePartialFromCodedStream(input: CodedInputStream) returns (ok: bool)
      requires HandlersOk(h) && !input.legitimateEnd
      modifies this, input
      ensures Answer(EntrySpec(h, old(input.rest), h.defaultKey, h.defaultValue), old(map_), ok, input)
      ensures ok <==> IsEntry(h, Stage(old(input.rest), h.defaultKey, h.defaultValue))
      ensures !ok ==> map_ == old(map_)
      ensures ok ==> key_ in map_ && map_ == old(map_)[key_ := map_[key_]]
    {
      ParsedIff(h, Stage(input.rest, h.defaultKey, h.defaultValue));
      hide ReadTag, ReadValue, IsEntry;
      ghost var start := input.rest;
      if start != [] {
        KeyOrValueTag(start);
      }
      var found := input.ExpectTag(h.keyTag);
      if found {
        match h.readKey(input.rest) {
          case Fail => return false;
          case Ok(k, rest) => key_, input.rest := k, rest;
        }
        var valueNext := input.Peek(h.valueTag);
        if valueNext {
          OneByteTag(input.rest);
          var mapSize := |map_|;
          if key_ !in map_ {
            map_ := map_[key_ := h.defaultValue];
          }
          if mapSize != |map_| {
            ok := ReadNewValue(input, old(map_));
            return;
          }
        }
      } else {
        key_ := h.defaultKey;
      }
      var entry := new EntryImpl(h);
      entry.key, entry.hasKey := key_, true;
      ok := entry.MergePartialFromCodedStream(input);
      if ok {
        UseKeyAndValueFromEntry(entry);
      }
    }

    /** A key-value pair has just been created for a key that `m0` does not have. */
    method ReadNewValue(input: CodedInputStream, ghost m0: map<K, V>) returns (ok: bool)
      requires HandlersOk(h) && !input.legitimateEnd
      requires key_ !in m0 && map_ == m0[key_ := h.defaultValue]
      requires input.rest != [] && input.rest[0] == h.valueTag < 128
      modifies this, input
      ensures Answer(EntrySpec(h, old(input.rest), old(key_), h.defaultValue), m0, ok, input)
    {
      hide ReadTag, ReadValue;
      OneByteTag(input.rest);
      input.rest := input.rest[1..];
      match h.readValue(map_[key_], input.rest) {
        case Fail =>
          map_ := map_ - {key_};
          assert map_ == m0;
          return false;
        case Ok(v, rest) =>
          map_ := map_[key_ := v];
          input.rest := rest;
      }
      var atEnd := input.ExpectAtEnd();
      if atEnd {
        EndOfEntry(h, key_, map_[key_]);
        assert map_ == m0[key_ := map_[key_]];
        return true;
      }
      ok := ReadBeyondKeyValuePair(input, m0);
    }

    /** More input follows the pair: take it out of the map again and let the reference go on with it. */
    method ReadBeyondKeyValuePair(input: CodedInputStream, ghost m0: map<K, V>) returns (ok: bool)
      requires HandlersOk(h) && !input.legitimateEnd
      requires key_ !in m0 && key_ in map_ && map_ == m0[key_ := map_[key_]]
      modifies this, input
      ensures Answer(EntrySpec(h, old(input.rest), old(key_), old(map_[key_])), m0, ok, input)
    {
      var entry := new EntryImpl(h);
      entry.value, entry.hasValue := map_[key_], true;
      map_ := map_ - {key_};
      assert map_ == m0;
      entry.key, entry.hasKey := key_, true;
      ok := entry.MergePartialFromCodedStream(input);
      if ok {
        UseKeyAndValueFromEntry(entry);
      }
    }

    method UseKeyAndValueFromEntry(entry: EntryImpl<K, V>)
      modifies this
      ensures key_ == entry.key && map_ == old(map_)[entry.key := entry.value]
    {
      key_ := entry.key;
      if key_ !in map_ {
        map_ := map_[key_ := h.defaultValue];
      }
      map_ := map_[key_ := entry.value];
    }

    /** The parser has answered as the entry `e` demands. */
    ghost predicate Answer(e: Entry<K, V>, m0: map<K, V>, ok: bool, input: CodedInputStream)
      reads this, input
    {
      match e
      case Invalid => !ok && map_ == m0
      case Parsed(k, v, rest, atEnd) =>
        ok && map_ == m0[k := v] && key_ == k && input.rest == rest && input.legitimateEnd == atEnd
    }

    lemma KeyOrValueTag(b: seq<Byte>)
      requires b != []
      ensures b[0] < 128 ==> ReadTag(b) == (b[0], b[1..])
    {
      if b[0] < 128 {
        OneByteTag(b);
      }
    }
  }
}
