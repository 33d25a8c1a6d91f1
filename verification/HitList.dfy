/** The two parsers of search replies, and the replies that they invert. */
module HitList {
  import opened Common
  import opened Hits

  const ID: string := "\"_id\":\""
  const SOURCE: string := "\"_source\":"
  const SOURCE_OPEN: string := "\"_source\":{"
  const ONLINE: string := "\"status\":\"1\""
  const OFFLINE_TAIL: string := "\"status\":\"0\"}"

  /** docinfo */
  datatype Doc = Doc(id: string, user: string, source: string, ip: string, ltime: string)

  // ---------------------------------------------------------------- getAllUser

  /** One hit, read from behind its opening `"_id":"`, and the text on which the search goes on. */
  function ReadHit(t: string): (r: Option<(Doc, string)>)
    ensures r.Some? ==> |r.value.1| <= |t|
  {
    match UpToQuote(t)
    case None => None
    case Some((id, after)) =>
      var i := Find(after, SOURCE_OPEN);
      if i < 0 then None else ReadRecord(id, after[i + |SOURCE|..])
  }

  /** The rest of a hit, from the record on. */
  function ReadRecord(id: string, src: string): (r: Option<(Doc, string)>)
    ensures r.Some? ==> |r.value.1| <= |src|
  {
    var o := Find(src, ONLINE);
    var user, ip, ltime := Value(src, "user"), Value(src, "ip"), Value(src, "ltime");
    if o < 0 || user.None? || ip.None? || ltime.None? then None
    else Some((Doc(id, user.value.0, src[..o], ip.value.0, ltime.value.0), ltime.value.1))
  }

  function Docs(t: string): seq<Doc>
    decreases |t|
  {
    var i := Find(t, ID);
    if i < 0 then []
    else
      match ReadHit(t[i + |ID|..])
      case None => []
      case Some((doc, rest)) => [doc] + Docs(rest)
  }

  /** getAllUser, with positions in the text for the pointers. */
  method GetAllUser(text: string) returns (ok: bool, docs: seq<Doc>)
    ensures ok <==> text != ""
    ensures docs == Docs(text)
  {
    hide ReadHit;
    docs := [];
    if text == "" {
      return false, docs;
    }
    ok := true;
    ghost var from := 0;
    assert text[0..] == text;
    var begin := FindFrom(text, 0, ID);
    while begin >= 0
      invariant from <= |text| && begin == FindFrom(text, from, ID)
      invariant Docs(text) == docs + Docs(text[from..])
      decreases |text| - from
    {
      DropTwice(text, from, begin - from + |ID|);
      begin := begin + |ID|;
      var found, doc, end := ReadOne(text, begin);
      if !found {
        break;
      }
      DocsStep(text[from..], docs, doc, text[end..]);
      begin := FindFrom(text, end, ID);
      docs := docs + [doc];
      from := end;
    }
  }

  lemma DocsStep(t: string, docs: seq<Doc>, doc: Doc, rest: string)
    requires Find(t, ID) >= 0 && ReadHit(t[Find(t, ID) + |ID|..]) == Some((doc, rest))
    ensures docs + Docs(t) == (docs + [doc]) + Docs(rest)
  {
    hide ReadHit, Find;
    var more := Docs(rest);
    assert Docs(t) == [doc] + more;
    assert docs + ([doc] + more) == (docs + [doc]) + more;
  }

  /** One round of its loop. */
  method ReadOne(text: string, start: nat) returns (found: bool, doc: Doc, end: int)
    requires start <= |text|
    ensures found <==> ReadHit(text[start..]).Some?
    ensures found ==> start <= end <= |text| && ReadHit(text[start..]) == Some((doc, text[end..]))
  {
    hide UpToQuote, Value;
    var begin: int := start;
    found, doc := false, Doc("", "", "", "", "");
    var id;
    found, id, end := ReadToQuote(text, begin);
    if !found {
      return;
    }
    begin := FindFrom(text, end, SOURCE_OPEN);
    if begin < 0 {
      found := false;
      return;
    }
    DropTwice(text, end, begin - end + |SOURCE|);
    begin := begin + |SOURCE|;
    var source := begin;
    end := FindFrom(text, begin, ONLINE);
    if end < 0 {
      found := false;
      return;
    }
    var szSource := text[begin..end];
    assert text[begin..][..end - begin] == szSource;
    var user, ip, ltime;
    found, user, end := ReadValue(text, begin, "user");
    if !found {
      return;
    }
    found, ip, end := ReadValue(text, source, "ip");
    if !found {
      return;
    }
    found, ltime, end := ReadValue(text, source, "ltime");
    if !found {
      return;
    }
    doc := Doc(id, user, szSource, ip, ltime);
  }

  /** Copies the text up to the next quote. */
  method ReadToQuote(text: string, begin: nat) returns (found: bool, value: string, end: int)
    requires begin <= |text|
    ensures found <==> UpToQuote(text[begin..]).Some?
    ensures found ==> begin <= end <= |text| && UpToQuote(text[begin..]) == Some((value, text[end..]))
  {
    end := FindFrom(text, begin, QUOTE);
    if end < 0 {
      return false, "", end;
    }
    DropTwice(text, begin, end - begin);
    assert text[begin..][..end - begin] == text[begin..end];
    return true, text[begin..end], end;
  }

  /** Finds a key and copies its value. */
  method ReadValue(text: string, source: nat, k: string) returns (found: bool, value: string, end: int)
    requires source <= |text|
    ensures found <==> Value(text[source..], k).Some?
    ensures found ==> source <= end <= |text| && Value(text[source..], k) == Some((value, text[end..]))
  {
    hide UpToQuote, Key;
    var begin := FindFrom(text, source, Key(k));
    if begin < 0 {
      return false, "", begin;
    }
    var n := begin + |Key(k)|;
    DropTwice(text, source, n - source);
    assert Value(text[source..], k) == UpToQuote(text[n..]);
    found, value, end := ReadToQuote(text, n);
  }

  // ---------------------------------------------------------------- replies

  /** A hit as the database prints it: `mid` lies between the id and the record, `after` behind the record. */
  datatype Hit = Hit(id: string, mid: string, user: string, ip: string, ltime: string, after: string)

  function PrintHits(hits: seq<Hit>): string {
    if hits == [] then "" else ID + HitBody(hits[0], PrintHits(hits[1..]))
  }

  /** A hit behind its opening `"_id":"`, and what follows it. */
  function HitBody(h: Hit, more: string): string {
    h.id + QUOTE + (h.mid + (SOURCE + (Source(h.user, h.ip, h.ltime, "1") + (h.after + more))))
  }

  /** Character by character. */
  lemma HitText(hits: seq<Hit>)
    requires hits != []
    ensures
      var h := hits[0];
      PrintHits(hits) == "\"_id\":\"" + h.id + "\"" + h.mid + "\"_source\":"
                         + Source(h.user, h.ip, h.ltime, "1") + h.after + PrintHits(hits[1..])
  {
    var h, more := hits[0], PrintHits(hits[1..]);
    assert PrintHits(hits) == ID + HitBody(h, more);
    hide PrintHits, Source;
    HitBodyJoined("\"_id\":\"", h.id, "\"", h.mid, "\"_source\":", Source(h.user, h.ip, h.ltime, "1"), h.after, more);
  }

  lemma HitBodyJoined(a: string, b: string, c: string, d: string, e: string, f: string, g: string, h: string)
    ensures a + (b + c + (d + (e + (f + (g + h))))) == a + b + c + d + e + f + g + h
  {
  }

  /** A gap does not contain what the parser looks for behind it. */
  predicate Clear(gap: string, hits: seq<Hit>) {
    if hits == [] then Find(gap, ID) < 0 else Find(gap + ID, ID) == |gap|
  }

  predicate PlainHit(h: Hit) {
    Plain(h.id) && Plain(h.user) && Plain(h.ip) && Plain(h.ltime)
  }

  predicate HitsOk(hits: seq<Hit>) {
    hits != [] ==>
      var h := hits[0];
      && PlainHit(h)
      && Find(QUOTE + h.mid + SOURCE_OPEN, SOURCE_OPEN) == |QUOTE + h.mid|
      && Clear(h.after, hits[1..]) && HitsOk(hits[1..])
  }

  function AsDoc(h: Hit): Doc {
    Doc(h.id, h.user, Head(h.user, h.ip, h.ltime), h.ip, h.ltime)
  }

  function AsDocs(hits: seq<Hit>): (r: seq<Doc>)
    ensures |r| == |hits| && forall i | 0 <= i < |hits| :: r[i] == AsDoc(hits[i])
  {
    if hits == [] then [] else [AsDoc(hits[0])] + AsDocs(hits[1..])
  }

  function Head(user: string, ip: string, ltime: string): string {
    Record(user, ip, ltime, "")
  }

  /** The parser returns exactly the records that were printed, in order. */
  lemma {:induction false} ParsePrinted(gap: string, hits: seq<Hit>)
    requires HitsOk(hits) && Clear(gap, hits)
    ensures Docs(gap + PrintHits(hits)) == AsDocs(hits)
    decreases |hits|
  {
    if hits == [] {
      assert gap + "" == gap;
    } else {
      var h, rest := hits[0], hits[1..];
      var more := PrintHits(rest);
      var tail := RecordTail();
      hide HitBody, RecordTail, Find, ReadHit;
      GapSkipped(gap, HitBody(h, more));
      HitIsRead(h, more);
      Assoc(tail, h.after, more);
      TailIsClear(h.after, rest);
      ParsePrinted(tail + h.after, rest);
      var t := gap + (ID + HitBody(h, more));
      assert PrintHits(hits) == ID + HitBody(h, more);
      DocsStep(t, [], AsDoc(h), tail + (h.after + more));
      assert [] + Docs(t) == Docs(t) && [] + [AsDoc(h)] == [AsDoc(h)];
    }
  }

  lemma GapSkipped(gap: string, more: string)
    requires Find(gap + ID, ID) == |gap|
    ensures
      var t := gap + (ID + more);
      Find(t, ID) == |gap| && t[|gap| + |ID|..] == more
  {
    FindBefore(gap, ID, more);
    Assoc(gap, ID, more);
    Drop(gap + ID, more);
  }

  function RecordTail(): string {
    QUOTE + ("," + (Pair("status", "1") + "}"))
  }

  /** What is left of a record behind its time does not hide the next hit. */
  lemma TailIsClear(after: string, hits: seq<Hit>)
    requires Clear(after, hits)
    ensures Clear(RecordTail() + after, hits)
  {
    var tail := RecordTail();
    assert tail == "\",\"status\":\"1\"}";
    var s := if hits == [] then after else after + ID;
    forall j | 0 <= j < |tail| ensures !(ID <= (tail + s)[j..]) {
      NoIdInTail(tail, s, j);
    }
    hide Find, ID, RecordTail;
    FindSkip(tail, s, ID);
    assert (tail + after) + ID == tail + (after + ID);
  }

  lemma NoIdInTail(tail: string, s: string, j: nat)
    requires tail == "\",\"status\":\"1\"}" && j < |tail|
    ensures !(ID <= (tail + s)[j..])
  {
    hide Find;
    Mismatch(ID, tail + s, j, if tail[j] == '"' then 1 else 0);
  }

  lemma HitIsRead(h: Hit, rest: string)
    requires PlainHit(h) && Find(QUOTE + h.mid + SOURCE_OPEN, SOURCE_OPEN) == |QUOTE + h.mid|
    ensures ReadHit(HitBody(h, rest)) == Some((AsDoc(h), RecordTail() + (h.after + rest)))
  {
    var more := h.after + rest;
    var src := Source(h.user, h.ip, h.ltime, "1") + more;
    hide Find, UpToQuote, ReadRecord, Source, RecordTail;
    QuotedValue(h.id, h.mid + (SOURCE + src));
    SourceOpens(h.user, h.ip, h.ltime, "1", more);
    MidSkipped(h.mid, src);
    RecordIsRead(h.id, h.user, h.ip, h.ltime, more);
  }

  lemma SourceOpens(user: string, ip: string, ltime: string, status: string, more: string)
    ensures var src := Source(user, ip, ltime, status) + more; src != "" && src[0] == '{'
  {
  }

  lemma RecordIsRead(id: string, user: string, ip: string, ltime: string, more: string)
    requires Plain(user) && Plain(ip) && Plain(ltime)
    ensures ReadRecord(id, Source(user, ip, ltime, "1") + more) ==
      Some((Doc(id, user, Head(user, ip, ltime), ip, ltime), RecordTail() + more))
  {
    var s := Pair("status", "1") + ("}" + more);
    SourceAppend(user, ip, ltime, "1", more);
    hide Record, Pair, Source, Value, Find, RecordTail;
    UserValue(user, ip, ltime, s);
    IpValue(user, ip, ltime, s);
    LtimeValue(user, ip, ltime, s);
    OnlineFound(user, ip, ltime, more);
    HeadOf(user, ip, ltime, s);
    TailText(more);
  }

  lemma SourceAppend(user: string, ip: string, ltime: string, status: string, more: string)
    ensures Source(user, ip, ltime, status) + more == Record(user, ip, ltime, Pair("status", status) + ("}" + more))
  {
    RecordAppend(user, ip, ltime, Pair("status", status) + "}", more);
    Assoc(Pair("status", status), "}", more);
  }

  lemma OnlineFound(user: string, ip: string, ltime: string, more: string)
    requires Plain(user) && Plain(ip) && Plain(ltime)
    ensures
      var s := Pair("status", "1") + ("}" + more);
      var src := Record(user, ip, ltime, s);
      Find(src, ONLINE) == |src| - |s|
  {
    var s := Pair("status", "1") + ("}" + more);
    StatusFound(user, ip, ltime, s, "1\"");
    assert Pair("status", "1") == ONLINE;
    assert Key("status") + "1\"" == ONLINE;
    assert ONLINE <= s;
  }

  lemma HeadOf(user: string, ip: string, ltime: string, s: string)
    ensures
      var src := Record(user, ip, ltime, s);
      src == Head(user, ip, ltime) + s && src[..|src| - |s|] == Head(user, ip, ltime)
  {
    RecordAppend(user, ip, ltime, "", s);
    assert "" + s == s;
  }

  lemma TailText(more: string)
    ensures QUOTE + ("," + (Pair("status", "1") + ("}" + more))) == RecordTail() + more
  {
    var p := Pair("status", "1");
    Assoc(p, "}", more);
    Assoc(",", p + "}", more);
    Assoc(QUOTE, "," + (p + "}"), more);
  }

  /** The record is found behind the part that separates it from the id. */
  lemma MidSkipped(mid: string, src: string)
    requires Find(QUOTE + mid + SOURCE_OPEN, SOURCE_OPEN) == |QUOTE + mid|
    requires src != "" && src[0] == '{'
    ensures
      var t := QUOTE + (mid + (SOURCE + src));
      Find(t, SOURCE_OPEN) == |QUOTE + mid| && t[|QUOTE + mid| + |SOURCE|..] == src
  {
    assert SOURCE_OPEN == SOURCE + "{" && src == "{" + src[1..];
    Assoc(SOURCE, "{", src[1..]);
    Assoc(QUOTE, mid, SOURCE + src);
    FindBefore(QUOTE + mid, SOURCE_OPEN, src[1..]);
    Assoc(QUOTE + mid, SOURCE_OPEN, src[1..]);
    Assoc(QUOTE + mid, SOURCE, src);
    Drop(QUOTE + mid + SOURCE, src);
  }

  /** The two ends of a record that the callers of the parser put together again. */
  lemma HeadWithOfflineTail(user: string, ip: string, ltime: string)
    ensures Head(user, ip, ltime) + OFFLINE_TAIL == Source(user, ip, ltime, "0")
  {
    RecordAppend(user, ip, ltime, "", OFFLINE_TAIL);
    assert "" + OFFLINE_TAIL == OFFLINE_TAIL == Pair("status", "0") + "}";
  }

  // ---------------------------------------------------------------- kickOffOldUser

  datatype Kick = Kick(id: string, source: string, key: string)

  /** The copy of the record, which ends at the first closing brace, with the character of its status overwritten. */
  function Overwritten(src: string): (r: Option<string>)
  {
    var b := Find(src, "}");
    if b < 0 then None
    else
      var tmp := src[..b + 1];
      var n := Find(tmp, Key("status"));
      if n < 0 then None
      else
        StatusInside(src, b, n);
        Some(tmp[n + 10 := '0'])
  }

  lemma StatusInside(src: string, b: nat, n: nat)
    requires b == Find(src, "}") && n == Find(src[..b + 1], Key("status"))
    ensures n + 10 < b + 1
  {
    var tmp := src[..b + 1];
    Found(src, "}");
    assert tmp[b] == src[b] == src[b..][0] == '}';
    Found(tmp, Key("status"));
    assert tmp[n + 9] == tmp[n..][9] == Key("status")[9];
  }

  /** The first hit of a reply: its id, and the text from its record on. */
  function FirstHit(text: string): Option<(string, string)> {
    var i := Find(text, ID);
    if i < 0 then None
    else
      match UpToQuote(text[i + |ID|..])
      case None => None
      case Some((id, after)) =>
        var s := Find(after, SOURCE);
        if s < 0 then None else Some((id, after[s + |SOURCE|..]))
  }

  /** What kickOffOldUser makes of a reply: the record's id, what to write back, and the key of its stream. */
  function ReadKick(text: string): Option<Kick> {
    match FirstHit(text)
    case None => None
    case Some((id, src)) => KickOf(id, src)
  }

  /** What a dying stream makes of a reply: the record's id, and what to write back. */
  function ReadLeave(text: string): Option<(string, string)> {
    match FirstHit(text)
    case None => None
    case Some((id, src)) =>
      match Overwritten(src)
      case None => None
      case Some(source) => Some((id, source))
  }

  function KickOf(id: string, src: string): Option<Kick> {
    var source := Overwritten(src);
    var user, ip, ltime := Value(src, "user"), Value(src, "ip"), Value(src, "ltime");
    if source.None? || user.None? || ip.None? || ltime.None? then None
    else Some(Kick(id, source.value, user.value.0 + ip.value.0 + ltime.value.0))
  }

  predicate Braceless(user: string, ip: string, ltime: string) {
    '}' !in user && '}' !in ip && '}' !in ltime
  }

  lemma FirstHitIsRead(gap: string, h: Hit, rest: string)
    requires PlainHit(h) && Find(gap + ID, ID) == |gap|
    requires Find(QUOTE + h.mid + SOURCE, SOURCE) == |QUOTE + h.mid|
    ensures FirstHit(gap + (ID + HitBody(h, rest))) ==
      Some((h.id, Source(h.user, h.ip, h.ltime, "1") + (h.after + rest)))
  {
    var src := Source(h.user, h.ip, h.ltime, "1") + (h.after + rest);
    hide Find, UpToQuote, Source;
    GapSkipped(gap, HitBody(h, rest));
    QuotedValue(h.id, h.mid + (SOURCE + src));
    Assoc(QUOTE, h.mid, SOURCE + src);
    FindBefore(QUOTE + h.mid, SOURCE, src);
    Assoc(QUOTE + h.mid, SOURCE, src);
    Drop(QUOTE + h.mid + SOURCE, src);
  }

  /** The record is found and written back as offline exactly if none of its values contains a closing brace;
      otherwise the user is not kicked. */
  lemma KickIffBraceless(gap: string, h: Hit, rest: string)
    requires PlainHit(h) && Find(gap + ID, ID) == |gap|
    requires Find(QUOTE + h.mid + SOURCE, SOURCE) == |QUOTE + h.mid|
    ensures ReadKick(gap + (ID + HitBody(h, rest))) ==
      if !Braceless(h.user, h.ip, h.ltime) then None
      else Some(Kick(h.id, Source(h.user, h.ip, h.ltime, "0"), h.user + h.ip + h.ltime))
  {
    var more := h.after + rest;
    var s := Pair("status", "1") + ("}" + more);
    hide FirstHit, Source, Value, Overwritten;
    FirstHitIsRead(gap, h, rest);
    SourceAppend(h.user, h.ip, h.ltime, "1", more);
    UserValue(h.user, h.ip, h.ltime, s);
    IpValue(h.user, h.ip, h.ltime, s);
    LtimeValue(h.user, h.ip, h.ltime, s);
    OverwrittenIffBraceless(h.user, h.ip, h.ltime, more);
  }

  /** A dying stream has the same cut: its session is written back exactly if none of its values contains a closing
      brace. */
  lemma LeaveIffBraceless(gap: string, h: Hit, rest: string)
    requires PlainHit(h) && Find(gap + ID, ID) == |gap|
    requires Find(QUOTE + h.mid + SOURCE, SOURCE) == |QUOTE + h.mid|
    ensures ReadLeave(gap + (ID + HitBody(h, rest))) ==
      if Braceless(h.user, h.ip, h.ltime) then Some((h.id, Source(h.user, h.ip, h.ltime, "0"))) else None
  {
    hide FirstHit, Source, Overwritten;
    FirstHitIsRead(gap, h, rest);
    OverwrittenIffBraceless(h.user, h.ip, h.ltime, h.after + rest);
  }

  lemma OverwrittenIffBraceless(user: string, ip: string, ltime: string, more: string)
    requires Plain(user) && Plain(ip) && Plain(ltime)
    ensures Overwritten(Source(user, ip, ltime, "1") + more) ==
      if Braceless(user, ip, ltime) then Some(Source(user, ip, ltime, "0")) else None
  {
    var head := Head(user, ip, ltime);
    var s := Pair("status", "1") + ("}" + more);
    var src := Source(user, ip, ltime, "1") + more;
    SourceAppend(user, ip, ltime, "1", more);
    HeadOf(user, ip, ltime, s);
    BracesOfHead(user, ip, ltime);
    if Braceless(user, ip, ltime) {
      WholeRecordCopied(user, ip, ltime, more);
    } else {
      hide Head, Pair, Source, Key;
      NoStatusBeforeBrace(user, ip, ltime, s);
    }
  }

  lemma WholeRecordCopied(user: string, ip: string, ltime: string, more: string)
    requires Plain(user) && Plain(ip) && Plain(ltime) && Braceless(user, ip, ltime)
    ensures Overwritten(Source(user, ip, ltime, "1") + more) == Some(Source(user, ip, ltime, "0"))
  {
    hide Find, Source, Head, Key, Braceless;
    CopyEnds(user, ip, ltime, more);
    StatusPlace(user, ip, ltime);
  }

  lemma CopyEnds(user: string, ip: string, ltime: string, more: string)
    requires Braceless(user, ip, ltime)
    ensures
      var tmp := Source(user, ip, ltime, "1");
      Find(tmp + more, "}") == |tmp| - 1 && (tmp + more)[..|tmp|] == tmp
  {
    var head, p := Head(user, ip, ltime), Pair("status", "1");
    HeadOf(user, ip, ltime, p + "}");
    BracesOfHead(user, ip, ltime);
    assert '}' !in p;
    hide Head, Pair, Find;
    Assoc(head, p, "}");
    FirstBrace(head + p, more);
  }

  lemma StatusPlace(user: string, ip: string, ltime: string)
    requires Plain(user) && Plain(ip) && Plain(ltime)
    ensures
      var tmp, n := Source(user, ip, ltime, "1"), |Head(user, ip, ltime)|;
      Find(tmp, Key("status")) == n && n + 10 < |tmp| && tmp[n + 10 := '0'] == Source(user, ip, ltime, "0")
  {
    var p := Pair("status", "1");
    HeadOf(user, ip, ltime, p + "}");
    HeadOf(user, ip, ltime, Pair("status", "0") + "}");
    assert |p| == 12;
    hide Head, Pair, Find;
    StatusFound(user, ip, ltime, p + "}", "");
    assert Key("status") + "" == Key("status");
    FindHere("status", "1", "}");
    OverwriteStatus(Head(user, ip, ltime));
  }

  lemma OverwriteStatus(head: string)
    ensures (head + (Pair("status", "1") + "}"))[|head| + 10 := '0'] == head + (Pair("status", "0") + "}")
  {
    assert (Pair("status", "1") + "}")[10 := '0'] == Pair("status", "0") + "}";
  }

  lemma FirstBrace(a: string, more: string)
    requires '}' !in a
    ensures Find(a + "}" + more, "}") == |a|
  {
    var t := a + "}" + more;
    forall j | 0 <= j < |a| ensures !("}" <= t[j..]) {
      assert t[j..][0] == a[j];
    }
    FindIs(t, "}", |a|);
  }

  /** A copy that ends within the values does not reach the status. */
  lemma NoStatusBeforeBrace(user: string, ip: string, ltime: string, s: string)
    requires Plain(user) && Plain(ip) && Plain(ltime) && !Braceless(user, ip, ltime) && Key("status") <= s
    ensures Overwritten(Record(user, ip, ltime, s)) == None
  {
    var head, src := Head(user, ip, ltime), Record(user, ip, ltime, s);
    HeadOf(user, ip, ltime, s);
    BracesOfHead(user, ip, ltime);
    StatusFound(user, ip, ltime, s, "");
    assert Key("status") + "" == Key("status");
    hide Head, Pair, Source, Key;
    var k :| 0 <= k < |head| && head[k] == '}';
    assert "}" <= src[k..] by { assert src[k] == '}'; }
    var b := Find(src, "}");
    Found(src, "}");
    assert 0 <= b <= k;
    var tmp := src[..b + 1];
    NotInPrefix(src, Key("status"), b + 1);
  }

  /** What is first found further on is not found in a prefix. */
  lemma NotInPrefix(s: string, p: string, m: nat)
    requires p != "" && m <= |s| && m <= Find(s, p)
    ensures Find(s[..m], p) < 0
  {
    hide Find;
    Found(s, p);
    forall j | 0 <= j <= m ensures !(p <= s[..m][j..]) {
      StartsInPrefix(s, p, m, j);
    }
    FindNone(s[..m], p);
  }

  lemma StartsInPrefix(s: string, p: string, m: nat, j: nat)
    requires j <= m <= |s|
    ensures p <= s[..m][j..] ==> j + |p| <= m && p <= s[j..]
  {
    assert s[..m][j..] == s[j..][..m - j];
  }

  lemma BracesOfHead(user: string, ip: string, ltime: string)
    ensures '}' in Head(user, ip, ltime) <==> !Braceless(user, ip, ltime)
  {
  }
}
