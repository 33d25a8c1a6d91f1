/** The text of login records and search hits: the printer, and the parsers that pick the hits apart with
    strstr. A position in a text stands for a pointer into it. */
module Hits {
  import opened Common

  const QUOTE: string := "\""

  /** strstr: the first position of `p` in `s`, or -1. */
  function Find(s: string, p: string): (r: int)
    ensures r == -1 || 0 <= r <= r + |p| <= |s|
    decreases s
  {
    if p <= s then 0
    else if s == "" then -1
    else
      var r := Find(s[1..], p);
      if r < 0 then -1 else r + 1
  }

  /** What it finds is an occurrence, and there is none before it. */
  lemma {:induction false} Found(s: string, p: string)
    ensures
      var r := Find(s, p);
      && (r >= 0 ==> p <= s[r..])
      && forall j | 0 <= j <= |s| && (r < 0 || j < r) :: !(p <= s[j..])
    decreases s
  {
    if !(p <= s) && s != "" {
      Found(s[1..], p);
      assert forall j | 0 < j <= |s| :: s[j..] == s[1..][j - 1..];
    }
  }

  /** strstr from a position on. */
  function FindFrom(s: string, from: nat, p: string): (r: int)
    requires from <= |s|
    ensures r == -1 || (from <= r && r + |p| <= |s|)
  {
    var r := Find(s[from..], p);
    if r < 0 then -1 else from + r
  }

  lemma FindIs(s: string, p: string, n: nat)
    requires n <= |s| && p <= s[n..] && forall j | 0 <= j < n :: !(p <= s[j..])
    ensures Find(s, p) == n
  {
    Found(s, p);
  }

  lemma FindNone(s: string, p: string)
    requires forall j | 0 <= j <= |s| :: !(p <= s[j..])
    ensures Find(s, p) < 0
  {
    Found(s, p);
  }

  /** What the search finds does not depend on what follows. */
  lemma FindBefore(a: string, p: string, rest: string)
    requires p != "" && Find(a + p, p) == |a|
    ensures Find(a + p + rest, p) == |a|
  {
    var s := a + p + rest;
    Found(a + p, p);
    forall j | 0 <= j < |a| ensures !(p <= s[j..]) {
      assert s[j..][..|p|] == (a + p)[j..][..|p|];
    }
    assert s[|a|..] == p + rest;
    FindIs(s, p, |a|);
  }

  /** A part in which nothing starts can be skipped. */
  lemma FindSkip(a: string, s: string, p: string)
    requires forall j | 0 <= j < |a| :: !(p <= (a + s)[j..])
    ensures Find(a + s, p) == if Find(s, p) < 0 then -1 else |a| + Find(s, p)
  {
    var r := Find(s, p);
    Found(s, p);
    forall j | |a| <= j <= |a + s| ensures (a + s)[j..] == s[j - |a|..] {
    }
    if r >= 0 {
      FindIs(a + s, p, |a| + r);
    } else {
      FindNone(a + s, p);
    }
  }

  /** A text in which a character differs does not start here. */
  lemma Mismatch(p: string, t: string, j: nat, i: nat)
    requires i < |p| && j + i < |t| && t[j + i] != p[i]
    ensures !(p <= t[j..])
  {
    assert |p| <= |t[j..]| ==> t[j..][..|p|][i] == t[j + i];
  }

  predicate Plain(s: string) {
    forall k | 0 <= k < |s| :: s[k] != '"'
  }

  /** A value ends at the first quote. */
  lemma ValueEnds(v: string, rest: string)
    requires Plain(v)
    ensures Find(v + QUOTE + rest, QUOTE) == |v|
  {
    var s := v + QUOTE + rest;
    forall j | 0 <= j < |v| ensures !(QUOTE <= s[j..]) {
      assert s[j..][0] == v[j];
    }
    assert s[|v|..] == QUOTE + rest;
    FindIs(s, QUOTE, |v|);
  }

  // ---------------------------------------------------------------- pairs of a record

  function Key(k: string): string {
    QUOTE + k + "\":\""
  }

  function Pair(k: string, v: string): string {
    Key(k) + v + QUOTE
  }

  lemma KeyText(k: string, more: string)
    ensures var p := Key(k) + more;
      && |p| == |k| + 4 + |more| && p[0] == '"' && p[|k| + 1] == '"' && p[|k| + 2] == ':' && p[|k| + 3] == '"'
      && forall i | 0 <= i < |k| :: k[i] == p[i + 1]
  {
  }

  lemma PairLetters(k: string, v: string, s: string)
    requires s != ""
    ensures |Pair(k, v)| == |k| + |v| + 5
    ensures var t, q := Pair(k, v) + s, |k| + 3;
      && t[0] == '"' && t[|k| + 1] == '"' && t[|k| + 2] == ':' && t[q] == '"'
      && t[q + |v| + 1] == '"' && t[q + |v| + 2] == s[0]
      && (forall i | 0 <= i < |k| :: k[i] == t[i + 1])
      && (forall i | 0 <= i < |v| :: v[i] == t[i + q + 1])
  {
    KeyText(k, v + QUOTE + s);
    PairText(k, v, s);
  }

  predicate OtherKey(k: string, wanted: string) {
    Plain(k) && Plain(wanted) && wanted != k && wanted != "" && wanted[0] != ':' && wanted[0] != ','
  }

  /** A key is not found inside another pair that a comma follows. */
  lemma SkipPair(k: string, v: string, s: string, wanted: string, more: string)
    requires OtherKey(k, wanted) && Plain(v) && s != "" && s[0] == ','
    ensures
      var p := Key(wanted) + more;
      Find(Pair(k, v) + s, p) == if Find(s, p) < 0 then -1 else |Pair(k, v)| + Find(s, p)
  {
    hide *;
    forall j | 0 <= j < |Pair(k, v)| ensures !(Key(wanted) + more <= (Pair(k, v) + s)[j..]) {
      if j <= |k| {
        NotInKey(k, v, s, wanted, more, j);
      } else {
        NotInValue(k, v, s, wanted, more, j);
      }
    }
    FindSkip(Pair(k, v), s, Key(wanted) + more);
  }

  lemma NotInKey(k: string, v: string, s: string, wanted: string, more: string, j: nat)
    requires OtherKey(k, wanted) && s != "" && j <= |k|
    ensures j <= |Pair(k, v)| && !(Key(wanted) + more <= (Pair(k, v) + s)[j..])
  {
    var p, t, n := Key(wanted) + more, Pair(k, v) + s, |wanted|;
    KeyText(wanted, more);
    PairLetters(k, v, s);
    hide Key, Pair;
    if j == 0 {
      var i :| 0 <= i <= |k| && i <= n && (if i == |k| || i == n then |k| != n else wanted[i] != k[i]);
      Mismatch(p, t, j, i + 1);
    } else {
      assert t[j] == k[j - 1];
      Mismatch(p, t, j, 0);
    }
  }

  lemma NotInValue(k: string, v: string, s: string, wanted: string, more: string, j: nat)
    requires OtherKey(k, wanted) && Plain(v) && s != "" && s[0] == ',' && |k| < j < |Pair(k, v)|
    ensures !(Key(wanted) + more <= (Pair(k, v) + s)[j..])
  {
    var p, t, n, q := Key(wanted) + more, Pair(k, v) + s, |wanted|, |k| + 3;
    KeyText(wanted, more);
    PairLetters(k, v, s);
    hide Key, Pair;
    if j == q && n == |v| {
      Mismatch(p, t, j, n + 2);
    } else if j == q {
      assert n < |v| ==> v[n] == t[j + n + 1];
      Mismatch(p, t, j, 1 + if n < |v| then n else |v|);
    } else if q < j <= q + |v| {
      assert t[j] == v[j - q - 1];
      Mismatch(p, t, j, 0);
    } else {
      Mismatch(p, t, j, if t[j] == '"' then 1 else 0);
    }
  }

  function Shift(n: nat, r: int): int {
    if r < 0 then -1 else n + r
  }

  lemma NextPair(k: string, v: string, s: string, wanted: string, more: string)
    requires OtherKey(k, wanted) && Plain(v)
    ensures
      var p := Key(wanted) + more;
      Find(Pair(k, v) + ("," + s), p) == Shift(|Pair(k, v)| + 1, Find(s, p))
  {
    var p := Key(wanted) + more;
    SkipPair(k, v, "," + s, wanted, more);
    assert forall j | 0 <= j < 1 :: ("," + s)[j..][0] == ',';
    FindSkip(",", s, p);
  }

  /** The text up to the next quote, and from it on. */
  function UpToQuote(s: string): (r: Option<(string, string)>)
    ensures r.Some? ==> |r.value.1| <= |s|
  {
    var e := Find(s, QUOTE);
    if e < 0 then None else Some((s[..e], s[e..]))
  }

  /** The value that follows a key, and the text from its closing quote on. */
  function Value(src: string, k: string): (r: Option<(string, string)>)
    ensures r.Some? ==> |r.value.1| <= |src|
  {
    var i := Find(src, Key(k));
    if i < 0 then None else UpToQuote(src[i + |Key(k)|..])
  }

  lemma Drop(a: string, b: string)
    ensures (a + b)[|a|..] == b
  {
  }

  lemma Assoc(a: string, b: string, c: string)
    ensures (a + b) + c == a + (b + c)
  {
  }

  lemma PairText(k: string, v: string, more: string)
    ensures Pair(k, v) + more == Key(k) + (v + QUOTE + more)
  {
    Assoc(Key(k) + v, QUOTE, more);
    Assoc(Key(k), v, QUOTE + more);
    Assoc(v, QUOTE, more);
  }

  lemma DropTwice(s: string, n: nat, k: nat)
    requires n + k <= |s|
    ensures s[n..][k..] == s[n + k..]
  {
  }

  lemma QuotedValue(v: string, more: string)
    requires Plain(v)
    ensures UpToQuote(v + QUOTE + more) == Some((v, QUOTE + more))
  {
    ValueEnds(v, more);
    Assoc(v, QUOTE, more);
    Drop(v, QUOTE + more);
  }

  lemma ValueIs(src: string, n: nat, k: string, v: string, more: string)
    requires Plain(v) && n == Find(src, Key(k)) && n <= |src| && src[n..] == Pair(k, v) + more
    ensures Value(src, k) == Some((v, QUOTE + more))
  {
    PairText(k, v, more);
    hide Key, Pair, UpToQuote, Find;
    var rest := v + QUOTE + more;
    Drop(Key(k), rest);
    DropTwice(src, n, |Key(k)|);
    assert Value(src, k) == UpToQuote(rest);
    QuotedValue(v, more);
  }

  // ---------------------------------------------------------------- records

  /** A record up to its status, which `s` stands for. */
  function Record(user: string, ip: string, ltime: string, s: string): string {
    "{" + (Pair("user", user) + ("," + (Pair("ip", ip) + ("," + (Pair("ltime", ltime) + ("," + s))))))
  }

  /** A login record as it is written to the database. */
  function Source(user: string, ip: string, ltime: string, status: string): string {
    Record(user, ip, ltime, Pair("status", status) + "}")
  }

  /** Character by character. */
  lemma SourceText(user: string, ip: string, ltime: string, status: string)
    ensures Source(user, ip, ltime, status) ==
      "{\"user\":\"" + user + "\",\"ip\":\"" + ip + "\",\"ltime\":\"" + ltime + "\",\"status\":\"" + status + "\"}"
  {
    SourceKeys();
    Joined(user, ip, ltime, status, Key("user"), Key("ip"), Key("ltime"), Key("status"));
    SourceIs(user, ip, ltime, status);
    hide *;
  }

  lemma SourceKeys()
    ensures "{" + Key("user") == "{\"user\":\"" && "\"," + Key("ip") == "\",\"ip\":\""
    ensures "\"," + Key("ltime") == "\",\"ltime\":\"" && "\"," + Key("status") == "\",\"status\":\""
  {
  }

  lemma SourceIs(user: string, ip: string, ltime: string, status: string)
    ensures
      var (k1, k2, k3, k4) := (Key("user"), Key("ip"), Key("ltime"), Key("status"));
      Source(user, ip, ltime, status) ==
        "{" + ((k1 + user + "\"") + ("," + ((k2 + ip + "\"") + ("," +
          ((k3 + ltime + "\"") + ("," + ((k4 + status + "\"") + "}")))))))
  {
    hide Key;
  }

  lemma Joined(user: string, ip: string, ltime: string, status: string, k1: string, k2: string, k3: string, k4: string)
    ensures
      "{" + ((k1 + user + "\"") + ("," + ((k2 + ip + "\"") + ("," +
        ((k3 + ltime + "\"") + ("," + ((k4 + status + "\"") + "}")))))))
      == ("{" + k1) + user + ("\"," + k2) + ip + ("\"," + k3) + ltime + ("\"," + k4) + status + "\"}"
  {
  }

  lemma RecordAppend(user: string, ip: string, ltime: string, s: string, rest: string)
    ensures Record(user, ip, ltime, s) + rest == Record(user, ip, ltime, s + rest)
  {
    hide Pair;
    var s3 := Pair("ltime", ltime) + ("," + s);
    var s2 := Pair("ip", ip) + ("," + s3);
    var s1 := Pair("user", user) + ("," + s2);
    Assoc(",", s, rest);
    Assoc(Pair("ltime", ltime), "," + s, rest);
    Assoc(",", s3, rest);
    Assoc(Pair("ip", ip), "," + s3, rest);
    Assoc(",", s2, rest);
    Assoc(Pair("user", user), "," + s2, rest);
    Assoc("{", s1, rest);
  }

  lemma FindHere(k: string, v: string, s: string)
    ensures Find(Pair(k, v) + s, Key(k)) == 0
  {
  }

  lemma SkipOne(c: string, s: string, wanted: string, more: string)
    requires |c| == 1 && c[0] != '"'
    ensures Find(c + s, Key(wanted) + more) == Shift(1, Find(s, Key(wanted) + more))
  {
    assert (c + s)[0..][0] == c[0];
    FindSkip(c, s, Key(wanted) + more);
  }

  lemma UserValue(user: string, ip: string, ltime: string, s: string)
    requires Plain(user)
    ensures var v := Value(Record(user, ip, ltime, s), "user"); v.Some? && v.value.0 == user
  {
    var src := Record(user, ip, ltime, s);
    hide Key, Pair, Value;
    var r1 := "," + (Pair("ip", ip) + ("," + (Pair("ltime", ltime) + ("," + s))));
    assert src == "{" + (Pair("user", user) + r1);
    FindHere("user", user, r1);
    SkipOne("{", Pair("user", user) + r1, "user", "");
    assert Key("user") + "" == Key("user");
    Drop("{", Pair("user", user) + r1);
    ValueIs(src, 1, "user", user, r1);
  }

  lemma IpValue(user: string, ip: string, ltime: string, s: string)
    requires Plain(user) && Plain(ip)
    ensures var v := Value(Record(user, ip, ltime, s), "ip"); v.Some? && v.value.0 == ip
  {
    var src := Record(user, ip, ltime, s);
    var r2 := "," + (Pair("ltime", ltime) + ("," + s));
    var r1 := Pair("ip", ip) + r2;
    var n := 2 + |Pair("user", user)|;
    hide Key, Pair, Value;
    assert src == "{" + (Pair("user", user) + ("," + r1));
    assert Key("ip") + "" == Key("ip");
    FindHere("ip", ip, r2);
    NextPair("user", user, r1, "ip", "");
    SkipOne("{", Pair("user", user) + ("," + r1), "ip", "");
    assert src[n..] == r1;
    ValueIs(src, n, "ip", ip, r2);
  }

  lemma LtimeValue(user: string, ip: string, ltime: string, s: string)
    requires Plain(user) && Plain(ip) && Plain(ltime)
    ensures Value(Record(user, ip, ltime, s), "ltime") == Some((ltime, QUOTE + ("," + s)))
  {
    var src := Record(user, ip, ltime, s);
    var r3 := "," + s;
    var r2 := Pair("ltime", ltime) + r3;
    var r1 := Pair("ip", ip) + ("," + r2);
    var n := 3 + |Pair("user", user)| + |Pair("ip", ip)|;
    hide Key, Pair, Value;
    assert src == "{" + (Pair("user", user) + ("," + r1));
    assert Key("ltime") + "" == Key("ltime");
    FindHere("ltime", ltime, r3);
    NextPair("ip", ip, r2, "ltime", "");
    NextPair("user", user, r1, "ltime", "");
    SkipOne("{", Pair("user", user) + ("," + r1), "ltime", "");
    assert r1[n - 2 - |Pair("user", user)|..] == r2;
    assert src[2 + |Pair("user", user)|..] == r1;
    assert src[n..] == r2;
    ValueIs(src, n, "ltime", ltime, r3);
  }

  /** Where a record's status is found, if nothing but what follows the time can match. */
  lemma StatusFound(user: string, ip: string, ltime: string, s: string, more: string)
    requires Plain(user) && Plain(ip) && Plain(ltime)
    ensures
      var p := Key("status") + more;
      Find(Record(user, ip, ltime, s), p) == Shift(|Record(user, ip, ltime, s)| - |s|, Find(s, p))
  {
    var src := Record(user, ip, ltime, s);
    var r2 := Pair("ltime", ltime) + ("," + s);
    var r1 := Pair("ip", ip) + ("," + r2);
    hide Key, Pair;
    NextPair("ltime", ltime, s, "status", more);
    NextPair("ip", ip, r2, "status", more);
    NextPair("user", user, r1, "status", more);
    SkipOne("{", Pair("user", user) + ("," + r1), "status", more);
  }
}
