/** The replies of the database to the service's searches, and what the service's parsers make of them. */
module Replies {
  import opened Common
  import opened Session
  import Hits
  import opened HitList

  /** How the database prints a reply around ids and records. */
  datatype Layout = Layout(gap: string, mid: string, after: string, ids: nat -> string)

  /** Nothing it prints can be taken for what the parsers look for. */
  ghost predicate LayoutOk(l: Layout) {
    && (forall i :: Hits.Plain(l.ids(i)))
    && Hits.Find(l.gap, ID) < 0 && Hits.Find(l.gap + ID, ID) == |l.gap|
    && Hits.Find(l.after, ID) < 0 && Hits.Find(l.after + ID, ID) == |l.after|
    && Hits.Find(Hits.QUOTE + l.mid + SOURCE, SOURCE) == |Hits.QUOTE + l.mid|
    && Hits.Find(Hits.QUOTE + l.mid + SOURCE_OPEN, SOURCE_OPEN) == |Hits.QUOTE + l.mid|
  }

  /** There is such a layout. */
  lemma SomeLayoutIsOk()
    ensures LayoutOk(Layout("", ",", "", i => ""))
  {
    assert Hits.QUOTE + "," + SOURCE == "\",\"_source\":";
    assert Hits.QUOTE + "," + SOURCE_OPEN == "\",\"_source\":{";
    Hits.Mismatch(SOURCE, Hits.QUOTE + "," + SOURCE, 0, 1);
    Hits.Mismatch(SOURCE, Hits.QUOTE + "," + SOURCE, 1, 0);
    Hits.FindIs(Hits.QUOTE + "," + SOURCE, SOURCE, 2);
    Hits.Mismatch(SOURCE_OPEN, Hits.QUOTE + "," + SOURCE_OPEN, 0, 1);
    Hits.Mismatch(SOURCE_OPEN, Hits.QUOTE + "," + SOURCE_OPEN, 1, 0);
    Hits.FindIs(Hits.QUOTE + "," + SOURCE_OPEN, SOURCE_OPEN, 2);
    assert "" + ID == ID;
  }

  predicate AllBelow(ids: seq<nat>, n: nat) {
    forall k | 0 <= k < |ids| :: ids[k] < n
  }

  function HitOf(l: Layout, db: seq<Record>, i: nat): Hit
    requires i < |db|
  {
    Hit(l.ids(i), l.mid, db[i].user, db[i].ip, db[i].ltime, l.after)
  }

  function HitsOf(l: Layout, db: seq<Record>, ids: seq<nat>): (r: seq<Hit>)
    requires AllBelow(ids, |db|)
    ensures |r| == |ids| && forall k | 0 <= k < |ids| :: r[k] == HitOf(l, db, ids[k])
  {
    if ids == [] then [] else [HitOf(l, db, ids[0])] + HitsOf(l, db, ids[1..])
  }

  /** The reply with the records `ids`, all of which are online. */
  function Reply(l: Layout, db: seq<Record>, ids: seq<nat>): string
    requires AllBelow(ids, |db|)
  {
    l.gap + PrintHits(HitsOf(l, db, ids))
  }

  function OfflineText(r: Record): string {
    Hits.Source(r.user, r.ip, r.ltime, "0")
  }

  /** What kickOffOldUser reads: the first record offline and the key of its stream, exactly if it is writable. */
  lemma KickReply(l: Layout, db: seq<Record>, ids: seq<nat>)
    requires LayoutOk(l) && AllBelow(ids, |db|)
    ensures ReadKick(Reply(l, db, ids)) ==
      if ids == [] || !Writable(db[ids[0]]) then None
      else Some(Kick(l.ids(ids[0]), OfflineText(db[ids[0]]), KeyOf(db[ids[0]])))
  {
    if ids == [] {
      assert l.gap + "" == l.gap;
    } else {
      KickIffBraceless(l.gap, HitOf(l, db, ids[0]), PrintHits(HitsOf(l, db, ids[1..])));
    }
  }

  /** What a dying stream reads, in the same case. */
  lemma LeaveReply(l: Layout, db: seq<Record>, ids: seq<nat>)
    requires LayoutOk(l) && AllBelow(ids, |db|)
    ensures ReadLeave(Reply(l, db, ids)) ==
      if ids != [] && Writable(db[ids[0]]) then Some((l.ids(ids[0]), OfflineText(db[ids[0]]))) else None
  {
    if ids == [] {
      assert l.gap + "" == l.gap;
    } else {
      LeaveIffBraceless(l.gap, HitOf(l, db, ids[0]), PrintHits(HitsOf(l, db, ids[1..])));
    }
  }

  /** What a sweep reads: every record, and with the offline tail its offline text, whatever its values. */
  lemma SweepReply(l: Layout, db: seq<Record>, ids: seq<nat>)
    requires LayoutOk(l) && AllBelow(ids, |db|)
    ensures
      var docs := Docs(Reply(l, db, ids));
      |docs| == |ids| && forall k | 0 <= k < |ids| ::
        && docs[k].id == l.ids(ids[k]) && docs[k].user + docs[k].ip + docs[k].ltime == KeyOf(db[ids[k]])
        && docs[k].source + OFFLINE_TAIL == OfflineText(db[ids[k]])
  {
    var hits := HitsOf(l, db, ids);
    HitsOfAreOk(l, db, ids);
    ParsePrinted(l.gap, hits);
    forall k | 0 <= k < |ids| ensures AsDoc(hits[k]).source + OFFLINE_TAIL == OfflineText(db[ids[k]]) {
      var r := db[ids[k]];
      HeadWithOfflineTail(r.user, r.ip, r.ltime);
    }
  }

  lemma {:induction false} HitsOfAreOk(l: Layout, db: seq<Record>, ids: seq<nat>)
    requires LayoutOk(l) && AllBelow(ids, |db|)
    ensures HitsOk(HitsOf(l, db, ids)) && Clear(l.gap, HitsOf(l, db, ids)) && Clear(l.after, HitsOf(l, db, ids))
  {
    if ids != [] {
      HitsOfAreOk(l, db, ids[1..]);
      assert HitsOf(l, db, ids)[1..] == HitsOf(l, db, ids[1..]);
    }
  }
}
