/**
  Live-match records as the scraper builds them (app/tasks.py:87-109), the
  ordered `match_key -> record` dictionary they are stored in, and the small
  pure helpers around detail pages: the statistics URL, the article-text
  truncation and the first-title-wins statistics list.
*/
module Records {
  import opened Wrappers
  import opened Text

  /** One tracked live match: the value stored under its key in scores.json. */
  datatype Rec = Rec(score: string, statut: string, minute: string, eq1: string, eq2: string, url: Option<string>)

  /** One parsed row of the live listing, every cell already stripped. */
  datatype LiveRow = LiveRow(eq1: string, eq2: string, score1: string, score2: string, minute: string, href: Option<string>)

  const Site := "https://www.matchendirect.fr"

  /**
    The status derived from the minute cell: half-time markers win over the
    finished marker, and anything else is the empty status.
  */
  function Status(minute: string): (r: string)
    ensures r in {"MT", "TER", ""}
  {
    var m := Lower(minute);
    if Contains(m, "mi-temps") || Contains(m, "mt") then "MT"
    else if Contains(m, "ter") then "TER"
    else ""
  }

  /** The status does not depend on the case of the minute cell. */
  lemma StatusIgnoresCase(minute: string)
    ensures Status(Lower(minute)) == Status(minute)
  {
    LowerIdempotent(minute);
  }

  /** A running clock such as `45'` (digits and apostrophes) has the empty status. */
  lemma ClockHasNoStatus(minute: string)
    requires forall i :: 0 <= i < |minute| ==> IsDigit(minute[i]) || minute[i] == '\''
    ensures Status(minute) == ""
  {
    var m := Lower(minute);
    assert 'm' !in m && 't' !in m;
    NotContainsHead(m, "mi-temps");
    NotContainsHead(m, "mt");
    NotContainsHead(m, "ter");
  }

  /** A minute cell naming half-time in any case gives `MT`, whatever else it says. */
  lemma HalfTimeMarker(minute: string, i: nat)
    requires i + 2 <= |minute| && Lower(minute[i..i + 2]) == "mt"
    ensures Status(minute) == "MT"
  {
    var m := Lower(minute);
    assert m[i..i + 2] == "mt";
    assert OccursAt(m, "mt", i);
  }

  /** The minute cell, lower-cased, names half-time: "mi-temps" or "mt" occurs in it somewhere. */
  predicate HalfTimeCell(minute: string) {
    exists i :: 0 <= i < |minute| && (OccursAt(Lower(minute), "mi-temps", i) || OccursAt(Lower(minute), "mt", i))
  }

  /** The minute cell, lower-cased, holds "ter" somewhere. */
  predicate FinishedCell(minute: string) {
    exists i :: 0 <= i < |minute| && OccursAt(Lower(minute), "ter", i)
  }

  /**
    The three statuses, each by the markers it is read from: MT exactly when
    a half-time marker occurs, TER exactly when "ter" occurs without one, and
    the empty status exactly when neither does.
  */
  lemma StatusCases(minute: string)
    ensures Status(minute) == "MT" <==> HalfTimeCell(minute)
    ensures Status(minute) == "TER" <==> !HalfTimeCell(minute) && FinishedCell(minute)
    ensures Status(minute) == "" <==> !HalfTimeCell(minute) && !FinishedCell(minute)
  {
    var m := Lower(minute);
    if HalfTimeCell(minute) {
      var i :| 0 <= i < |minute| && (OccursAt(m, "mi-temps", i) || OccursAt(m, "mt", i));
    }
    if FinishedCell(minute) {
      var i :| 0 <= i < |minute| && OccursAt(m, "ter", i);
    }
    if Contains(m, "mi-temps") {
      assert OccursAt(m, "mi-temps", IndexOf(m, "mi-temps").value);
    }
    if Contains(m, "mt") {
      assert OccursAt(m, "mt", IndexOf(m, "mt").value);
    }
    if Contains(m, "ter") {
      assert OccursAt(m, "ter", IndexOf(m, "ter").value);
    }
  }

  /** The identity of a live match: its two team names. */
  function MatchKey(eq1: string, eq2: string): string {
    eq1 + " vs " + eq2
  }

  /** The score as stored and compared: the two score cells around `" - "`. */
  function ScoreText(s1: string, s2: string): string {
    s1 + " - " + s2
  }

  function RowUrl(href: Option<string>): (r: Option<string>)
    ensures r.Some? <==> href.Some? && href.value != ""
  {
    if href.Some? && href.value != "" then Some(Site + href.value) else None
  }

  function RowRecord(row: LiveRow): Rec {
    Rec(ScoreText(row.score1, row.score2), Status(row.minute), row.minute, row.eq1, row.eq2, RowUrl(row.href))
  }

  /** An ordered dictionary from match key to record (Python dicts keep insertion order). */
  type Snapshot = seq<(string, Rec)>

  predicate DistinctKeys(s: Snapshot) {
    forall i, j :: 0 <= i < j < |s| ==> s[i].0 != s[j].0
  }

  /** `d.get(k)`. */
  function Lookup(s: Snapshot, k: string): (r: Option<Rec>)
    ensures r.None? ==> forall i :: 0 <= i < |s| ==> s[i].0 != k
    ensures r.Some? ==> exists i :: 0 <= i < |s| && s[i] == (k, r.value)
  {
    if s == [] then None
    else if s[0].0 == k then Some(s[0].1)
    else
      var r := Lookup(s[1..], k);
      assert forall i :: 1 <= i < |s| ==> s[i] == s[1..][i - 1];
      r
  }

  /** In a dictionary with distinct keys, looking up an entry's key gives its value. */
  lemma {:induction false} LookupEntry(s: Snapshot, i: nat)
    requires DistinctKeys(s) && i < |s|
    ensures Lookup(s, s[i].0) == Some(s[i].1)
  {
    if i > 0 {
      LookupEntry(s[1..], i - 1);
    }
  }

  /**
    `d[k] = v`: an existing key keeps its position and takes the new value, a
    new key goes at the end.
  */
  function Put(s: Snapshot, k: string, v: Rec): (r: Snapshot)
    ensures Lookup(s, k).Some? ==> |r| == |s| && forall i :: 0 <= i < |s| ==> r[i].0 == s[i].0
    ensures Lookup(s, k).Some? ==> forall i :: 0 <= i < |s| && s[i].0 != k ==> r[i] == s[i]
    ensures Lookup(s, k).None? ==> r == s + [(k, v)]
  {
    if s == [] then [(k, v)]
    else if s[0].0 == k then [(k, v)] + s[1..]
    else
      var rest := Put(s[1..], k, v);
      assert Lookup(s, k) == Lookup(s[1..], k);
      assert Lookup(s, k).None? ==> [s[0]] + rest == s + [(k, v)] by {
        if Lookup(s, k).None? {
          assert [s[0]] + (s[1..] + [(k, v)]) == s + [(k, v)];
        }
      }
      [s[0]] + rest
  }

  /** After `d[k] = v`, `k` reads `v` and every other key reads what it read before. */
  lemma {:induction false} PutLookup(s: Snapshot, k: string, v: Rec, k': string)
    ensures Lookup(Put(s, k, v), k') == if k' == k then Some(v) else Lookup(s, k')
  {
    if s != [] && s[0].0 != k {
      PutLookup(s[1..], k, v, k');
      assert ([s[0]] + Put(s[1..], k, v))[1..] == Put(s[1..], k, v);
    }
  }

  /** A dictionary with distinct keys is its first entry, whose key is not among the rest, before the rest. */
  lemma DistinctUncons(s: Snapshot)
    requires DistinctKeys(s) && s != []
    ensures DistinctKeys(s[1..])
    ensures Lookup(s[1..], s[0].0).None?
  {
    forall i | 0 <= i < |s[1..]| ensures s[1..][i].0 != s[0].0 {
      assert s[1..][i] == s[i + 1];
    }
  }

  lemma DistinctCons(e: (string, Rec), rest: Snapshot)
    requires DistinctKeys(rest) && Lookup(rest, e.0).None?
    ensures DistinctKeys([e] + rest)
  {
    var r := [e] + rest;
    forall i, j | 0 <= i < j < |r| ensures r[i].0 != r[j].0 {
      assert r[j] == rest[j - 1];
      if i > 0 {
        assert r[i] == rest[i - 1];
      }
    }
  }

  /** `d[k] = v` keeps the keys distinct. */
  lemma {:induction false} PutDistinct(s: Snapshot, k: string, v: Rec)
    requires DistinctKeys(s)
    ensures DistinctKeys(Put(s, k, v))
  {
    if s != [] {
      DistinctUncons(s);
      if s[0].0 == k {
        DistinctCons((k, v), s[1..]);
      } else {
        PutDistinct(s[1..], k, v);
        PutLookup(s[1..], k, v, s[0].0);
        DistinctCons(s[0], Put(s[1..], k, v));
      }
    }
  }

  /** One row of the listing stored into the dictionary; a row that could not be read changes nothing. */
  function Absorb(acc: Snapshot, row: Option<LiveRow>): Snapshot {
    match row
    case None => acc
    case Some(r) => Put(acc, MatchKey(r.eq1, r.eq2), RowRecord(r))
  }

  /** After one row, its key reads its record and every other key reads what it read before. */
  lemma AbsorbLookup(acc: Snapshot, row: Option<LiveRow>, k: string)
    ensures Lookup(Absorb(acc, row), k) ==
      if row.Some? && MatchKey(row.value.eq1, row.value.eq2) == k then Some(RowRecord(row.value)) else Lookup(acc, k)
  {
    if row.Some? {
      PutLookup(acc, MatchKey(row.value.eq1, row.value.eq2), RowRecord(row.value), k);
    }
  }

  lemma AbsorbDistinct(acc: Snapshot, row: Option<LiveRow>)
    requires DistinctKeys(acc)
    ensures DistinctKeys(Absorb(acc, row))
  {
    if row.Some? {
      PutDistinct(acc, MatchKey(row.value.eq1, row.value.eq2), RowRecord(row.value));
    }
  }

  function CollectRows(acc: Snapshot, rows: seq<Option<LiveRow>>): (r: Snapshot)
    ensures DistinctKeys(acc) ==> DistinctKeys(r)
    decreases |rows|
  {
    if rows == [] then acc
    else if DistinctKeys(acc) then
      AbsorbDistinct(acc, rows[0]);
      CollectRows(Absorb(acc, rows[0]), rows[1..])
    else
      CollectRows(Absorb(acc, rows[0]), rows[1..])
  }

  /**
    `get_live_scores`: the listing page, or `None` when loading it failed; a
    row the parser could not read is `None` and skipped. A failed load gives
    the empty dictionary.
  */
  function LiveSnapshot(page: Option<seq<Option<LiveRow>>>): (r: Snapshot)
    ensures DistinctKeys(r)
    ensures page.None? ==> r == []
  {
    match page
    case None => []
    case Some(rows) => CollectRows([], rows)
  }

  /** When two rows share a key, the later one's record is the one kept. */
  lemma {:induction false} LastRowWins(acc: Snapshot, rows: seq<Option<LiveRow>>, i: nat)
    requires i < |rows| && rows[i].Some?
    requires forall j :: i < j < |rows| && rows[j].Some? ==>
      MatchKey(rows[j].value.eq1, rows[j].value.eq2) != MatchKey(rows[i].value.eq1, rows[i].value.eq2)
    ensures Lookup(CollectRows(acc, rows), MatchKey(rows[i].value.eq1, rows[i].value.eq2)) == Some(RowRecord(rows[i].value))
    decreases |rows|
  {
    var k := MatchKey(rows[i].value.eq1, rows[i].value.eq2);
    var next := Absorb(acc, rows[0]);
    if i == 0 {
      AbsorbLookup(acc, rows[0], k);
      KeyUntouched(next, rows[1..], k);
    } else {
      LastRowWins(next, rows[1..], i - 1);
    }
  }

  /** Rows with other keys leave a key's value alone. */
  lemma {:induction false} KeyUntouched(acc: Snapshot, rows: seq<Option<LiveRow>>, k: string)
    requires forall j :: 0 <= j < |rows| && rows[j].Some? ==> MatchKey(rows[j].value.eq1, rows[j].value.eq2) != k
    ensures Lookup(CollectRows(acc, rows), k) == Lookup(acc, k)
    decreases |rows|
  {
    if rows != [] {
      AbsorbLookup(acc, rows[0], k);
      KeyUntouched(Absorb(acc, rows[0]), rows[1..], k);
    }
  }

  /** The scraping loop of `get_live_scores`, written as the loop it is. */
  method ScrapeLiveScores(page: Option<seq<Option<LiveRow>>>) returns (scores: Snapshot)
    ensures scores == LiveSnapshot(page)
    ensures DistinctKeys(scores)
  {
    scores := [];
    if page.None? {
      return;
    }
    var rows := page.value;
    var i := 0;
    while i < |rows|
      invariant 0 <= i <= |rows|
      invariant CollectRows(scores, rows[i..]) == CollectRows([], rows)
    {
      assert rows[i..][1..] == rows[i + 1..];
      var next := scores;
      if rows[i].Some? {
        var row := rows[i].value;
        next := Put(scores, MatchKey(row.eq1, row.eq2), RowRecord(row));
      }
      assert next == Absorb(scores, rows[i]);
      scores := next;
      i := i + 1;
    }
  }

  /** `match_url.split('?')[0]`: the URL up to, not including, its first `?`. */
  function BeforeQuery(url: string): (base: string)
    ensures '?' !in base
    ensures |base| <= |url| && base == url[..|base|]
    ensures |base| < |url| ==> url[|base|] == '?'
  {
    var parts := Split(url, "?");
    ContainsChar(parts[0], '?');
    assert |parts| > 1 ==> url == parts[0] + "?" + Join(parts[1..], "?");
    parts[0]
  }

  /** `get_stat_url`: the statistics tab of a match page, or `None` for a missing URL. */
  function StatUrl(url: Option<string>): (r: Option<string>)
    ensures r.Some? <==> url.Some? && url.value != ""
    ensures r.Some? ==> r.value == BeforeQuery(url.value) + "?p=stats"
  {
    if url.None? || url.value == "" then None else Some(BeforeQuery(url.value) + "?p=stats")
  }

  /** The part before the first `?` of a URL built as `b + "?" + rest` is `b` itself. */
  lemma BeforeQueryOf(b: string, rest: string)
    requires '?' !in b
    ensures BeforeQuery(b + "?" + rest) == b
  {
    var t := b + "?" + rest;
    var x := BeforeQuery(t);
    assert forall k :: 0 <= k < |x| ==> x[k] == t[k];
    assert forall k :: 0 <= k < |b| ==> t[k] == b[k];
    assert t[|b|] == '?';
  }

  /** Applying `get_stat_url` to its own result changes nothing. */
  lemma StatUrlIdempotent(url: Option<string>)
    ensures StatUrl(StatUrl(url)) == StatUrl(url)
  {
    if StatUrl(url).Some? {
      var b := BeforeQuery(url.value);
      assert b + "?p=stats" == b + "?" + "p=stats";
      BeforeQueryOf(b, "p=stats");
    }
  }

  const ArticleLimit := 1500

  /** `get_article_content`: the stripped text, cut to 1500 characters plus `"..."` when longer. */
  function ArticleText(raw: string): (r: string)
    ensures |r| <= ArticleLimit + 3
    ensures var c := Strip(raw); |c| <= ArticleLimit ==> r == c
    ensures var c := Strip(raw); |c| > ArticleLimit ==> |r| == ArticleLimit + 3 && r[..ArticleLimit] == c[..ArticleLimit] && r[ArticleLimit..] == "..."
  {
    var c := Strip(raw);
    if |c| > ArticleLimit then c[..ArticleLimit] + "..." else c
  }

  /** Cutting an article that was already cut changes nothing. */
  lemma ArticleTextIdempotent(raw: string)
    ensures ArticleText(ArticleText(raw)) == ArticleText(raw)
  {
    var c := Strip(raw);
    var r := ArticleText(raw);
    if |c| > ArticleLimit {
      assert !IsSpace(r[0]) by { assert r[0] == c[0]; }
      assert !IsSpace(r[|r| - 1]) by { assert r[|r| - 1] == '.'; }
      assert TrimStart(r) == r;
      assert TrimEnd(r) == r;
      assert Strip(r) == r;
    } else {
      StripIdempotent(raw);
    }
  }

  /** One statistics bar: its title and the two teams' values, stripped. */
  datatype StatBlock = StatBlock(title: string, v1: string, v2: string)

  /** The first complete block with the given title. */
  function FirstWithTitle(blocks: seq<Option<StatBlock>>, title: string): Option<StatBlock> {
    if blocks == [] then None
    else if blocks[0].Some? && blocks[0].value.title == title then blocks[0]
    else FirstWithTitle(blocks[1..], title)
  }

  /**
    The statistics kept by `get_match_stats`: incomplete blocks are skipped and
    a title already seen is skipped, so each title is kept once, from its first block.
  */
  function StatEntries(seen: set<string>, blocks: seq<Option<StatBlock>>): (r: seq<StatBlock>)
    ensures forall i :: 0 <= i < |r| ==> r[i].title !in seen && FirstWithTitle(blocks, r[i].title) == Some(r[i])
    ensures forall i, j :: 0 <= i < j < |r| ==> r[i].title != r[j].title
    decreases |blocks|
  {
    if blocks == [] then []
    else
      var rest := blocks[1..];
      match blocks[0]
      case None => StatEntries(seen, rest)
      case Some(b) =>
        if b.title in seen then StatEntries(seen, rest)
        else
          var tail := StatEntries(seen + {b.title}, rest);
          assert forall i :: 0 <= i < |tail| ==> ([b] + tail)[i + 1] == tail[i];
          [b] + tail
  }

  /** Every title of a complete block that was not seen before is kept. */
  lemma {:induction false} StatEntriesCover(seen: set<string>, blocks: seq<Option<StatBlock>>, b: StatBlock)
    requires Some(b) in blocks && b.title !in seen
    ensures exists i :: 0 <= i < |StatEntries(seen, blocks)| && StatEntries(seen, blocks)[i].title == b.title
    decreases |blocks|
  {
    var r := StatEntries(seen, blocks);
    var rest := blocks[1..];
    if blocks[0] == Some(b) {
      assert r[0] == b;
    } else {
      assert Some(b) in rest;
      match blocks[0]
      case None =>
        StatEntriesCover(seen, rest, b);
      case Some(c) =>
        if c.title in seen {
          StatEntriesCover(seen, rest, b);
        } else if c.title == b.title {
          assert r[0] == c;
        } else {
          var tail := StatEntries(seen + {c.title}, rest);
          StatEntriesCover(seen + {c.title}, rest, b);
          var i :| 0 <= i < |tail| && tail[i].title == b.title;
          assert r[i + 1] == tail[i];
        }
    }
  }

  function StatLine(b: StatBlock): string {
    b.title + " : " + b.v1 + " - " + b.v2
  }

  function StatLines(entries: seq<StatBlock>): seq<string> {
    seq(|entries|, i requires 0 <= i < |entries| => StatLine(entries[i]))
  }

  const StatBullet := "\n\U{1F4CA} "

  /** The statistics block appended to half-time and full-time messages (empty when there is none). */
  function StatsText(blocks: seq<Option<StatBlock>>): string {
    var lines := StatLines(StatEntries({}, blocks));
    if lines == [] then "" else StatBullet + Join(lines, StatBullet)
  }

  lemma StatEntriesStep(kept: seq<StatBlock>, seen: set<string>, blocks: seq<Option<StatBlock>>)
    requires blocks != []
    ensures blocks[0].Some? && blocks[0].value.title !in seen ==>
      kept + StatEntries(seen, blocks) == (kept + [blocks[0].value]) + StatEntries(seen + {blocks[0].value.title}, blocks[1..])
    ensures !(blocks[0].Some? && blocks[0].value.title !in seen) ==>
      kept + StatEntries(seen, blocks) == kept + StatEntries(seen, blocks[1..])
  {
  }

  lemma StatLinesAppend(entries: seq<StatBlock>, b: StatBlock)
    ensures StatLines(entries + [b]) == StatLines(entries) + [StatLine(b)]
  {
  }

  /** The statistics loop of `get_match_stats`, written as the loop it is. */
  method CollectStats(blocks: seq<Option<StatBlock>>) returns (text: string)
    ensures text == StatsText(blocks)
  {
    var stats: seq<string> := [];
    var seen: set<string> := {};
    ghost var kept: seq<StatBlock> := [];
    var i := 0;
    while i < |blocks|
      invariant 0 <= i <= |blocks|
      invariant StatEntries({}, blocks) == kept + StatEntries(seen, blocks[i..])
      invariant stats == StatLines(kept)
      decreases |blocks| - i
    {
      assert blocks[i..][1..] == blocks[i + 1..] && blocks[i..][0] == blocks[i];
      if blocks[i].Some? && blocks[i].value.title !in seen {
        var b := blocks[i].value;
        StatEntriesStep(kept, seen, blocks[i..]);
        StatLinesAppend(kept, b);
        seen := seen + {b.title};
        kept := kept + [b];
        stats := stats + [StatLine(b)];
      } else {
        StatEntriesStep(kept, seen, blocks[i..]);
      }
      i := i + 1;
    }
    assert kept == StatEntries({}, blocks);
    text := if stats == [] then "" else StatBullet + Join(stats, StatBullet);
  }
}
