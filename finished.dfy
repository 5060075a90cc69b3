/**
  The finished-match phase of `run_centralized_checks` (app/tasks.py:454-479):
  every row of the results page whose minute cell says `TER` and whose match
  id has not been published yet is announced once, then its id is recorded.
*/
module Finished {
  import opened Wrappers
  import opened Text
  import opened Records
  import opened LiveDiff

  /** The cells of a finished row; `href` is the detail link's attribute, which may be absent. */
  datatype FinishedCells = FinishedCells(eq1: string, eq2: string, score: string, href: Option<string>)

  /**
    A row of the results page: its match id, the text of its minute cell
    (`None` when the row has no such cell) and its cells (`None` when one of
    them cannot be read, which the per-row handler swallows).
  */
  datatype FinishedRow = FinishedRow(matchId: string, minuteCell: Option<string>, cells: Option<FinishedCells>)

  /** The outcome of the phase: the published ids, the messages broadcast, and whether it stopped on an error. */
  datatype FinishedPass = FinishedPass(ids: set<string>, messages: seq<string>, aborted: bool)

  /** Python formats a missing `href` as `None`. */
  function FinishedUrl(c: FinishedCells): string {
    Site + (if c.href.Some? then c.href.value else "None")
  }

  /** The text of the end-of-match message before stripping: result line, the shoot-out score if any, then the statistics. */
  function Unstripped(head: string, pen: Option<string>, stats: string): string {
    (if pen.Some? then head + "\nTirs au but : " + pen.value else head) + "\n\n" + stats
  }

  const FinishedHeader := "\U{1F51A} Termin\U{E9}\n"

  /** The end-of-match message, stripped. */
  function FinishedMessage(c: FinishedCells, web: Web): string {
    var url := FinishedUrl(c);
    Strip(Unstripped(FinishedHeader + Line(c.eq1, c.score, c.eq2), web.penalty(url), MatchStats(web, Some(url))))
  }

  /** Stripping keeps a headline whose ends are not whitespace, and the shoot-out line after it when that one ends in a non-space character. */
  lemma UnstrippedOpens(head: string, pen: Option<string>, stats: string)
    requires head != [] && !IsSpace(head[0]) && !IsSpace(head[|head| - 1])
    ensures head <= Strip(Unstripped(head, pen, stats))
    ensures pen.Some? && pen.value != [] && !IsSpace(pen.value[|pen.value| - 1]) ==>
      head + "\nTirs au but : " + pen.value <= Strip(Unstripped(head, pen, stats))
  {
    var s := Unstripped(head, pen, stats);
    assert s[..|head|] == head;
    StripKeepsPrefix(head, s);
    if pen.Some? && pen.value != [] && !IsSpace(pen.value[|pen.value| - 1]) {
      var full := head + "\nTirs au but : " + pen.value;
      assert full[|full| - 1] == pen.value[|pen.value| - 1];
      assert s[..|full|] == full;
      StripKeepsPrefix(full, s);
    }
  }

  /**
    The end-of-match message opens with its headline and the result line,
    then the shoot-out score when there is one. It is stripped, so these
    come out whole when the text they end with ends in a non-space
    character, as a stripped cell does.
  */
  lemma FinishedMessageOpens(c: FinishedCells, web: Web)
    requires c.eq2 != [] && !IsSpace(c.eq2[|c.eq2| - 1])
    ensures FinishedHeader + Line(c.eq1, c.score, c.eq2) <= FinishedMessage(c, web)
    ensures var pen := web.penalty(FinishedUrl(c));
      pen.Some? && pen.value != [] && !IsSpace(pen.value[|pen.value| - 1]) ==>
        FinishedHeader + Line(c.eq1, c.score, c.eq2) + "\nTirs au but : " + pen.value <= FinishedMessage(c, web)
  {
    var url := FinishedUrl(c);
    var head := FinishedHeader + Line(c.eq1, c.score, c.eq2);
    assert head[|head| - 1] == c.eq2[|c.eq2| - 1];
    UnstrippedOpens(head, web.penalty(url), MatchStats(web, Some(url)));
  }

  /** The row's minute cell says the match is over. */
  predicate Ended(row: FinishedRow)
    requires row.minuteCell.Some?
  {
    Contains(row.minuteCell.value, "TER")
  }

  /** The effect of one row on the phase. A row without a minute cell raises out of the loop. */
  function FinishedStep(p: FinishedPass, row: FinishedRow, web: Web): FinishedPass {
    if p.aborted then p
    else if row.minuteCell.None? then p.(aborted := true)
    else if !Ended(row) || row.matchId in p.ids || row.cells.None? then p
    else FinishedPass(p.ids + {row.matchId}, p.messages + [FinishedMessage(row.cells.value, web)], false)
  }

  /** The phase over the rows, in page order, from the published set `ids`. */
  function FinishedRun(ids: set<string>, rows: seq<FinishedRow>, web: Web): FinishedPass {
    if rows == [] then FinishedPass(ids, [], false)
    else FinishedStep(FinishedRun(ids, rows[..|rows| - 1], web), rows[|rows| - 1], web)
  }

  /** The phase as a whole: a results page that does not load stops it before any row. */
  function FinishedPhase(ids: set<string>, page: Option<seq<FinishedRow>>, web: Web): FinishedPass {
    match page
    case None => FinishedPass(ids, [], true)
    case Some(rows) => FinishedRun(ids, rows, web)
  }

  lemma FinishedRunStep(ids: set<string>, rows: seq<FinishedRow>, i: nat, web: Web)
    requires i < |rows|
    ensures FinishedRun(ids, rows[..i + 1], web) == FinishedStep(FinishedRun(ids, rows[..i], web), rows[i], web)
  {
    assert rows[..i + 1][..i] == rows[..i];
    assert rows[..i + 1][i] == rows[i];
  }

  /** The published set only grows, by exactly one id per message. */
  lemma {:induction false} FinishedIdsCount(ids: set<string>, rows: seq<FinishedRow>, web: Web)
    ensures ids <= FinishedRun(ids, rows, web).ids
    ensures |FinishedRun(ids, rows, web).ids| == |ids| + |FinishedRun(ids, rows, web).messages|
  {
    if rows != [] {
      var n := |rows| - 1;
      FinishedIdsCount(ids, rows[..n], web);
    }
  }

  /** An id the phase adds is that of an ended, readable row. */
  lemma {:induction false} FinishedIdFromRow(ids: set<string>, rows: seq<FinishedRow>, web: Web, id: string)
    requires id in FinishedRun(ids, rows, web).ids && id !in ids
    ensures exists k :: 0 <= k < |rows| && rows[k].matchId == id && rows[k].minuteCell.Some? && Ended(rows[k]) && rows[k].cells.Some?
  {
    var n := |rows| - 1;
    var p := FinishedRun(ids, rows[..n], web);
    if id in p.ids {
      FinishedIdFromRow(ids, rows[..n], web, id);
      var k :| 0 <= k < n && rows[..n][k].matchId == id && rows[..n][k].minuteCell.Some? && Ended(rows[..n][k]) && rows[..n][k].cells.Some?;
      assert rows[k] == rows[..n][k];
    } else {
      assert rows[n].matchId == id && rows[n].minuteCell.Some? && Ended(rows[n]) && rows[n].cells.Some?;
    }
  }

  /**
    The published set only grows, and by exactly one id per message: each id
    is announced once, and every added id is that of an ended row.
  */
  lemma FinishedIdsGrow(ids: set<string>, rows: seq<FinishedRow>, web: Web)
    ensures ids <= FinishedRun(ids, rows, web).ids
    ensures |FinishedRun(ids, rows, web).ids| == |ids| + |FinishedRun(ids, rows, web).messages|
    ensures forall id :: id in FinishedRun(ids, rows, web).ids && id !in ids ==>
      exists k :: 0 <= k < |rows| && rows[k].matchId == id && rows[k].minuteCell.Some? && Ended(rows[k]) && rows[k].cells.Some?
  {
    FinishedIdsCount(ids, rows, web);
    forall id | id in FinishedRun(ids, rows, web).ids && id !in ids
      ensures exists k :: 0 <= k < |rows| && rows[k].matchId == id && rows[k].minuteCell.Some? && Ended(rows[k]) && rows[k].cells.Some?
    {
      FinishedIdFromRow(ids, rows, web, id);
    }
  }

  /** No row is left whose announcement is still due from the set `ids`. */
  predicate AllPublished(ids: set<string>, rows: seq<FinishedRow>) {
    forall k :: 0 <= k < |rows| ==>
      rows[k].minuteCell.Some? && (Ended(rows[k]) && rows[k].cells.Some? ==> rows[k].matchId in ids)
  }

  lemma AllPublishedSnoc(ids: set<string>, more: set<string>, rows: seq<FinishedRow>, row: FinishedRow)
    requires AllPublished(ids, rows) && ids <= more
    requires row.minuteCell.Some? && (Ended(row) && row.cells.Some? ==> row.matchId in more)
    ensures AllPublished(more, rows + [row])
  {
    var all := rows + [row];
    forall k | 0 <= k < |all|
      ensures all[k].minuteCell.Some? && (Ended(all[k]) && all[k].cells.Some? ==> all[k].matchId in more)
    {
      if k < |rows| {
        assert all[k] == rows[k];
      }
    }
  }

  /** A step that does not stop the phase leaves its row published if announceable. */
  lemma FinishedStepCovers(p: FinishedPass, row: FinishedRow, web: Web)
    requires !FinishedStep(p, row, web).aborted
    ensures !p.aborted && p.ids <= FinishedStep(p, row, web).ids
    ensures row.minuteCell.Some? && (Ended(row) && row.cells.Some? ==> row.matchId in FinishedStep(p, row, web).ids)
  {
  }

  /** A phase that completes leaves every announceable row published. */
  lemma {:induction false} CompletedRunPublishesAll(ids: set<string>, rows: seq<FinishedRow>, web: Web)
    requires !FinishedRun(ids, rows, web).aborted
    ensures AllPublished(FinishedRun(ids, rows, web).ids, rows)
  {
    if rows != [] {
      var n := |rows| - 1;
      var p := FinishedRun(ids, rows[..n], web);
      var q := FinishedStep(p, rows[n], web);
      FinishedStepCovers(p, rows[n], web);
      CompletedRunPublishesAll(ids, rows[..n], web);
      AllPublishedSnoc(p.ids, q.ids, rows[..n], rows[n]);
      assert rows[..n] + [rows[n]] == rows;
    }
  }

  /** From a set that already covers every announceable row, the phase announces nothing. */
  lemma {:induction false} PublishedRowsSilent(ids: set<string>, rows: seq<FinishedRow>, web: Web)
    requires AllPublished(ids, rows)
    ensures FinishedRun(ids, rows, web) == FinishedPass(ids, [], false)
  {
    if rows != [] {
      var n := |rows| - 1;
      assert AllPublished(ids, rows[..n]) by {
        forall k | 0 <= k < n
          ensures rows[..n][k].minuteCell.Some? && (Ended(rows[..n][k]) && rows[..n][k].cells.Some? ==> rows[..n][k].matchId in ids)
        {
          assert rows[..n][k] == rows[k];
        }
      }
      PublishedRowsSilent(ids, rows[..n], web);
    }
  }

  /** Running the phase again on the same rows, from the set the first run saved, announces nothing. */
  lemma RerunSilent(ids: set<string>, rows: seq<FinishedRow>, web: Web)
    requires !FinishedRun(ids, rows, web).aborted
    ensures var saved := FinishedRun(ids, rows, web).ids;
      FinishedRun(saved, rows, web) == FinishedPass(saved, [], false)
  {
    CompletedRunPublishesAll(ids, rows, web);
    PublishedRowsSilent(FinishedRun(ids, rows, web).ids, rows, web);
  }

  /** A row without a minute cell stops the phase: nothing after it is announced. */
  lemma {:induction false} MissingCellStops(ids: set<string>, rows: seq<FinishedRow>, more: seq<FinishedRow>, web: Web)
    requires FinishedRun(ids, rows, web).aborted
    ensures FinishedRun(ids, rows + more, web) == FinishedRun(ids, rows, web)
    decreases |more|
  {
    if more == [] {
      assert rows + more == rows;
    } else {
      var n := |more| - 1;
      assert (rows + more)[..|rows + more| - 1] == rows + more[..n];
      MissingCellStops(ids, rows, more[..n], web);
    }
  }
}
