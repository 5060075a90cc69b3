/**
  The digest of `post_live_scores_summary` (app/tasks.py:350-371): one bullet
  per stored match that is not over, published only when there is one.
*/
module Summary {
  import opened Wrappers
  import opened Text
  import opened Records
  import opened LiveDiff

  /** A stored match the digest lists: not over, and with both team names. */
  predicate InProgress(r: Rec) {
    r.statut != "TER" && r.eq1 != "" && r.eq2 != ""
  }

  /** The line of a match: half-time is marked `(MT)`, otherwise a running clock is shown. */
  function SummaryLine(r: Rec): string {
    Line(r.eq1, r.score, r.eq2) +
      (if r.statut == "MT" then " (MT)"
       else if '\'' in r.minute then " (" + r.minute + ")"
       else "")
  }

  /** A digest line opens with the match line, and is just that line when there is neither half-time nor a running clock. */
  lemma SummaryLineOpens(r: Rec)
    ensures Line(r.eq1, r.score, r.eq2) <= SummaryLine(r)
    ensures r.statut != "MT" && '\'' !in r.minute ==> SummaryLine(r) == Line(r.eq1, r.score, r.eq2)
  {
    var line := Line(r.eq1, r.score, r.eq2);
    var tail := if r.statut == "MT" then " (MT)" else if '\'' in r.minute then " (" + r.minute + ")" else "";
    assert SummaryLine(r) == line + tail;
    assert (line + tail)[..|line|] == line;
    assert line + "" == line;
  }

  /** A digest line marks half-time with `(MT)`, otherwise shows a minute that holds a running clock. */
  lemma SummaryLineMarks(r: Rec)
    ensures r.statut == "MT" ==> Contains(SummaryLine(r), " (MT)")
    ensures r.statut != "MT" && '\'' in r.minute ==> Contains(SummaryLine(r), r.minute)
  {
    var line := Line(r.eq1, r.score, r.eq2);
    if r.statut == "MT" {
      ContainsInfix(line, " (MT)", "");
      assert line + " (MT)" + "" == SummaryLine(r);
    } else if '\'' in r.minute {
      ContainsInfix(line + " (", r.minute, ")");
      assert line + " (" + r.minute + ")" == SummaryLine(r);
    }
  }

  /** The lines of the matches in progress, in stored order. */
  function SummaryLines(scores: Snapshot): seq<string> {
    if scores == [] then []
    else
      var last := scores[|scores| - 1].1;
      SummaryLines(scores[..|scores| - 1]) + (if InProgress(last) then [SummaryLine(last)] else [])
  }

  const SummaryTitle := "\U{1F4CA} Scores en direct :"
  const SummaryHeader := SummaryTitle + "\n\n"
  const Bullet := "\U{25C9} "

  /** Each line as a bullet on its own row. */
  function Bullets(lines: seq<string>): string {
    if lines == [] then "" else Bullets(lines[..|lines| - 1]) + Bullet + lines[|lines| - 1] + "\n"
  }

  /** The published digest: the header and the bullets, stripped. */
  function SummaryText(scores: Snapshot): string {
    Strip(SummaryHeader + Bullets(SummaryLines(scores)))
  }

  /** What the job publishes: nothing without a page, without stored scores, or without a match in progress. */
  function SummaryAnnouncement(havePages: bool, scores: Snapshot): Option<string> {
    if !havePages || scores == [] || SummaryLines(scores) == [] then None
    else Some(SummaryText(scores))
  }

  /** The message and the match counter the loop accumulates. */
  method BuildSummary(scores: Snapshot) returns (message: string, count: nat)
    ensures message == SummaryHeader + Bullets(SummaryLines(scores))
    ensures count == |SummaryLines(scores)|
  {
    message, count := SummaryHeader, 0;
    for i := 0 to |scores|
      invariant message == SummaryHeader + Bullets(SummaryLines(scores[..i]))
      invariant count == |SummaryLines(scores[..i])|
    {
      var r := scores[i].1;
      assert scores[..i + 1][..i] == scores[..i];
      assert scores[..i + 1][i] == scores[i];
      if InProgress(r) {
        var lines := SummaryLines(scores[..i]);
        var more := lines + [SummaryLine(r)];
        assert SummaryLines(scores[..i + 1]) == more;
        assert more[..|lines|] == lines;
        assert Bullets(more) == Bullets(lines) + Bullet + SummaryLine(r) + "\n";
        message := message + Bullet + SummaryLine(r) + "\n";
        count := count + 1;
      } else {
        assert SummaryLines(scores[..i + 1]) == SummaryLines(scores[..i]) + [];
        assert SummaryLines(scores[..i]) + [] == SummaryLines(scores[..i]);
      }
    }
    assert scores[..|scores|] == scores;
  }

  /** A line is listed exactly when some stored match in progress renders it. */
  lemma {:induction false} SummaryLinesListInProgress(scores: Snapshot, line: string)
    ensures line in SummaryLines(scores) <==>
      exists i :: 0 <= i < |scores| && InProgress(scores[i].1) && line == SummaryLine(scores[i].1)
  {
    if scores != [] {
      var n := |scores| - 1;
      SummaryLinesListInProgress(scores[..n], line);
      if exists i :: 0 <= i < |scores| && InProgress(scores[i].1) && line == SummaryLine(scores[i].1) {
        var i :| 0 <= i < |scores| && InProgress(scores[i].1) && line == SummaryLine(scores[i].1);
        if i < n {
          assert scores[..n][i] == scores[i];
        }
      }
      if line in SummaryLines(scores[..n]) {
        var i :| 0 <= i < n && InProgress(scores[..n][i].1) && line == SummaryLine(scores[..n][i].1);
        assert scores[..n][i] == scores[i];
      }
    }
  }

  /** There is a line exactly when some stored match is in progress. */
  lemma {:induction false} SummaryLinesNonEmpty(scores: Snapshot)
    ensures SummaryLines(scores) != [] <==> exists i :: 0 <= i < |scores| && InProgress(scores[i].1)
  {
    if scores != [] {
      var n := |scores| - 1;
      SummaryLinesNonEmpty(scores[..n]);
      if exists i :: 0 <= i < n && InProgress(scores[..n][i].1) {
        var i :| 0 <= i < n && InProgress(scores[..n][i].1);
        assert scores[..n][i] == scores[i];
      }
      if exists i :: 0 <= i < |scores| && InProgress(scores[i].1) {
        var i :| 0 <= i < |scores| && InProgress(scores[i].1);
        if i < n {
          assert scores[..n][i] == scores[i];
        }
      }
    }
  }

  /** The digest is published exactly when there is a page and a stored match in progress. */
  lemma SummaryPublishedIff(havePages: bool, scores: Snapshot)
    ensures SummaryAnnouncement(havePages, scores).Some? <==>
      havePages && exists i :: 0 <= i < |scores| && InProgress(scores[i].1)
  {
    SummaryLinesNonEmpty(scores);
  }

  /** Stripping keeps the title: the digest always starts with it. */
  lemma SummaryStartsWithTitle(scores: Snapshot)
    ensures |SummaryText(scores)| >= |SummaryTitle|
    ensures SummaryText(scores)[..|SummaryTitle|] == SummaryTitle
  {
    var full := SummaryHeader + Bullets(SummaryLines(scores));
    assert full[..|SummaryTitle|] == SummaryTitle;
    assert !IsSpace(full[0]);
    assert TrimStart(full) == full;
    var t := TrimEnd(full);
    assert !IsSpace(full[|SummaryTitle| - 1]);
    assert |t| >= |SummaryTitle|;
    assert t[..|SummaryTitle|] == full[..|SummaryTitle|];
  }
}
