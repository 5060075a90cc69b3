/**
  The live diff of `run_centralized_checks` (app/tasks.py:409-449): for each
  freshly scraped record, compared with the stored record under the same key,
  zero or one event, and the message announcing it.
*/
module LiveDiff {
  import opened Wrappers
  import opened Text
  import opened Records

  datatype Side = Home | Away

  /** What a fresh record can announce. */
  datatype Event = NowLive | HalfTime | Goal(side: Side) | Disallowed(side: Side)

  /**
    `map(int, score.split(" - "))` unpacked into two values: exactly two
    pieces, each an integer; anything else raises `ValueError` (`None`).
  */
  function ParseScore(score: string): Option<(int, int)> {
    var parts := Split(score, " - ");
    if |parts| != 2 then None
    else
      match (ParseInt(parts[0]), ParseInt(parts[1]))
      case (Some(a), Some(b)) => Some((a, b))
      case _ => None
  }

  /** A stored score built from two digit cells parses back to their values. */
  lemma ParseScoreText(a: string, b: string)
    requires a != [] && AllDigits(a) && b != [] && AllDigits(b)
    ensures ParseScore(ScoreText(a, b)) == Some((DigitsValue(a) as int, DigitsValue(b) as int))
  {
    ParseDigits(a);
    ParseDigits(b);
    assert ScoreText(a, b) == a + " - " + b;
    SplitPair(a, b, " - ");
  }

  /** A score that parses is non-empty and has a dash, so the guard before the parse never hides it. */
  lemma ParsedScoreHasDash(score: string)
    requires ParseScore(score).Some?
    ensures score != "" && '-' in score
  {
    assert IndexOf(score, " - ").Some?;
    var i := IndexOf(score, " - ").value;
    assert score[i..i + 3] == " - ";
    assert score[i + 1] == '-';
  }

  /** How the parsed score moved: a rise on either side is a goal, else a fall is a disallowed goal. */
  function ScoreMove(o1: int, o2: int, n1: int, n2: int): Option<Event> {
    if n1 > o1 || n2 > o2 then Some(Goal(if n1 > o1 then Home else Away))
    else if n1 < o1 || n2 < o2 then Some(Disallowed(if n1 < o1 then Home else Away))
    else None
  }

  /** The cases of `ScoreMove`, one per side and direction. */
  lemma MoveCases(o1: int, o2: int, n1: int, n2: int)
    ensures (ScoreMove(o1, o2, n1, n2).Some? && ScoreMove(o1, o2, n1, n2).value.Goal?) <==> (n1 > o1 || n2 > o2)
    ensures ScoreMove(o1, o2, n1, n2) == Some(Goal(Home)) <==> n1 > o1
    ensures ScoreMove(o1, o2, n1, n2) == Some(Goal(Away)) <==> n1 <= o1 && n2 > o2
    ensures (ScoreMove(o1, o2, n1, n2).Some? && ScoreMove(o1, o2, n1, n2).value.Disallowed?) <==>
      n1 <= o1 && n2 <= o2 && (n1 < o1 || n2 < o2)
    ensures ScoreMove(o1, o2, n1, n2) == Some(Disallowed(Home)) <==> n1 <= o1 && n2 <= o2 && n1 < o1
  {
  }

  /** The event for a changed score (app/tasks.py:426-449); a malformed score gives none. */
  function ScoreEvent(oldScore: string, newScore: string): Option<Event> {
    if oldScore == "" || '-' !in oldScore || '-' !in newScore then None
    else
      match (ParseScore(oldScore), ParseScore(newScore))
      case (Some((o1, o2)), Some((n1, n2))) => ScoreMove(o1, o2, n1, n2)
      case _ => None
  }

  /** Two scores that parse reach the comparison: the guard before the parse never hides them. */
  lemma ScoreEventParsed(oldScore: string, newScore: string, o1: int, o2: int, n1: int, n2: int)
    requires ParseScore(oldScore) == Some((o1, o2)) && ParseScore(newScore) == Some((n1, n2))
    ensures ScoreEvent(oldScore, newScore) == ScoreMove(o1, o2, n1, n2)
  {
    assert !(oldScore == "" || '-' !in oldScore || '-' !in newScore) by {
      ParsedScoreHasDash(oldScore);
      ParsedScoreHasDash(newScore);
    }
  }

  /** The event a fresh record announces against the stored one (`None` for a key not stored). */
  function Derive(stored: Option<Rec>, r: Rec): Option<Event> {
    match stored
    case None =>
      if r.score != " - " && '\'' in r.minute then Some(NowLive) else None
    case Some(s) =>
      if r.statut == "MT" && s.statut != "MT" then Some(HalfTime)
      else if r.score != s.score then ScoreEvent(s.score, r.score)
      else None
  }

  /** Without a half-time transition, a changed score that parses on both sides is judged by the counts alone. */
  lemma DeriveParsed(s: Rec, r: Rec, o1: int, o2: int, n1: int, n2: int)
    requires !(r.statut == "MT" && s.statut != "MT")
    requires r.score != s.score
    requires ParseScore(s.score) == Some((o1, o2)) && ParseScore(r.score) == Some((n1, n2))
    ensures Derive(Some(s), r) == ScoreMove(o1, o2, n1, n2)
  {
    assert Derive(Some(s), r) == ScoreEvent(s.score, r.score);
    ScoreEventParsed(s.score, r.score, o1, o2, n1, n2);
  }

  /** A key seen for the first time is announced only as now-live, and only when it has a score and a clock. */
  lemma NewKeyOnlyNowLive(r: Rec)
    ensures Derive(None, r).Some? <==> r.score != " - " && '\'' in r.minute
    ensures Derive(None, r) != Some(HalfTime)
    ensures forall side :: Derive(None, r) != Some(Goal(side)) && Derive(None, r) != Some(Disallowed(side))
  {
  }

  /**
    Half-time is announced exactly on the cycle the status turns to `MT`, and
    wins over a score change in the same cycle.
  */
  lemma HalfTimeOnTransition(s: Rec, r: Rec)
    ensures Derive(Some(s), r) == Some(HalfTime) <==> r.statut == "MT" && s.statut != "MT"
    ensures r.statut == "MT" && s.statut != "MT" ==> forall side :: Derive(Some(s), r) != Some(Goal(side))
  {
  }

  /**
    Without a half-time transition, a goal is announced exactly when the score
    text changed, both scores parse and a side's count rose; it goes to the
    home side whenever the home count rose, even if both rose.
  */
  lemma GoalOnRise(s: Rec, r: Rec, o1: int, o2: int, n1: int, n2: int)
    requires !(r.statut == "MT" && s.statut != "MT")
    requires r.score != s.score
    requires ParseScore(s.score) == Some((o1, o2)) && ParseScore(r.score) == Some((n1, n2))
    ensures (Derive(Some(s), r).Some? && Derive(Some(s), r).value.Goal?) <==> (n1 > o1 || n2 > o2)
    ensures Derive(Some(s), r) == Some(Goal(Home)) <==> n1 > o1
    ensures Derive(Some(s), r) == Some(Goal(Away)) <==> n1 <= o1 && n2 > o2
  {
    DeriveParsed(s, r, o1, o2, n1, n2);
    MoveCases(o1, o2, n1, n2);
  }

  /**
    A disallowed goal is announced exactly when no count rose and one fell,
    naming the home side whenever its count fell; never alongside a goal.
  */
  lemma DisallowedOnFall(s: Rec, r: Rec, o1: int, o2: int, n1: int, n2: int)
    requires !(r.statut == "MT" && s.statut != "MT")
    requires r.score != s.score
    requires ParseScore(s.score) == Some((o1, o2)) && ParseScore(r.score) == Some((n1, n2))
    ensures (Derive(Some(s), r).Some? && Derive(Some(s), r).value.Disallowed?) <==> n1 <= o1 && n2 <= o2 && (n1 < o1 || n2 < o2)
    ensures Derive(Some(s), r) == Some(Disallowed(Home)) <==> n1 <= o1 && n2 <= o2 && n1 < o1
  {
    DeriveParsed(s, r, o1, o2, n1, n2);
    MoveCases(o1, o2, n1, n2);
  }

  /** A stored or fresh score that does not parse gives no score event. */
  lemma MalformedScoreSilent(s: Rec, r: Rec)
    requires !(r.statut == "MT" && s.statut != "MT")
    requires ParseScore(s.score).None? || ParseScore(r.score).None?
    ensures Derive(Some(s), r).None?
  {
  }

  /** A record identical to the stored one announces nothing. */
  lemma UnchangedSilent(r: Rec)
    ensures Derive(Some(r), r).None?
  {
  }

  /**
    A goal then its reversal by the video referee: from `a - b` to `c - b`
    with `c` one more than `a` is a home goal, and back is a disallowed home goal.
  */
  lemma GoalAndReversal(s: Rec, r: Rec, a: string, b: string, c: string)
    requires a != [] && AllDigits(a) && b != [] && AllDigits(b) && c != [] && AllDigits(c)
    requires DigitsValue(c) == DigitsValue(a) + 1
    requires s.score == ScoreText(a, b) && r.score == ScoreText(c, b)
    requires s.statut == "" && r.statut == ""
    ensures Derive(Some(s), r) == Some(Goal(Home))
    ensures Derive(Some(r), s) == Some(Disallowed(Home))
  {
    ParseScoreText(a, b);
    ParseScoreText(c, b);
    assert s.score != r.score by { assert ParseScore(s.score) != ParseScore(r.score); }
    ScoreEventParsed(s.score, r.score, DigitsValue(a), DigitsValue(b), DigitsValue(c), DigitsValue(b));
    ScoreEventParsed(r.score, s.score, DigitsValue(c), DigitsValue(b), DigitsValue(a), DigitsValue(b));
  }

  /** The detail pages the announcements are enriched from, as functions of the URL fetched. */
  datatype Web = Web(
    statsPage: string -> Option<seq<Option<StatBlock>>>,
    goalDetail: string -> (Option<string>, Option<string>),
    penalty: string -> Option<string>)

  /** `get_match_stats(driver, get_stat_url(url))`: empty without a URL or when the page fails. */
  function MatchStats(web: Web, url: Option<string>): string {
    match StatUrl(url)
    case None => ""
    case Some(u) =>
      match web.statsPage(u)
      case None => ""
      case Some(blocks) => StatsText(blocks)
  }

  /** `get_match_details`: the last goal's scorer cell and minute, if any. */
  function GoalDetail(web: Web, url: Option<string>): (Option<string>, Option<string>) {
    if url.None? || url.value == "" then (None, None) else web.goalDetail(url.value)
  }

  /**
    The scorer shown in a goal message (app/tasks.py:437-443): none for a
    missing cell or one that starts with `(`; otherwise the text before any
    `(`, stripped and flagged with a flame. The name never holds a `(`.
  */
  function ScorerName(raw: Option<string>): (r: Option<string>)
    ensures r.Some? ==> '(' !in r.value
    ensures r.None? <==> !Truthy(raw) || raw.value[0] == '('
    ensures Truthy(raw) && '(' !in raw.value ==> r == raw
    ensures Truthy(raw) && raw.value[0] != '(' && Contains(raw.value, "(") ==>
      r == Some(Strip(raw.value[..IndexOf(raw.value, "(").value]) + " \U{1F525}")
  {
    if !Truthy(raw) || raw.value[0] == '(' then None
    else if '(' in raw.value then
      var head := Split(raw.value, "(")[0];
      ScorerHead(raw.value);
      Some(Strip(head) + " \U{1F525}")
    else raw
  }

  /** The text before the first `(` of a cell is the first piece of its split, and holds no `(`. */
  lemma ScorerHead(s: string)
    requires '(' in s
    ensures Contains(s, "(") && IndexOf(s, "(").Some?
    ensures Split(s, "(")[0] == s[..IndexOf(s, "(").value]
    ensures '(' !in Split(s, "(")[0]
  {
    ContainsChar(Split(s, "(")[0], '(');
    ContainsChar(s, '(');
    SplitLeftmost(s, "(");
  }

  const GoalPrefix := "\U{1F680} Buuuut de "

  function GoalHeadline(team: string, raw: Option<string>): string {
    match ScorerName(raw)
    case None => GoalPrefix + team + " !"
    case Some(name) => GoalPrefix + name + " (" + team + ") !"
  }

  function Line(eq1: string, score: string, eq2: string): string {
    eq1 + " " + score + " " + eq2
  }

  function Team(r: Rec, side: Side): string {
    if side == Home then r.eq1 else r.eq2
  }

  const Clock := "\U{23F1}\U{FE0F} "

  /** The message announcing an event of fresh record `r`. */
  function Render(e: Event, r: Rec, web: Web): string {
    var line := Line(r.eq1, r.score, r.eq2);
    match e
    case NowLive => Clock + r.minute + "\n" + line
    case HalfTime => Strip("\U{23F8}\U{FE0F} Mi-temps\n" + line + "\n\n" + MatchStats(web, r.url))
    case Goal(side) =>
      var (scorer, goalMinute) := GoalDetail(web, r.url);
      var shown := if Truthy(goalMinute) then goalMinute.value else r.minute;
      GoalText(GoalHeadline(Team(r, side), scorer), shown, line)
    case Disallowed(side) => DisallowedText(Team(r, side), line)
  }

  /** A goal message: the headline, the clock with the minute shown, and the match line. */
  function GoalText(headline: string, shown: string, line: string): string {
    headline + "\n" + Clock + shown + "\n" + line
  }

  const DisallowedFront := "\U{274C} BUT REFUS\U{C9} pour "
  const DisallowedMiddle := " apr\U{E8}s consultation de la VAR.\n\nLe score revient \U{E0} "

  /** A disallowed-goal message: the team that lost the goal, then the restored match line. */
  function DisallowedText(team: string, line: string): string {
    DisallowedFront + team + DisallowedMiddle + line
  }

  /** A headline without a scorer opens with the rocket and holds the team. */
  lemma TeamHeadline(team: string)
    ensures GoalPrefix <= GoalPrefix + team + " !"
    ensures Contains(GoalPrefix + team + " !", team)
  {
    var h := GoalPrefix + team + " !";
    assert h[..|GoalPrefix|] == GoalPrefix;
    ContainsInfix(GoalPrefix, team, " !");
  }

  /** A headline with a scorer opens with the rocket and holds both the scorer and the team. */
  lemma ScorerHeadline(team: string, name: string)
    ensures GoalPrefix <= GoalPrefix + name + " (" + team + ") !"
    ensures Contains(GoalPrefix + name + " (" + team + ") !", team)
    ensures Contains(GoalPrefix + name + " (" + team + ") !", name)
  {
    var tail := " (" + team + ") !";
    var h := GoalPrefix + name + " (" + team + ") !";
    assert h == GoalPrefix + name + tail;
    assert h[..|GoalPrefix|] == GoalPrefix;
    ContainsInfix(GoalPrefix + name + " (", team, ") !");
    ContainsInfix(GoalPrefix, name, tail);
  }

  /** The goal headline opens with the rocket and names the scoring team, and the scorer when one is shown. */
  lemma GoalHeadlineNames(team: string, raw: Option<string>)
    ensures GoalPrefix <= GoalHeadline(team, raw)
    ensures Contains(GoalHeadline(team, raw), team)
    ensures ScorerName(raw).Some? ==> Contains(GoalHeadline(team, raw), ScorerName(raw).value)
  {
    match ScorerName(raw)
    case None => TeamHeadline(team);
    case Some(name) => ScorerHeadline(team, name);
  }

  /** A match going live is announced by its clock and its `eq1 score eq2` line. */
  lemma RenderNowLive(r: Rec, web: Web)
    ensures Clock + r.minute <= Render(NowLive, r, web)
    ensures Contains(Render(NowLive, r, web), Line(r.eq1, r.score, r.eq2))
  {
    var line := Line(r.eq1, r.score, r.eq2);
    ContainsInfix(Clock + r.minute + "\n", line, "");
    assert Clock + r.minute + "\n" + line + "" == Render(NowLive, r, web);
  }

  /**
    The half-time message opens with its headline and the match line. It is
    stripped, so the line comes out whole when the away name ends in a
    non-space character, as a stripped cell does.
  */
  lemma RenderHalfTime(r: Rec, web: Web)
    requires r.eq2 != [] && !IsSpace(r.eq2[|r.eq2| - 1])
    ensures "\U{23F8}\U{FE0F} Mi-temps\n" + Line(r.eq1, r.score, r.eq2) <= Render(HalfTime, r, web)
  {
    var head := "\U{23F8}\U{FE0F} Mi-temps\n" + Line(r.eq1, r.score, r.eq2);
    var tail := "\n\n" + MatchStats(web, r.url);
    assert head[|head| - 1] == r.eq2[|r.eq2| - 1];
    StripKeepsHead(head, tail);
    assert head + tail == "\U{23F8}\U{FE0F} Mi-temps\n" + Line(r.eq1, r.score, r.eq2) + "\n\n" + MatchStats(web, r.url);
  }

  /** A goal message opens with the rocket, names the scoring team and the scorer when one is shown, and ends with the match line. */
  lemma RenderGoal(side: Side, r: Rec, web: Web)
    ensures GoalPrefix <= Render(Goal(side), r, web)
    ensures Contains(Render(Goal(side), r, web), Team(r, side))
    ensures ScorerName(GoalDetail(web, r.url).0).Some? ==>
      Contains(Render(Goal(side), r, web), ScorerName(GoalDetail(web, r.url).0).value)
    ensures Contains(Render(Goal(side), r, web), Line(r.eq1, r.score, r.eq2))
  {
    var line := Line(r.eq1, r.score, r.eq2);
    var (scorer, goalMinute) := GoalDetail(web, r.url);
    var shown := if Truthy(goalMinute) then goalMinute.value else r.minute;
    var headline := GoalHeadline(Team(r, side), scorer);
    assert Render(Goal(side), r, web) == GoalText(headline, shown, line);
    GoalHeadlineNames(Team(r, side), scorer);
    GoalTextNames(headline, shown, line, Team(r, side), ScorerName(scorer));
  }

  /** What a goal headline holds, the message built on it holds too, and the match line ends it. */
  lemma GoalTextNames(headline: string, shown: string, line: string, team: string, name: Option<string>)
    requires GoalPrefix <= headline && Contains(headline, team)
    requires name.Some? ==> Contains(headline, name.value)
    ensures GoalPrefix <= GoalText(headline, shown, line)
    ensures Contains(GoalText(headline, shown, line), team)
    ensures name.Some? ==> Contains(GoalText(headline, shown, line), name.value)
    ensures Contains(GoalText(headline, shown, line), line)
  {
    var mid := "\n" + Clock + shown + "\n";
    var msg := headline + mid + line;
    assert GoalText(headline, shown, line) == msg;
    assert msg == headline + (mid + line);
    assert msg[..|headline|] == headline;
    ContainsInfix(headline + mid, line, "");
    assert headline + mid + line + "" == msg;
    ContainsExtend(headline, team, mid + line);
    if name.Some? {
      ContainsExtend(headline, name.value, mid + line);
    }
  }

  /** A disallowed-goal message names the team that lost the goal and the match line with the restored score. */
  lemma RenderDisallowed(side: Side, r: Rec, web: Web)
    ensures Contains(Render(Disallowed(side), r, web), Team(r, side))
    ensures Contains(Render(Disallowed(side), r, web), Line(r.eq1, r.score, r.eq2))
  {
    var line := Line(r.eq1, r.score, r.eq2);
    assert Render(Disallowed(side), r, web) == DisallowedText(Team(r, side), line);
    DisallowedTextNames(Team(r, side), line);
  }

  /** A disallowed-goal message holds the team and ends with the match line. */
  lemma DisallowedTextNames(team: string, line: string)
    ensures Contains(DisallowedText(team, line), team)
    ensures Contains(DisallowedText(team, line), line)
  {
    InfixAndTail(DisallowedFront, team, DisallowedMiddle, line);
  }

  /** Both of the varying parts of `front + x + middle + y` occur in it. */
  lemma InfixAndTail(front: string, x: string, middle: string, y: string)
    ensures Contains(front + x + middle + y, x)
    ensures Contains(front + x + middle + y, y)
  {
    var msg := front + x + middle + y;
    ContainsInfix(front + x + middle, y, "");
    assert front + x + middle + y + "" == msg;
    ContainsInfix(front, x, middle + y);
    assert front + x + (middle + y) == msg;
  }

  /** The message fresh record `r` announces against `stored`, if any. */
  function LiveAnnouncement(stored: Option<Rec>, r: Rec, web: Web): Option<string> {
    match Derive(stored, r)
    case None => None
    case Some(e) => Some(Render(e, r, web))
  }

  function OptSeq<T>(o: Option<T>): seq<T> {
    if o.Some? then [o.value] else []
  }

  /** The messages of one live cycle, in the order of the fresh snapshot. */
  function Announcements(stored: Snapshot, current: Snapshot, web: Web): seq<string> {
    if current == [] then []
    else
      var last := current[|current| - 1];
      Announcements(stored, current[..|current| - 1], web) + OptSeq(LiveAnnouncement(Lookup(stored, last.0), last.1, web))
  }

  /** One more fresh record adds its own announcement, if any, at the end. */
  lemma AnnouncementsStep(stored: Snapshot, current: Snapshot, i: nat, web: Web)
    requires i < |current|
    ensures Announcements(stored, current[..i + 1], web) ==
      Announcements(stored, current[..i], web) + OptSeq(LiveAnnouncement(Lookup(stored, current[i].0), current[i].1, web))
  {
    assert current[..i + 1][..i] == current[..i];
    assert current[..i + 1][i] == current[i];
  }

  /** At most one announcement per fresh record. */
  lemma {:induction false} AtMostOnePerRecord(stored: Snapshot, current: Snapshot, web: Web)
    ensures |Announcements(stored, current, web)| <= |current|
  {
    if current != [] {
      AtMostOnePerRecord(stored, current[..|current| - 1], web);
    }
  }

  /** Records equal to what is stored under their keys announce nothing. */
  lemma {:induction false} MatchingStoreSilent(stored: Snapshot, current: Snapshot, web: Web)
    requires forall i :: 0 <= i < |current| ==> Lookup(stored, current[i].0) == Some(current[i].1)
    ensures Announcements(stored, current, web) == []
  {
    if current != [] {
      var last := current[|current| - 1];
      UnchangedSilent(last.1);
      MatchingStoreSilent(stored, current[..|current| - 1], web);
    }
  }

  /** Running a cycle again on the snapshot it stored announces nothing. */
  lemma RepeatedSnapshotSilent(current: Snapshot, web: Web)
    requires DistinctKeys(current)
    ensures Announcements(current, current, web) == []
  {
    forall i | 0 <= i < |current| ensures Lookup(current, current[i].0) == Some(current[i].1) {
      LookupEntry(current, i);
    }
    MatchingStoreSilent(current, current, web);
  }

  /** Two cycles that fetch the same live page: the second announces nothing. */
  lemma SameFetchTwiceSilent(page: Option<seq<Option<LiveRow>>>, web: Web)
    ensures Announcements(LiveSnapshot(page), LiveSnapshot(page), web) == []
  {
    RepeatedSnapshotSilent(LiveSnapshot(page), web);
  }

  /** A record that shows a score and a running clock. */
  predicate OnTheClock(r: Rec) {
    r.score != " - " && '\'' in r.minute
  }

  /** The now-live message of every record on the clock, in snapshot order. */
  function NowLiveMessages(current: Snapshot): seq<string> {
    if current == [] then []
    else
      var last := current[|current| - 1];
      NowLiveMessages(current[..|current| - 1]) + (if OnTheClock(last.1) then [Clock + last.1.minute + "\n" + Line(last.1.eq1, last.1.score, last.1.eq2)] else [])
  }

  /**
    Against an empty store every match on the clock is announced as now-live.
    An empty store is what a failed fetch leaves behind, since the empty
    result of the failed fetch is saved.
  */
  lemma {:induction false} EmptyStoreAnnouncesAllLive(current: Snapshot, web: Web)
    ensures Announcements([], current, web) == NowLiveMessages(current)
  {
    if current != [] {
      EmptyStoreAnnouncesAllLive(current[..|current| - 1], web);
    }
  }
}
