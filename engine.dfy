/**
  The scheduled jobs of app/tasks.py over the bot's durable state: the stored
  live scores, the published finished-match ids, the published news URLs,
  the user table, the broadcast history and the log of posting attempts.
*/
module Engine {
  import opened Wrappers
  import opened Text
  import opened Records
  import opened LiveDiff
  import opened Announcer
  import opened Finished
  import opened News
  import opened Summary
  import opened Subscriptions
  import opened Plans

  class Bot {
    /** The live-score store, in the order of the last fetch. */
    var scores: Snapshot
    /** The match ids whose end was announced. */
    var finishedIds: set<string>
    /** The URLs of the articles published. */
    var newsUrls: set<string>
    var users: seq<User>
    /** Every message broadcast, in order. */
    var history: seq<string>
    /** Every posting attempt, in order. */
    var deliveries: seq<Delivery>

    /** The store is a dictionary: no key twice, so fetching it again unchanged announces nothing. */
    predicate Valid()
      reads this
    {
      DistinctKeys(scores)
    }

    /** While the store is a dictionary, fetching it again unchanged announces nothing. */
    lemma StoreRepeatSilent(web: Web)
      requires Valid()
      ensures Announcements(scores, scores, web) == []
    {
      RepeatedSnapshotSilent(scores, web);
    }

    constructor(users0: seq<User>)
      ensures Valid()
      ensures scores == [] && finishedIds == {} && newsUrls == {}
      ensures users == users0 && history == [] && deliveries == []
    {
      scores, finishedIds, newsUrls := [], {}, {};
      users, history, deliveries := users0, [], [];
    }

    /**
      `broadcast_to_facebook`: the message enters the history first, even with
      no page; then every page gets one attempt, a failure not stopping the rest.
    */
    method Broadcast(pages: seq<Page>, msg: string, deliver: (Page, string) -> bool)
      modifies this`history, this`deliveries
      ensures history == old(history) + [msg]
      ensures deliveries == old(deliveries) + Attempts(pages, msg, deliver)
    {
      history := history + [msg];
      for j := 0 to |pages|
        invariant history == old(history) + [msg]
        invariant deliveries == old(deliveries) + Attempts(pages[..j], msg, deliver)
      {
        assert pages[..j + 1][..j] == pages[..j];
        deliveries := deliveries + [Delivery(pages[j].pageId, msg, deliver(pages[j], msg))];
      }
      assert pages[..|pages|] == pages;
    }

    /** Broadcasts the announcement of one row, if it has one. */
    method Announce(event: Option<string>, pages: seq<Page>, deliver: (Page, string) -> bool,
                    ghost said: seq<string>, ghost h0: seq<string>, ghost log: seq<Delivery>)
      returns (ghost newSaid: seq<string>)
      requires history == h0 + said && deliveries == log + Fanout(pages, said, deliver)
      modifies this`history, this`deliveries
      ensures newSaid == said + OptSeq(event)
      ensures history == h0 + newSaid && deliveries == log + Fanout(pages, newSaid, deliver)
    {
      newSaid := said;
      if event.Some? {
        Broadcast(pages, event.value, deliver);
        FanoutStep(log, pages, said, event.value, deliver);
        newSaid := said + [event.value];
      } else {
        assert said + [] == said;
      }
    }

    /**
      The live phase: each fresh record announces its event against the store,
      then the fresh snapshot replaces the store wholesale (an empty one when
      the fetch failed).
    */
    method LiveCycle(livePage: Option<seq<Option<LiveRow>>>, pages: seq<Page>, web: Web, deliver: (Page, string) -> bool)
      modifies this`scores, this`history, this`deliveries
      ensures Valid()
      ensures scores == LiveSnapshot(livePage)
      ensures history == old(history) + Announcements(old(scores), scores, web)
      ensures deliveries == old(deliveries) + Fanout(pages, Announcements(old(scores), scores, web), deliver)
    {
      var current := ScrapeLiveScores(livePage);
      var stored := scores;
      ghost var said: seq<string> := [];
      for i := 0 to |current|
        invariant said == Announcements(stored, current[..i], web)
        invariant history == old(history) + said
        invariant deliveries == old(deliveries) + Fanout(pages, said, deliver)
      {
        AnnouncementsStep(stored, current, i, web);
        var event := LiveAnnouncement(Lookup(stored, current[i].0), current[i].1, web);
        said := Announce(event, pages, deliver, said, old(history), old(deliveries));
      }
      assert current[..|current|] == current;
      scores := current;
    }

    /**
      One row of the finished phase: a row without a minute cell stops the
      phase; an ended, unpublished, readable row is announced and its id added.
    */
    method FinishedRowStep(row: FinishedRow, ids: set<string>, pages: seq<Page>, web: Web, deliver: (Page, string) -> bool,
                           ghost said: seq<string>, ghost h0: seq<string>, ghost log: seq<Delivery>)
      returns (newIds: set<string>, stop: bool, ghost newSaid: seq<string>)
      requires history == h0 + said && deliveries == log + Fanout(pages, said, deliver)
      modifies this`history, this`deliveries
      ensures FinishedStep(FinishedPass(ids, said, false), row, web) == FinishedPass(newIds, newSaid, stop)
      ensures history == h0 + newSaid && deliveries == log + Fanout(pages, newSaid, deliver)
    {
      newIds, stop, newSaid := ids, false, said;
      if row.minuteCell.None? {
        stop := true;
      } else if Ended(row) && row.matchId !in ids && row.cells.Some? {
        var msg := FinishedMessage(row.cells.value, web);
        newSaid := Announce(Some(msg), pages, deliver, said, h0, log);
        newIds := ids + {row.matchId};
      }
    }

    /**
      The finished phase: a page that does not load stops it with nothing done;
      otherwise the rows are handled in order and the published set is saved,
      unless a row without a minute cell stopped the phase on the way.
    */
    method FinishedCycle(finishedPage: Option<seq<FinishedRow>>, pages: seq<Page>, web: Web, deliver: (Page, string) -> bool)
      modifies this`finishedIds, this`history, this`deliveries
      ensures var pass := FinishedPhase(old(finishedIds), finishedPage, web);
        && history == old(history) + pass.messages
        && deliveries == old(deliveries) + Fanout(pages, pass.messages, deliver)
        && finishedIds == (if pass.aborted then old(finishedIds) else pass.ids)
    {
      if finishedPage.None? {
        return;
      }
      var rows := finishedPage.value;
      var ids := finishedIds;
      ghost var start, h0, log := finishedIds, history, deliveries;
      var aborted := false;
      ghost var said: seq<string> := [];
      var i := 0;
      while i < |rows| && !aborted
        invariant 0 <= i <= |rows|
        invariant finishedIds == start && h0 == old(history) && log == old(deliveries)
        invariant FinishedRun(start, rows[..i], web) == FinishedPass(ids, said, aborted)
        invariant history == h0 + said && deliveries == log + Fanout(pages, said, deliver)
      {
        FinishedRunStep(start, rows, i, web);
        ids, aborted, said := FinishedRowStep(rows[i], ids, pages, web, deliver, said, h0, log);
        i := i + 1;
      }
      if aborted {
        MissingCellStops(start, rows[..i], rows[i..], web);
        assert rows[..i] + rows[i..] == rows;
      } else {
        assert rows[..i] == rows;
        finishedIds := ids;
      }
    }

    /**
      `run_centralized_checks`: nothing without a browser; otherwise the live
      phase, whose store is saved, then the finished phase.
    */
    method RunCentralizedChecks(browserOk: bool, livePage: Option<seq<Option<LiveRow>>>, finishedPage: Option<seq<FinishedRow>>,
                                pages: seq<Page>, web: Web, deliver: (Page, string) -> bool)
      modifies this`scores, this`finishedIds, this`history, this`deliveries
      ensures !browserOk ==>
        scores == old(scores) && finishedIds == old(finishedIds) && history == old(history) && deliveries == old(deliveries)
      ensures browserOk ==>
        var live := Announcements(old(scores), scores, web);
        var pass := FinishedPhase(old(finishedIds), finishedPage, web);
        && Valid() && scores == LiveSnapshot(livePage)
        && history == old(history) + live + pass.messages
        && deliveries == old(deliveries) + Fanout(pages, live, deliver) + Fanout(pages, pass.messages, deliver)
        && finishedIds == (if pass.aborted then old(finishedIds) else pass.ids)
    {
      if !browserOk {
        return;
      }
      LiveCycle(livePage, pages, web, deliver);
      FinishedCycle(finishedPage, pages, web, deliver);
    }

    /**
      `publish_news_for_business_users`: with a page, a browser and a
      non-empty scrape, the unpublished items are announced oldest first,
      each URL recorded after its announcement, until a duplicate stops the job.
    */
    method PublishNews(pages: seq<Page>, browserOk: bool, latest: seq<NewsItem>, deliver: (Page, string) -> bool)
      modifies this`newsUrls, this`history, this`deliveries
      ensures pages == [] || !browserOk || latest == [] ==>
        newsUrls == old(newsUrls) && history == old(history) && deliveries == old(deliveries)
      ensures pages != [] && browserOk && latest != [] ==>
        var pass := NewsRun(old(newsUrls), NewsQueue(old(newsUrls), latest));
        && newsUrls == pass.urls
        && history == old(history) + NewsMessages(pass.announced)
        && deliveries == old(deliveries) + Fanout(pages, NewsMessages(pass.announced), deliver)
    {
      if pages == [] || !browserOk || latest == [] {
        return;
      }
      var published := newsUrls;
      var queue := FreshNews(published, latest);
      assert queue[..0] == [];
      var i := 0;
      var completed := true;
      ghost var said: seq<NewsItem> := [];
      while i < |queue| && completed
        invariant 0 <= i <= |queue|
        invariant NewsRun(published, queue[..i]) == NewsPass(newsUrls, said, completed)
        invariant history == old(history) + NewsMessages(said)
        invariant deliveries == old(deliveries) + Fanout(pages, NewsMessages(said), deliver)
      {
        NewsRunStep(published, queue, i);
        var stop := PublishItem(queue[i], pages, deliver, said, old(history), old(deliveries));
        completed := !stop;
        said := said + [queue[i]];
        i := i + 1;
      }
      if !completed {
        NewsStopped(published, queue[..i], queue[i..]);
        assert queue[..i] + queue[i..] == queue;
      } else {
        assert queue[..i] == queue;
      }
    }

    /**
      One article of the news job: it is announced on every page, then its
      URL is recorded, unless the URL is already recorded, which stops the job.
    */
    method PublishItem(n: NewsItem, pages: seq<Page>, deliver: (Page, string) -> bool,
                       ghost said: seq<NewsItem>, ghost h0: seq<string>, ghost log: seq<Delivery>)
      returns (stop: bool)
      requires history == h0 + NewsMessages(said) && deliveries == log + Fanout(pages, NewsMessages(said), deliver)
      modifies this`newsUrls, this`history, this`deliveries
      ensures NewsStep(NewsPass(old(newsUrls), said, true), n) == NewsPass(newsUrls, said + [n], !stop)
      ensures history == h0 + NewsMessages(said + [n])
      ensures deliveries == log + Fanout(pages, NewsMessages(said + [n]), deliver)
    {
      var msg := NewsMessage(n);
      Broadcast(pages, msg, deliver);
      NewsMessagesStep(h0, said, n);
      assert NewsMessages(said + [n]) == NewsMessages(said) + [msg] by {
        assert (said + [n])[..|said|] == said;
      }
      FanoutStep(log, pages, NewsMessages(said), msg, deliver);
      stop := n.url in newsUrls;
      if !stop {
        newsUrls := newsUrls + {n.url};
      }
    }

    /**
      `post_live_scores_summary`: with a page and a non-empty store, the digest
      of the matches in progress is broadcast if there is one.
    */
    method PostSummary(pages: seq<Page>, deliver: (Page, string) -> bool)
      modifies this`history, this`deliveries
      ensures history == old(history) + OptSeq(SummaryAnnouncement(pages != [], scores))
      ensures deliveries == old(deliveries) + Fanout(pages, OptSeq(SummaryAnnouncement(pages != [], scores)), deliver)
    {
      if pages == [] || scores == [] {
        return;
      }
      var message, count := BuildSummary(scores);
      if count > 0 {
        Broadcast(pages, Strip(message), deliver);
        assert Fanout(pages, [Strip(message)], deliver) == Attempts(pages, Strip(message), deliver) by {
          assert [Strip(message)][..0] == [];
        }
      }
    }

    /** `check_expired_subscriptions`. */
    method ExpireSubscriptions(now: int)
      modifies this`users
      ensures users == ExpireAll(old(users), now)
    {
      var i := 0;
      while i < |users|
        invariant 0 <= i <= |users| && |users| == |old(users)|
        invariant forall k :: 0 <= k < i ==> users[k] == ExpireAll(old(users), now)[k]
        invariant forall k :: i <= k < |users| ==> users[k] == old(users)[k]
      {
        if IsExpired(users[i], now) {
          users := users[i := Expire(users[i])];
        }
        i := i + 1;
      }
    }

    /** `run_daily_renewals`; `charge` stands for the payment request. */
    method RunDailyRenewals(today: int, charge: (User, PlanInfo) -> bool)
      modifies this`users
      ensures users == RenewAll(old(users), today, charge)
    {
      var i := 0;
      while i < |users|
        invariant 0 <= i <= |users| && |users| == |old(users)|
        invariant forall k :: 0 <= k < i ==> users[k] == RenewAll(old(users), today, charge)[k]
        invariant forall k :: i <= k < |users| ==> users[k] == old(users)[k]
      {
        var u := users[i];
        if DueForRenewal(u, today) {
          var planId := RenewalPlanId(u);
          var info := LookupPlan(planId);
          if info.None? || !Truthy(u.token) {
            users := users[i := u.(status := "inactive")];
          } else if charge(u, info.value) {
            users := users[i := u.(nextBilling := Some(today + info.value.durationDays))];
          } else {
            users := users[i := u.(status := "inactive", plan := None, nextBilling := None)];
          }
        }
        i := i + 1;
      }
    }
  }
}
