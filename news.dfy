/**
  The selection and publication order of `publish_news_for_business_users`
  (app/tasks.py:596-625): scraped items whose URL was never published are
  announced oldest first, each URL recorded right after its announcement;
  the URL column is unique, so recording a URL twice stops the job.
*/
module News {
  import opened Text
  /** A scraped article: the site lists the newest first. */
  datatype NewsItem = NewsItem(title: string, url: string, content: string)

  /** The outcome of publishing a queue: the recorded URLs, the items announced, and whether it completed. */
  datatype NewsPass = NewsPass(urls: set<string>, announced: seq<NewsItem>, completed: bool)

  /** `reversed(latest)` filtered on the published URLs: what is still to be announced, oldest first. */
  function NewsQueue(published: set<string>, latest: seq<NewsItem>): seq<NewsItem> {
    if latest == [] then []
    else
      var last := latest[|latest| - 1];
      (if last.url !in published then [last] else []) + NewsQueue(published, latest[..|latest| - 1])
  }

  /** The message for an article. */
  function NewsMessage(n: NewsItem): string {
    "\U{1F6A8} **ACTU FOOT** \U{1F6A8}\n\n**" + n.title + "**\n\n" + n.content
  }

  /** The message opens with the bulletin banner and the bold title, and carries the article's text. */
  lemma NewsMessageNames(n: NewsItem)
    ensures "\U{1F6A8} **ACTU FOOT** \U{1F6A8}\n\n**" + n.title + "**" <= NewsMessage(n)
    ensures Contains(NewsMessage(n), n.title)
    ensures Contains(NewsMessage(n), n.content)
  {
    var banner := "\U{1F6A8} **ACTU FOOT** \U{1F6A8}\n\n**";
    assert NewsMessage(n) == banner + n.title + ("**\n\n" + n.content);
    ContainsInfix(banner, n.title, "**\n\n" + n.content);
    ContainsInfix(banner + n.title + "**\n\n", n.content, "");
    assert banner + n.title + "**\n\n" + n.content + "" == NewsMessage(n);
  }

  /** The messages for a sequence of articles, in order. */
  function NewsMessages(items: seq<NewsItem>): seq<string> {
    if items == [] then [] else NewsMessages(items[..|items| - 1]) + [NewsMessage(items[|items| - 1])]
  }

  /** One message per article, each that article's, in the same order. */
  lemma {:induction false} NewsMessagesEach(items: seq<NewsItem>)
    ensures |NewsMessages(items)| == |items|
    ensures forall k :: 0 <= k < |items| ==> NewsMessages(items)[k] == NewsMessage(items[k])
  {
    if items != [] {
      NewsMessagesEach(items[..|items| - 1]);
    }
  }

  /** Announce, then record; a URL that is already recorded fails the commit and stops the job. */
  function NewsStep(p: NewsPass, n: NewsItem): NewsPass {
    if !p.completed then p
    else if n.url in p.urls then NewsPass(p.urls, p.announced + [n], false)
    else NewsPass(p.urls + {n.url}, p.announced + [n], true)
  }

  /** Publishing the queue in order from the recorded set `urls`. */
  function NewsRun(urls: set<string>, queue: seq<NewsItem>): NewsPass {
    if queue == [] then NewsPass(urls, [], true)
    else NewsStep(NewsRun(urls, queue[..|queue| - 1]), queue[|queue| - 1])
  }

  /** Once the job has stopped, the rest of the queue is not published. */
  lemma {:induction false} NewsStopped(urls: set<string>, queue: seq<NewsItem>, more: seq<NewsItem>)
    requires !NewsRun(urls, queue).completed
    ensures NewsRun(urls, queue + more) == NewsRun(urls, queue)
    decreases |more|
  {
    if more == [] {
      assert queue + more == queue;
    } else {
      var k := |more| - 1;
      assert (queue + more)[..|queue + more| - 1] == queue + more[..k];
      NewsStopped(urls, queue, more[..k]);
    }
  }

  /** An item is queued exactly when it was scraped and its URL was never published. */
  lemma {:induction false} QueueMembership(published: set<string>, latest: seq<NewsItem>, n: NewsItem)
    ensures n in NewsQueue(published, latest) <==> n in latest && n.url !in published
  {
    if latest != [] {
      var k := |latest| - 1;
      QueueMembership(published, latest[..k], n);
      assert latest == latest[..k] + [latest[k]];
    }
  }

  /** The queue reverses the scrape order: items scraped later (older) come first. */
  lemma {:induction false} QueueReverses(published: set<string>, a: seq<NewsItem>, b: seq<NewsItem>)
    ensures NewsQueue(published, a + b) == NewsQueue(published, b) + NewsQueue(published, a)
    decreases |b|
  {
    if b == [] {
      assert a + b == a;
    } else {
      var k := |b| - 1;
      assert (a + b)[..|a + b| - 1] == a + b[..k];
      assert (a + b)[|a + b| - 1] == b[k];
      QueueReverses(published, a, b[..k]);
    }
  }

  /** Scanning the scrape from its end: one more (newer) item joins the back of the queue if unpublished. */
  lemma QueueStep(published: set<string>, latest: seq<NewsItem>, j: nat)
    requires j < |latest|
    ensures NewsQueue(published, latest[j..]) ==
      NewsQueue(published, latest[j + 1..]) + (if latest[j].url !in published then [latest[j]] else [])
  {
    QueueReverses(published, [latest[j]], latest[j + 1..]);
    assert [latest[j]] + latest[j + 1..] == latest[j..];
    assert [latest[j]][..0] == [];
  }

  /** The loop over `reversed(latest)` that keeps the items whose URL is not yet published. */
  method FreshNews(published: set<string>, latest: seq<NewsItem>) returns (queue: seq<NewsItem>)
    ensures queue == NewsQueue(published, latest)
  {
    queue := [];
    var j := |latest|;
    while j > 0
      invariant 0 <= j <= |latest|
      invariant queue == NewsQueue(published, latest[j..])
    {
      j := j - 1;
      QueueStep(published, latest, j);
      if latest[j].url !in published {
        queue := queue + [latest[j]];
      } else {
        assert queue + [] == queue;
      }
    }
    assert latest[0..] == latest;
  }

  lemma NewsRunStep(urls: set<string>, queue: seq<NewsItem>, i: nat)
    requires i < |queue|
    ensures NewsRun(urls, queue[..i + 1]) == NewsStep(NewsRun(urls, queue[..i]), queue[i])
  {
    assert queue[..i + 1][..i] == queue[..i];
    assert queue[..i + 1][i] == queue[i];
  }

  lemma NewsMessagesStep(log: seq<string>, items: seq<NewsItem>, n: NewsItem)
    ensures log + NewsMessages(items) + [NewsMessage(n)] == log + NewsMessages(items + [n])
  {
    assert (items + [n])[..|items|] == items;
  }

  /** The URLs of a sequence of items. */
  function Urls(items: seq<NewsItem>): set<string> {
    set i | 0 <= i < |items| :: items[i].url
  }

  lemma UrlsAppend(items: seq<NewsItem>, n: NewsItem)
    ensures Urls(items + [n]) == Urls(items) + {n.url}
  {
    var both := items + [n];
    forall u | u in Urls(items) ensures u in Urls(both) {
      var i :| 0 <= i < |items| && items[i].url == u;
      assert both[i] == items[i];
    }
    assert both[|items|] == n;
  }

  /** No URL appears twice. */
  predicate DistinctUrls(items: seq<NewsItem>) {
    forall i, j :: 0 <= i < j < |items| ==> items[i].url != items[j].url
  }

  /**
    A queue of distinct URLs none of which is recorded yet is published in
    full: every item announced, in queue order, and every URL recorded.
  */
  lemma {:induction false} DistinctQueueCompletes(urls: set<string>, queue: seq<NewsItem>)
    requires DistinctUrls(queue)
    requires forall i :: 0 <= i < |queue| ==> queue[i].url !in urls
    ensures NewsRun(urls, queue) == NewsPass(urls + Urls(queue), queue, true)
  {
    if queue != [] {
      var k := |queue| - 1;
      var front, last := queue[..k], queue[k];
      assert DistinctUrls(front) by {
        forall i, j | 0 <= i < j < |front| ensures front[i].url != front[j].url {
          assert front[i] == queue[i] && front[j] == queue[j];
        }
      }
      assert forall i :: 0 <= i < |front| ==> front[i].url !in urls && front[i].url != last.url by {
        forall i | 0 <= i < |front| ensures front[i].url !in urls && front[i].url != last.url {
          assert front[i] == queue[i];
        }
      }
      DistinctQueueCompletes(urls, front);
      assert last.url !in urls + Urls(front);
      UrlsAppend(front, last);
      assert front + [last] == queue;
    }
  }

  /**
    Whether or not the run completes, the recorded URLs are the old ones plus
    exactly those of the announced items, and the announced items are a
    prefix of the queue: nothing is recorded that was not announced first.
  */
  lemma {:induction false} RecordedAfterAnnounced(urls: set<string>, queue: seq<NewsItem>)
    ensures NewsRun(urls, queue).urls == urls + Urls(NewsRun(urls, queue).announced)
    ensures |NewsRun(urls, queue).announced| <= |queue|
    ensures NewsRun(urls, queue).announced == queue[..|NewsRun(urls, queue).announced|]
  {
    if queue != [] {
      var k := |queue| - 1;
      RecordedAfterAnnounced(urls, queue[..k]);
      var p := NewsRun(urls, queue[..k]);
      if p.completed {
        assert |p.announced| == k by { CompletedAnnouncesAll(urls, queue[..k]); }
        UrlsAppend(p.announced, queue[k]);
        assert p.announced + [queue[k]] == queue;
      }
    }
  }

  /** A run that completes has announced its whole queue. */
  lemma {:induction false} CompletedAnnouncesAll(urls: set<string>, queue: seq<NewsItem>)
    requires NewsRun(urls, queue).completed
    ensures NewsRun(urls, queue).announced == queue
  {
    if queue != [] {
      var k := |queue| - 1;
      CompletedAnnouncesAll(urls, queue[..k]);
      assert queue[..k] + [queue[k]] == queue;
    }
  }

  /** Items of the queue are never ones already published. */
  lemma NeverRepublished(published: set<string>, latest: seq<NewsItem>, n: NewsItem)
    requires n in NewsRun(published, NewsQueue(published, latest)).announced
    ensures n.url !in published && n in latest
  {
    AnnouncedFromQueue(published, NewsQueue(published, latest), n);
    QueueMembership(published, latest, n);
  }

  /** What a run announces comes from its queue. */
  lemma {:induction false} AnnouncedFromQueue(urls: set<string>, queue: seq<NewsItem>, n: NewsItem)
    requires n in NewsRun(urls, queue).announced
    ensures n in queue
  {
    if queue != [] {
      var k := |queue| - 1;
      var p := NewsRun(urls, queue[..k]);
      if n in p.announced {
        AnnouncedFromQueue(urls, queue[..k], n);
      }
    }
  }

  /** A scrape whose every URL is published queues nothing. */
  lemma {:induction false} AllPublishedQueuesNothing(published: set<string>, latest: seq<NewsItem>)
    requires forall i :: 0 <= i < |latest| ==> latest[i].url in published
    ensures NewsQueue(published, latest) == []
  {
    if latest != [] {
      AllPublishedQueuesNothing(published, latest[..|latest| - 1]);
    }
  }

  /** After a complete run, every scraped URL is recorded, so the same scrape queues nothing. */
  lemma SecondRunSilent(published: set<string>, latest: seq<NewsItem>)
    ensures NewsQueue(published + Urls(NewsQueue(published, latest)), latest) == []
  {
    var q := NewsQueue(published, latest);
    forall i | 0 <= i < |latest| ensures latest[i].url in published + Urls(q) {
      if latest[i].url !in published {
        QueueMembership(published, latest, latest[i]);
        var j :| 0 <= j < |q| && q[j] == latest[i];
      }
    }
    AllPublishedQueuesNothing(published + Urls(q), latest);
  }

  /**
    An article listed twice in one scrape is announced twice; recording its
    URL the second time fails, and the job stops there.
  */
  lemma DuplicateAnnouncedTwice(published: set<string>, n: NewsItem)
    requires n.url !in published
    ensures NewsQueue(published, [n, n]) == [n, n]
    ensures NewsRun(published, [n, n]) == NewsPass(published + {n.url}, [n, n], false)
  {
    assert [n, n][..1] == [n];
    assert [n][..0] == [];
    assert NewsQueue(published, [n]) == [n];
    assert NewsRun(published, [n]) == NewsPass(published + {n.url}, [n], true);
  }
}
