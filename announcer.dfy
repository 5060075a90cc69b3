/**
  The delivery side of `broadcast_to_facebook` (app/tasks.py:166-196): one
  posting attempt per page, in page order, each of which may fail without
  stopping the others.
*/
module Announcer {
  /** A Facebook page that receives the broadcasts. */
  datatype Page = Page(pageId: string, name: string, token: string)

  /** One attempt to post `message` on page `pageId`, and whether it succeeded. */
  datatype Delivery = Delivery(pageId: string, message: string, ok: bool)

  /** The attempts of one broadcast, in page order; `deliver` stands for decrypting the token and posting. */
  function Attempts(pages: seq<Page>, msg: string, deliver: (Page, string) -> bool): seq<Delivery> {
    if pages == [] then []
    else
      var p := pages[|pages| - 1];
      Attempts(pages[..|pages| - 1], msg, deliver) + [Delivery(p.pageId, msg, deliver(p, msg))]
  }

  /** The attempts of several broadcasts in a row. */
  function Fanout(pages: seq<Page>, msgs: seq<string>, deliver: (Page, string) -> bool): seq<Delivery> {
    if msgs == [] then []
    else Fanout(pages, msgs[..|msgs| - 1], deliver) + Attempts(pages, msgs[|msgs| - 1], deliver)
  }

  /**
    Every page gets exactly one attempt per broadcast, in page order,
    whatever happened on the pages before it.
  */
  lemma {:induction false} AttemptsEveryPage(pages: seq<Page>, msg: string, deliver: (Page, string) -> bool)
    ensures |Attempts(pages, msg, deliver)| == |pages|
    ensures forall j :: 0 <= j < |pages| ==>
      Attempts(pages, msg, deliver)[j] == Delivery(pages[j].pageId, msg, deliver(pages[j], msg))
  {
    if pages != [] {
      AttemptsEveryPage(pages[..|pages| - 1], msg, deliver);
    }
  }

  /** With no page, a broadcast posts nothing. */
  lemma NoPagesNoAttempts(msgs: seq<string>, deliver: (Page, string) -> bool)
    ensures Fanout([], msgs, deliver) == []
  {
    if msgs != [] {
      NoPagesNoAttempts(msgs[..|msgs| - 1], deliver);
    }
  }

  /** Broadcasting one more message appends its attempts to the log. */
  lemma FanoutStep(log: seq<Delivery>, pages: seq<Page>, msgs: seq<string>, m: string, deliver: (Page, string) -> bool)
    ensures log + Fanout(pages, msgs, deliver) + Attempts(pages, m, deliver) == log + Fanout(pages, msgs + [m], deliver)
  {
    assert (msgs + [m])[..|msgs|] == msgs;
  }

  /** Broadcasting `msgs` makes one attempt per message and page. */
  lemma {:induction false} FanoutLength(pages: seq<Page>, msgs: seq<string>, deliver: (Page, string) -> bool)
    ensures |Fanout(pages, msgs, deliver)| == |msgs| * |pages|
  {
    if msgs != [] {
      FanoutLength(pages, msgs[..|msgs| - 1], deliver);
      AttemptsEveryPage(pages, msgs[|msgs| - 1], deliver);
      MulSucc(|msgs| - 1, |pages|);
    }
  }

  /** Every message reaches every page: its attempt is in the log. */
  lemma {:induction false} FanoutReaches(pages: seq<Page>, msgs: seq<string>, deliver: (Page, string) -> bool, i: nat, j: nat)
    requires i < |msgs| && j < |pages|
    ensures Delivery(pages[j].pageId, msgs[i], deliver(pages[j], msgs[i])) in Fanout(pages, msgs, deliver)
  {
    var n := |msgs| - 1;
    if i < n {
      FanoutReaches(pages, msgs[..n], deliver, i, j);
      assert msgs[..n][i] == msgs[i];
    } else {
      AttemptsEveryPage(pages, msgs[n], deliver);
      assert Attempts(pages, msgs[n], deliver)[j] == Delivery(pages[j].pageId, msgs[i], deliver(pages[j], msgs[i]));
    }
  }

  /** Every attempt in the log is that of some message on some page. */
  lemma {:induction false} FanoutOnly(pages: seq<Page>, msgs: seq<string>, deliver: (Page, string) -> bool, d: Delivery)
    requires d in Fanout(pages, msgs, deliver)
    ensures exists i, j :: 0 <= i < |msgs| && 0 <= j < |pages| && d == Delivery(pages[j].pageId, msgs[i], deliver(pages[j], msgs[i]))
  {
    var n := |msgs| - 1;
    var tail := Attempts(pages, msgs[n], deliver);
    if d in tail {
      AttemptsEveryPage(pages, msgs[n], deliver);
      var j :| 0 <= j < |tail| && tail[j] == d;
      assert d == Delivery(pages[j].pageId, msgs[n], deliver(pages[j], msgs[n]));
    } else {
      FanoutOnly(pages, msgs[..n], deliver, d);
      var i, j :| 0 <= i < n && 0 <= j < |pages| && d == Delivery(pages[j].pageId, msgs[..n][i], deliver(pages[j], msgs[..n][i]));
      assert msgs[..n][i] == msgs[i];
    }
  }

  /** The log of every message reaching every page, and nothing else. */
  lemma FanoutCovers(pages: seq<Page>, msgs: seq<string>, deliver: (Page, string) -> bool, d: Delivery)
    ensures d in Fanout(pages, msgs, deliver) <==>
      exists i, j :: 0 <= i < |msgs| && 0 <= j < |pages| && d == Delivery(pages[j].pageId, msgs[i], deliver(pages[j], msgs[i]))
  {
    if d in Fanout(pages, msgs, deliver) {
      FanoutOnly(pages, msgs, deliver, d);
    }
    if exists i, j :: 0 <= i < |msgs| && 0 <= j < |pages| && d == Delivery(pages[j].pageId, msgs[i], deliver(pages[j], msgs[i])) {
      var i, j :| 0 <= i < |msgs| && 0 <= j < |pages| && d == Delivery(pages[j].pageId, msgs[i], deliver(pages[j], msgs[i]));
      FanoutReaches(pages, msgs, deliver, i, j);
    }
  }

  /** Broadcasting `a` then `b` logs the attempts of `a` then those of `b`. */
  lemma {:induction false} FanoutAppend(pages: seq<Page>, a: seq<string>, b: seq<string>, deliver: (Page, string) -> bool)
    ensures Fanout(pages, a + b, deliver) == Fanout(pages, a, deliver) + Fanout(pages, b, deliver)
    decreases |b|
  {
    if b == [] {
      assert a + b == a;
    } else {
      var n := |b| - 1;
      var front, m := b[..n], b[n];
      assert front + [m] == b;
      assert (a + front) + [m] == a + b;
      FanoutAppend(pages, a, front, deliver);
      FanoutStep([], pages, a + front, m, deliver);
      FanoutStep(Fanout(pages, a, deliver), pages, front, m, deliver);
    }
  }

  lemma MulSucc(a: nat, k: nat)
    ensures a * k + k == (a + 1) * k
  {
  }

}
