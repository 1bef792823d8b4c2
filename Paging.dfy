/**
 * Bounded cursor pagination, as the three listing loops of the sync handlers run it: at most
 * `MaxPages` requests, each sending the previous page's `nextPageToken`; the items of a page
 * are converted (items the conversion drops are skipped), appended until the cap is reached,
 * and the loop ends at the cap, at a missing token, or at a failed request.
 */
module Paging {
  import opened Base

  /** The page-count guard of every listing loop (`while (guard < 5)`). */
  const MaxPages := 5

  /**
   * The answer to one list request: a page of items with its `nextPageToken` ("" when absent),
   * a non-ok HTTP status, or a failure of `fetch` or of reading the body, which throws.
   */
  datatype Reply<T> = Page(items: seq<T>, nextPageToken: string) | HttpError(status: int) | NetworkError

  /**
   * The k-th reply of a remote endpoint, which answers the list requests in order. An endpoint
   * that has no k-th answer fails as the network does.
   */
  function ReplyAt<T>(replies: seq<Reply<T>>, k: nat): (r: Reply<T>)
    ensures k >= |replies| ==> r.NetworkError?
  {
    if k < |replies| then replies[k] else NetworkError
  }

  function PageItems<T>(r: Reply<T>): seq<T>
  {
    if r.Page? then r.items else []
  }

  function NextToken<T>(r: Reply<T>): string
  {
    if r.Page? then r.nextPageToken else []
  }

  /** The converted items of `items`, in order, without the ones the conversion drops. */
  function Kept<T, U>(items: seq<T>, convert: T -> Option<U>): (r: seq<U>)
    ensures |r| <= |items|
  {
    if items == [] then []
    else
      var c := convert(items[|items| - 1]);
      Kept(items[..|items| - 1], convert) + (if c.Some? then [c.value] else [])
  }

  lemma {:induction false} KeptAppend<T, U>(xs: seq<T>, ys: seq<T>, convert: T -> Option<U>)
    ensures Kept(xs + ys, convert) == Kept(xs, convert) + Kept(ys, convert)
    decreases |ys|
  {
    if ys != [] {
      var init := ys[..|ys| - 1];
      assert (xs + ys)[..|xs + ys| - 1] == xs + init;
      KeptAppend(xs, init, convert);
    } else {
      assert xs + ys == xs;
    }
  }

  /** The converted items of the first `n` replies, in request order. */
  function Gathered<T, U>(replies: seq<Reply<T>>, convert: T -> Option<U>, n: nat): seq<U>
  {
    if n == 0 then [] else Gathered(replies, convert, n - 1) + Kept(PageItems(ReplyAt(replies, n - 1)), convert)
  }

  /** The page token request `k` sends: none for the first, then the previous page's. */
  function TokenFor<T>(replies: seq<Reply<T>>, k: nat): string
  {
    if k == 0 then [] else NextToken(ReplyAt(replies, k - 1))
  }

  /** The page tokens of the first `n` requests. */
  function Sent<T>(replies: seq<Reply<T>>, n: nat): (s: seq<string>)
    ensures |s| == n
    ensures forall j :: 0 <= j < n ==> s[j] == TokenFor(replies, j)
  {
    if n == 0 then [] else Sent(replies, n - 1) + [TokenFor(replies, n - 1)]
  }

  /** What one run of a listing loop produces: its items or the exception, and the tokens it sent. */
  datatype Listing<U> = Listing(result: Result<seq<U>>, requests: seq<string>)

  /** A reply that makes a listing throw: a failed fetch, or any non-ok status when `strict`. */
  predicate Fails<T>(r: Reply<T>, strict: bool) {
    r.NetworkError? || (strict && r.HttpError?)
  }

  /** How a listing loop ends: its items or the exception, and how many requests it sent. */
  datatype Outcome<U> = Outcome(result: Result<seq<U>>, count: nat)

  /**
   * The rest of a listing loop from request `g`, when `out` holds the items read so far: request
   * `g` throws, ends the listing at a non-ok status, or appends its page; the loop goes on while
   * the items are below the cap, the page has a next token and the guard allows it.
   */
  function Run<T, U>(replies: seq<Reply<T>>, convert: T -> Option<U>, cap: nat, strict: bool, g: nat, out: seq<U>): (o: Outcome<U>)
    requires g < MaxPages
    ensures g < o.count <= MaxPages
    decreases MaxPages - g
  {
    var r := ReplyAt(replies, g);
    if Fails(r, strict) then Outcome(Thrown, g + 1)
    else if r.HttpError? then Outcome(Ok(out), g + 1)
    else
      var next := Take(out + Kept(r.items, convert), cap);
      if |next| >= cap || r.nextPageToken == [] || g + 1 == MaxPages then Outcome(Ok(next), g + 1)
      else Run(replies, convert, cap, strict, g + 1, next)
  }

  /** Whether the loop goes on after request `g`, having gathered `next`. */
  predicate GoesOn<T, U>(replies: seq<Reply<T>>, g: nat, next: seq<U>, cap: nat)
  {
    var r := ReplyAt(replies, g);
    r.Page? && !(|next| >= cap || r.nextPageToken == [] || g + 1 == MaxPages)
  }

  /** A run that goes on after request `g` is the run from request `g + 1`. */
  lemma RunGoesOn<T, U>(replies: seq<Reply<T>>, convert: T -> Option<U>, cap: nat, strict: bool, g: nat, out: seq<U>)
    requires g < MaxPages && GoesOn(replies, g, Take(out + Kept(PageItems(ReplyAt(replies, g)), convert), cap), cap)
    ensures g + 1 < MaxPages
    ensures Run(replies, convert, cap, strict, g, out) ==
      Run(replies, convert, cap, strict, g + 1, Take(out + Kept(PageItems(ReplyAt(replies, g)), convert), cap))
  {
  }

  /** A run that does not go on after request `g` ends there, and throws exactly when that reply fails. */
  lemma RunEnds<T, U>(replies: seq<Reply<T>>, convert: T -> Option<U>, cap: nat, strict: bool, g: nat, out: seq<U>)
    requires g < MaxPages && !GoesOn(replies, g, Take(out + Kept(PageItems(ReplyAt(replies, g)), convert), cap), cap)
    ensures Run(replies, convert, cap, strict, g, out).count == g + 1
    ensures Run(replies, convert, cap, strict, g, out).result.Thrown? <==> Fails(ReplyAt(replies, g), strict)
  {
  }

  /** A run that starts with the items of the pages before it ends with the first `cap` items of all pages it read. */
  lemma {:induction false} RunItems<T, U>(replies: seq<Reply<T>>, convert: T -> Option<U>, cap: nat, strict: bool, g: nat, out: seq<U>)
    requires g < MaxPages && out == Gathered(replies, convert, g) && |out| < cap
    ensures var o := Run(replies, convert, cap, strict, g, out);
      o.result.Ok? ==> o.result.value == Take(Gathered(replies, convert, o.count), cap)
    decreases MaxPages - g
  {
    var r := ReplyAt(replies, g);
    var next := Take(out + Kept(PageItems(r), convert), cap);
    assert Gathered(replies, convert, g + 1) == out + Kept(PageItems(r), convert);
    if GoesOn(replies, g, next, cap) {
      RunGoesOn(replies, convert, cap, strict, g, out);
      RunItems(replies, convert, cap, strict, g + 1, next);
    }
  }

  /**
   * The outcome of a listing loop over `replies`. With `strict`, a non-ok status throws (the
   * required lists); without it, a non-ok status ends the listing and keeps the earlier pages.
   */
  function Collect<T, U>(replies: seq<Reply<T>>, convert: T -> Option<U>, cap: nat, strict: bool): (l: Listing<U>)
    ensures 1 <= |l.requests| <= MaxPages
  {
    var o := Run(replies, convert, cap, strict, 0, []);
    Listing(o.result, Sent(replies, o.count))
  }

  /** The items of a listing are the first `cap` converted items of the pages it read. */
  lemma CollectItems<T, U>(replies: seq<Reply<T>>, convert: T -> Option<U>, cap: nat, strict: bool)
    requires cap > 0
    ensures var l := Collect(replies, convert, cap, strict);
      l.result.Ok? ==> |l.result.value| <= cap && l.result.value == Take(Gathered(replies, convert, |l.requests|), cap)
  {
    RunItems(replies, convert, cap, strict, 0, []);
  }

  /** From request `g` on, every request of a run but the last got a page with a next token. */
  lemma {:induction false} RunPages<T, U>(replies: seq<Reply<T>>, convert: T -> Option<U>, cap: nat, strict: bool, g: nat, out: seq<U>)
    requires g < MaxPages
    ensures var o := Run(replies, convert, cap, strict, g, out);
      forall j :: g <= j < o.count - 1 ==> ReplyAt(replies, j).Page? && ReplyAt(replies, j).nextPageToken != []
    decreases MaxPages - g
  {
    var r := ReplyAt(replies, g);
    var next := Take(out + Kept(PageItems(r), convert), cap);
    if GoesOn(replies, g, next, cap) {
      RunGoesOn(replies, convert, cap, strict, g, out);
      RunPages(replies, convert, cap, strict, g + 1, next);
    }
  }

  /** A run throws exactly when its last reply is a failure that throws. */
  lemma {:induction false} RunThrows<T, U>(replies: seq<Reply<T>>, convert: T -> Option<U>, cap: nat, strict: bool, g: nat, out: seq<U>)
    requires g < MaxPages
    ensures Run(replies, convert, cap, strict, g, out).result.Thrown? <==>
      Fails(ReplyAt(replies, Run(replies, convert, cap, strict, g, out).count - 1), strict)
    decreases MaxPages - g
  {
    var r := ReplyAt(replies, g);
    var next := Take(out + Kept(PageItems(r), convert), cap);
    if GoesOn(replies, g, next, cap) {
      RunGoesOn(replies, convert, cap, strict, g, out);
      RunThrows(replies, convert, cap, strict, g + 1, next);
    } else {
      RunEnds(replies, convert, cap, strict, g, out);
    }
  }

  /** A run that ends below the cap and the guard ends on a page without a token or on a tolerated status. */
  lemma {:induction false} RunStops<T, U>(replies: seq<Reply<T>>, convert: T -> Option<U>, cap: nat, strict: bool, g: nat, out: seq<U>)
    requires g < MaxPages
    ensures var o := Run(replies, convert, cap, strict, g, out); var r := ReplyAt(replies, o.count - 1);
      o.result.Ok? && |o.result.value| < cap && o.count < MaxPages ==>
        (r.Page? && r.nextPageToken == []) || (!strict && r.HttpError?)
    decreases MaxPages - g
  {
    var r := ReplyAt(replies, g);
    var next := Take(out + Kept(PageItems(r), convert), cap);
    if GoesOn(replies, g, next, cap) {
      RunGoesOn(replies, convert, cap, strict, g, out);
      RunStops(replies, convert, cap, strict, g + 1, next);
    }
  }

  /**
   * At most `MaxPages` requests; the first sends no token, each later one the previous page's
   * token, which was not empty, and every reply but the last was a page.
   */
  lemma CollectRequests<T, U>(replies: seq<Reply<T>>, convert: T -> Option<U>, cap: nat, strict: bool)
    requires cap > 0
    ensures var l := Collect(replies, convert, cap, strict);
      && 1 <= |l.requests| <= MaxPages && l.requests[0] == []
      && forall j :: 0 < j < |l.requests| ==>
           ReplyAt(replies, j - 1).Page? && l.requests[j] == ReplyAt(replies, j - 1).nextPageToken != []
  {
    var l := Collect(replies, convert, cap, strict);
    RunPages(replies, convert, cap, strict, 0, []);
    assert l.requests[0] == TokenFor(replies, 0);
    forall j | 0 < j < |l.requests|
      ensures ReplyAt(replies, j - 1).Page? && l.requests[j] == ReplyAt(replies, j - 1).nextPageToken != []
    {
      assert l.requests[j] == TokenFor(replies, j);
    }
  }

  /** A listing throws exactly when its last request failed in a way that throws. */
  lemma CollectThrows<T, U>(replies: seq<Reply<T>>, convert: T -> Option<U>, cap: nat, strict: bool)
    requires cap > 0
    ensures var l := Collect(replies, convert, cap, strict);
      l.result.Thrown? <==> var r := ReplyAt(replies, |l.requests| - 1); r.NetworkError? || (strict && r.HttpError?)
  {
    RunThrows(replies, convert, cap, strict, 0, []);
  }

  /** A tolerated non-ok status ends a listing with the items of the pages before it. */
  lemma CollectPartial<T, U>(replies: seq<Reply<T>>, convert: T -> Option<U>, cap: nat, strict: bool)
    requires cap > 0
    ensures var l := Collect(replies, convert, cap, strict); var n := |l.requests| - 1;
      !strict && ReplyAt(replies, n).HttpError? ==> l.result == Ok(Take(Gathered(replies, convert, n), cap))
  {
    var l := Collect(replies, convert, cap, strict);
    var n := |l.requests| - 1;
    if !strict && ReplyAt(replies, n).HttpError? {
      var g := Gathered(replies, convert, n);
      assert l.result.Ok? by { RunThrows(replies, convert, cap, strict, 0, []); }
      assert l.result.value == Take(Gathered(replies, convert, n + 1), cap) by { CollectItems(replies, convert, cap, strict); }
      assert Gathered(replies, convert, n + 1) == g + Kept(PageItems(ReplyAt(replies, n)), convert);
      assert g + [] == g;
    }
  }

  /** Below the cap and the guard, a listing ends only on a page without a token or a non-ok status. */
  lemma CollectStopReason<T, U>(replies: seq<Reply<T>>, convert: T -> Option<U>, cap: nat, strict: bool)
    requires cap > 0
    ensures var l := Collect(replies, convert, cap, strict);
      l.result.Ok? && |l.result.value| < cap && |l.requests| < MaxPages ==>
        var r := ReplyAt(replies, |l.requests| - 1); (r.Page? && r.nextPageToken == []) || (!strict && r.HttpError?)
  {
    RunStops(replies, convert, cap, strict, 0, []);
  }

  /** Appends the converted `items` to `out`, stopping as soon as `out` holds `cap` items. */
  method AppendPage<T, U>(out: seq<U>, items: seq<T>, convert: T -> Option<U>, cap: nat) returns (r: seq<U>)
    requires |out| < cap
    ensures r == Take(out + Kept(items, convert), cap)
  {
    r := out;
    var i := 0;
    while i < |items|
      invariant 0 <= i <= |items|
      invariant r == out + Kept(items[..i], convert) && |r| < cap
    {
      assert items[..i + 1][..i] == items[..i];
      var c := convert(items[i]);
      if c.Some? {
        r := r + [c.value];
        if |r| >= cap {
          FullPage(out, items, i, convert, cap);
          return;
        }
      }
      i := i + 1;
    }
    assert items[..i] == items;
  }

  /** Once the cap is reached inside a page, the rest of the page does not matter. */
  lemma FullPage<T, U>(out: seq<U>, items: seq<T>, i: nat, convert: T -> Option<U>, cap: nat)
    requires i < |items|
    requires |out + Kept(items[..i + 1], convert)| == cap
    ensures out + Kept(items[..i + 1], convert) == Take(out + Kept(items, convert), cap)
  {
    var a, b := Kept(items[..i + 1], convert), Kept(items[i + 1..], convert);
    assert items[..i + 1] + items[i + 1..] == items;
    KeptAppend(items[..i + 1], items[i + 1..], convert);
    assert out + Kept(items, convert) == (out + a) + b;
    TakeOfFull(out + a, b, cap);
  }

  /** A listing loop (`while (guard < 5)` with its `pageToken` and its item cap). */
  method Paginate<T, U>(replies: seq<Reply<T>>, convert: T -> Option<U>, cap: nat, strict: bool)
    returns (result: Result<seq<U>>, requests: seq<string>)
    requires cap > 0
    ensures Listing(result, requests) == Collect(replies, convert, cap, strict)
  {
    var out: seq<U> := [];
    var pageToken: string := [];
    var guard := 0;
    requests := [];
    while guard < MaxPages
      invariant 0 <= guard <= MaxPages
      invariant requests == Sent(replies, guard) && pageToken == TokenFor(replies, guard)
      invariant guard < MaxPages ==> Run(replies, convert, cap, strict, guard, out) == Run(replies, convert, cap, strict, 0, [])
      invariant guard == MaxPages ==> Run(replies, convert, cap, strict, 0, []) == Outcome(Ok(out), MaxPages)
      invariant |out| < cap
    {
      requests := requests + [pageToken];
      var reply := ReplyAt(replies, guard);
      if reply.NetworkError? || (strict && reply.HttpError?) {
        return Thrown, requests;
      }
      if reply.HttpError? {
        return Ok(out), requests;
      }
      out := AppendPage(out, reply.items, convert, cap);
      if |out| >= cap {
        return Ok(out), requests;
      }
      pageToken := reply.nextPageToken;
      if pageToken == [] {
        return Ok(out), requests;
      }
      guard := guard + 1;
    }
    return Ok(out), requests;
  }
}
