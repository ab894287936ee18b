/** `getChannelMembers` (tests/main.go:11-31): the cursor-driven listing of a
    channel's members. The first request carries the empty cursor, every
    later one the cursor the previous page ended with; the listing stops
    after the first page whose next cursor is empty, and the first failed
    request abandons everything gathered so far. */
module Members {
  import opened SlackApi

  /** The cursor with which the page after `pages` is requested. */
  function CursorAfter(pages: seq<Page>): Cursor
  {
    if pages == [] then "" else pages[|pages| - 1].nextCursor
  }

  /** The request for the page after `pages`. */
  function RequestAfter(channel: ChannelId, pages: seq<Page>): Request
  {
    Request(channel, CursorAfter(pages), PageLimit)
  }

  /** The identifiers of all `pages`, page after page. */
  function Concat(pages: seq<Page>): seq<UserId>
  {
    if pages == [] then [] else Concat(pages[..|pages| - 1]) + pages[|pages| - 1].ids
  }

  /** Every page of `pages` is what `api` answers to the request made after
      the pages before it, and every one of them announces a further page. */
  predicate Continuing(api: ListMembers, channel: ChannelId, pages: seq<Page>)
  {
    forall k :: 0 <= k < |pages| ==>
      api(RequestAfter(channel, pages[..k])) == Ok(pages[k]) && pages[k].nextCursor != ""
  }

  /** `pages` is a whole listing: each page answers the request after the
      ones before it, and the last page, and only it, has an empty next cursor. */
  predicate CompleteRun(api: ListMembers, channel: ChannelId, pages: seq<Page>)
  {
    && |pages| > 0
    && Continuing(api, channel, pages[..|pages| - 1])
    && api(RequestAfter(channel, pages[..|pages| - 1])) == Ok(pages[|pages| - 1])
    && pages[|pages| - 1].nextCursor == ""
  }

  /** `pages` were received, each announcing a further page, and then the
      request for the next page failed with `error`. */
  predicate FailedRun(api: ListMembers, channel: ChannelId, pages: seq<Page>, error: string)
  {
    Continuing(api, channel, pages) && api(RequestAfter(channel, pages)) == Err(error)
  }

  /** Starting from `cursor`, the listing ends (with an error or an empty
      next cursor) within `fuel` requests. The Go loop has no bound of its
      own, so this is what a caller needs for `getChannelMembers` to return. */
  ghost predicate Halts(api: ListMembers, channel: ChannelId, cursor: Cursor, fuel: nat)
    decreases fuel
  {
    && fuel > 0
    && match api(Request(channel, cursor, PageLimit))
       case Err(_) => true
       case Ok(page) => page.nextCursor == "" || Halts(api, channel, page.nextCursor, fuel - 1)
  }

  /** What the listing yields from `cursor` on, stated page by page from the
      front: an error ends it, an empty next cursor ends it with that page's
      identifiers, and otherwise the page's identifiers come before the rest. */
  ghost function Listing(api: ListMembers, channel: ChannelId, cursor: Cursor, fuel: nat): Result<seq<UserId>>
    requires Halts(api, channel, cursor, fuel)
    decreases fuel
  {
    match api(Request(channel, cursor, PageLimit))
    case Err(e) => Err(e)
    case Ok(page) =>
      if page.nextCursor == "" then Ok(page.ids)
      else
        match Listing(api, channel, page.nextCursor, fuel - 1)
        case Err(e) => Err(e)
        case Ok(rest) => Ok(page.ids + rest)
  }

  /** `members` followed by what `rest` yields; an error discards `members`. */
  function Prepend(members: seq<UserId>, rest: Result<seq<UserId>>): Result<seq<UserId>>
  {
    match rest
    case Err(e) => Err(e)
    case Ok(ids) => Ok(members + ids)
  }

  /** Prepending two lists one after the other is prepending their concatenation. */
  lemma PrependTwice(first: seq<UserId>, second: seq<UserId>, rest: Result<seq<UserId>>)
    ensures Prepend(first, Prepend(second, rest)) == Prepend(first + second, rest)
  {
    if rest.Ok? {
      assert first + (second + rest.value) == (first + second) + rest.value;
    }
  }

  /** `getChannelMembers`. The ghost `pages` are the pages received, in
      request order; on success the members are exactly their identifiers,
      and on failure only the error is returned. */
  method GetChannelMembers(api: ListMembers, channel: ChannelId, ghost fuel: nat)
    returns (r: Result<seq<UserId>>, ghost pages: seq<Page>)
    requires Halts(api, channel, "", fuel)
    ensures r == Listing(api, channel, "", fuel)
    ensures r.Ok? ==> CompleteRun(api, channel, pages) && r.value == Concat(pages)
    ensures r.Err? ==> FailedRun(api, channel, pages, r.error)
  {
    var members: seq<UserId> := [];
    var cursor: Cursor := "";
    pages := [];
    ghost var left := fuel;
    assert Prepend(members, Listing(api, channel, cursor, left)) == Listing(api, channel, cursor, left) by {
      if Listing(api, channel, cursor, left).Ok? {
        assert members + Listing(api, channel, cursor, left).value == Listing(api, channel, cursor, left).value;
      }
    }
    while true
      invariant Continuing(api, channel, pages)
      invariant cursor == CursorAfter(pages)
      invariant members == Concat(pages)
      invariant Halts(api, channel, cursor, left)
      invariant Listing(api, channel, "", fuel) == Prepend(members, Listing(api, channel, cursor, left))
      decreases left
    {
      var response := api(Request(channel, cursor, PageLimit));
      if response.Err? {
        return Err(response.error), pages;
      }
      var page := response.value;
      ghost var previous := members;
      members := members + page.ids;
      ghost var before := pages;
      pages := pages + [page];
      assert pages[..|before|] == before;
      if page.nextCursor == "" {
        break;
      }
      assert forall k :: 0 <= k <= |before| ==> pages[..k] == before[..k];
      PrependTwice(previous, page.ids, Listing(api, channel, page.nextCursor, left - 1));
      cursor := page.nextCursor;
      left := left - 1;
    }
    r := Ok(members);
  }

  /** Two listings that received the same number of pages from the same
      service received the same pages: each request is fixed by the pages
      before it. */
  lemma {:induction false} AnswersAgree(api: ListMembers, channel: ChannelId, p: seq<Page>, q: seq<Page>, n: nat)
    requires n <= |p| && n <= |q|
    requires forall k :: 0 <= k < n ==> api(RequestAfter(channel, p[..k])) == Ok(p[k])
    requires forall k :: 0 <= k < n ==> api(RequestAfter(channel, q[..k])) == Ok(q[k])
    ensures p[..n] == q[..n]
  {
    if n > 0 {
      AnswersAgree(api, channel, p, q, n - 1);
      assert p[..n - 1] == p[..n][..n - 1] && q[..n - 1] == q[..n][..n - 1];
      assert p[..n] == p[..n - 1] + [p[n - 1]] && q[..n] == q[..n - 1] + [q[n - 1]];
    }
  }

  /** The outcome of a listing is determined by the service: there is one
      complete listing at most, it excludes every failed one, and two failed
      listings received the same pages and report the same error. */
  lemma RunIsDetermined(api: ListMembers, channel: ChannelId, p: seq<Page>, q: seq<Page>)
    ensures CompleteRun(api, channel, p) && CompleteRun(api, channel, q) ==> p == q
    ensures forall e :: CompleteRun(api, channel, p) ==> !FailedRun(api, channel, q, e)
    ensures forall e, e' :: FailedRun(api, channel, p, e) && FailedRun(api, channel, q, e') ==> p == q && e == e'
  {
    if CompleteRun(api, channel, p) && CompleteRun(api, channel, q) {
      CompleteRunsAgree(api, channel, p, q);
    }
    forall e | CompleteRun(api, channel, p)
      ensures !FailedRun(api, channel, q, e)
    {
      if FailedRun(api, channel, q, e) {
        var n := |p| - 1;
        CompleteRunAnswers(api, channel, p);
        if |q| >= |p| {
          AnswersAgree(api, channel, p, q, |p|);
        } else {
          AnswersAgree(api, channel, p, q, |q|);
        }
      }
    }
    forall e, e' | FailedRun(api, channel, p, e) && FailedRun(api, channel, q, e')
      ensures p == q && e == e'
    {
      if |p| <= |q| {
        FailedRunsAgree(api, channel, p, q, e, e');
      } else {
        FailedRunsAgree(api, channel, q, p, e', e);
      }
    }
  }

  /** A complete listing answers every one of its requests, and every page
      but the last announces a further one. */
  lemma CompleteRunAnswers(api: ListMembers, channel: ChannelId, p: seq<Page>)
    requires CompleteRun(api, channel, p)
    ensures forall k :: 0 <= k < |p| ==> api(RequestAfter(channel, p[..k])) == Ok(p[k])
    ensures forall k :: 0 <= k < |p| - 1 ==> p[k].nextCursor != ""
  {
    var m := |p| - 1;
    forall k | 0 <= k < m
      ensures api(RequestAfter(channel, p[..k])) == Ok(p[k]) && p[k].nextCursor != ""
    {
      assert p[..m][..k] == p[..k] && p[..m][k] == p[k];
    }
  }

  lemma CompleteRunsAgree(api: ListMembers, channel: ChannelId, p: seq<Page>, q: seq<Page>)
    requires CompleteRun(api, channel, p) && CompleteRun(api, channel, q)
    ensures p == q
  {
    CompleteRunAnswers(api, channel, p);
    CompleteRunAnswers(api, channel, q);
    if |p| < |q| {
      AnswersAgree(api, channel, p, q, |p|);
    } else if |q| < |p| {
      AnswersAgree(api, channel, p, q, |q|);
    } else {
      AnswersAgree(api, channel, p, q, |p|);
      assert p == p[..|p|] && q == q[..|q|];
    }
  }

  lemma FailedRunsAgree(api: ListMembers, channel: ChannelId, p: seq<Page>, q: seq<Page>, e: string, e': string)
    requires FailedRun(api, channel, p, e) && FailedRun(api, channel, q, e')
    requires |p| <= |q|
    ensures p == q && e == e'
  {
    AnswersAgree(api, channel, p, q, |p|);
    assert p == p[..|p|];
    assert q == q[..|q|];
  }

  /** Every listing that ends, completely or with an error, meets the
      precondition of `GetChannelMembers`: `Halts` excludes only a service
      that hands out non-empty cursors forever. */
  lemma RunsHalt(api: ListMembers, channel: ChannelId, pages: seq<Page>)
    ensures CompleteRun(api, channel, pages) ==> Halts(api, channel, "", |pages|)
    ensures forall e :: FailedRun(api, channel, pages, e) ==> Halts(api, channel, "", |pages| + 1)
  {
    if CompleteRun(api, channel, pages) {
      HaltsAlong(api, channel, pages[..|pages| - 1], 0);
    }
    if exists e :: FailedRun(api, channel, pages, e) {
      HaltsAlong(api, channel, pages, 0);
    }
  }

  /** A service that answers the request for a non-empty cursor `c` with a
      page whose next cursor is `c` again keeps the Go loop going forever:
      no number of requests reaches the end of the listing. */
  lemma {:induction false} CyclingCursorNeverHalts(api: ListMembers, channel: ChannelId, c: Cursor, fuel: nat)
    requires c != ""
    requires api(Request(channel, c, PageLimit)).Ok?
    requires api(Request(channel, c, PageLimit)).value.nextCursor == c
    ensures !Halts(api, channel, c, fuel)
    decreases fuel
  {
    if fuel > 0 {
      CyclingCursorNeverHalts(api, channel, c, fuel - 1);
    }
  }

  lemma {:induction false} HaltsAlong(api: ListMembers, channel: ChannelId, pages: seq<Page>, k: nat)
    requires Continuing(api, channel, pages)
    requires api(RequestAfter(channel, pages)).Err? || api(RequestAfter(channel, pages)).value.nextCursor == ""
    requires k <= |pages|
    ensures Halts(api, channel, CursorAfter(pages[..k]), |pages| - k + 1)
    decreases |pages| - k
  {
    if k < |pages| {
      HaltsAlong(api, channel, pages, k + 1);
      assert pages[..k + 1][..k] == pages[..k];
    } else {
      assert pages[..k] == pages;
    }
  }
}
