/**
 The parts of the indexer that both scan engines rely on: rounds, paged scans over an immutable,
 round-ordered ledger, and the promise a paged scan makes.

 Requests are numbered in the order they are issued. `roundAt(k)` is the round the indexer had
 reached when it answered request `k`; the ledger itself never changes, it only becomes visible.
 */
module Indexer {
  import opened Wrappers

  type Round = nat
  type Token = string
  datatype NetError = NetError(message: string)

  datatype QueryMode = Refresh | CacheOnly | ForceFull

  /** One call of either engine: the mode, the freshness window and the unix time. */
  datatype Call = Call(mode: QueryMode, lifetime: Option<nat>, now: nat)

  /** A caller-owned scan cache: what it holds, the round it is good for, and when it was stamped. */
  datatype Cache<+E> = Cache(entries: seq<E>, lastRound: Round, lastUpdated: nat)

  function Empty<E>(): Cache<E> { Cache([], 0, 0) }

  /** The cache and the request counter after a call, and whether the call succeeded. */
  datatype Outcome<+E> = Outcome(cache: Cache<E>, clock: nat, ok: bool)

  /** What a scan collected; a scan that failed has no watermark. */
  datatype Scanned<+E> = Scanned(entries: seq<E>, clock: nat, watermark: Option<Round>)

  /** `ForceFull` drops the entries and the watermark before its first request. */
  function Prepared<E>(cache: Cache<E>, mode: QueryMode): Cache<E> {
    if mode.ForceFull? then cache.(entries := [], lastRound := 0) else cache
  }

  datatype RowPage<+R> = RowPage(rows: seq<R>, nextToken: Option<Token>, currentRound: Round)

  /** The reply to request `k` for the page at `token` of a scan of the rounds from `floor` on. */
  type RowFetcher<+R> = (nat, Option<Round>, Option<Token>) -> Result<RowPage<R>, NetError>

  /** Request `k` of one paged scan, for the page at a token. */
  type Pager<+R> = (nat, Option<Token>) -> Result<RowPage<R>, NetError>

  /**
   What a scan from request `k` on is answered, request by request. Each one after the first sends the
   token of the reply before it; the scan ends with a failure or with a page that has no further token.
   */
  function Replies<R>(send: Pager<R>, horizon: nat, k: nat, token: Option<Token>): seq<Result<RowPage<R>, NetError>>
    decreases horizon - k
  {
    var reply := send(k, token);
    [reply] + if k < horizon && reply.Ok? && reply.value.nextToken.Some?
              then Replies(send, horizon, k + 1, reply.value.nextToken) else []
  }

  /** Reply `i` carries a token, and the next request sends it. */
  ghost predicate LeadsOn<R>(send: Pager<R>, k: nat, replies: seq<Result<RowPage<R>, NetError>>, i: nat)
    requires i + 1 < |replies|
  {
    && replies[i].Ok? && replies[i].value.nextToken.Some?
    && replies[i + 1] == send(k + i + 1, replies[i].value.nextToken)
  }

  ghost predicate Follow<R>(send: Pager<R>, k: nat, replies: seq<Result<RowPage<R>, NetError>>) {
    forall i: nat :: i + 1 < |replies| ==> LeadsOn(send, k, replies, i)
  }

  /** Each reply leads to the next, so the last request is the only one that can fail. */
  lemma {:induction false} RepliesFollow<R>(send: Pager<R>, horizon: nat, k: nat, token: Option<Token>)
    ensures var replies := Replies(send, horizon, k, token);
            && replies != [] && replies[0] == send(k, token) && Follow(send, k, replies)
    decreases horizon - k
  {
    var reply := send(k, token);
    if k < horizon && reply.Ok? && reply.value.nextToken.Some? {
      var rest := Replies(send, horizon, k + 1, reply.value.nextToken);
      RepliesFollow(send, horizon, k + 1, reply.value.nextToken);
      var replies := [reply] + rest;
      forall i: nat | i + 1 < |replies| ensures LeadsOn(send, k, replies, i) {
        assert i > 0 ==> LeadsOn(send, k + 1, rest, i - 1);
      }
    }
  }

  /** The rows of all the pages among some replies. */
  function RowsOf<R>(replies: seq<Result<RowPage<R>, NetError>>): seq<R> {
    if replies == [] then [] else (if replies[0].Ok? then replies[0].value.rows else []) + RowsOf(replies[1..])
  }

  /** The greatest of a starting value and the rounds of the pages, or the least round of the pages. */
  ghost predicate Greatest<R>(w: Round, start: Round, replies: seq<Result<RowPage<R>, NetError>>) {
    && start <= w
    && (forall reply :: reply in replies && reply.Ok? ==> reply.value.currentRound <= w)
    && (w == start || exists reply :: reply in replies && reply.Ok? && reply.value.currentRound == w)
  }

  ghost predicate Smallest<R>(w: Round, start: Option<Round>, replies: seq<Result<RowPage<R>, NetError>>) {
    && (start.Some? ==> w <= start.value)
    && (forall reply :: reply in replies && reply.Ok? ==> w <= reply.value.currentRound)
    && (start == Some(w) || exists reply :: reply in replies && reply.Ok? && reply.value.currentRound == w)
  }

  lemma GreatestNext<R>(w: Round, start: Round, page: RowPage<R>, rest: seq<Result<RowPage<R>, NetError>>)
    requires Greatest(w, if page.currentRound > start then page.currentRound else start, rest)
    ensures Greatest(w, start, [Ok(page)] + rest)
  {
    var replies := [Ok(page)] + rest;
    assert replies[0] == Ok(page);
    assert forall reply :: reply in replies <==> reply == Ok(page) || reply in rest;
  }

  lemma SmallestNext<R>(w: Round, start: Option<Round>, page: RowPage<R>, rest: seq<Result<RowPage<R>, NetError>>)
    requires Smallest(w, Some(if start.Some? && start.value < page.currentRound then start.value
                              else page.currentRound), rest)
    ensures Smallest(w, start, [Ok(page)] + rest)
  {
    var replies := [Ok(page)] + rest;
    assert replies[0] == Ok(page);
    assert forall reply :: reply in replies <==> reply == Ok(page) || reply in rest;
  }

  /** Fresh for `lifetime` seconds from the stamp on; without a lifetime, not at all. */
  predicate ScanCacheIsFresh(lastUpdated: nat, now: nat, lifetime: Option<nat>) {
    match lifetime
    case Some(secs) => (if now < lastUpdated then 0 else now - lastUpdated) < secs
    case None => false
  }

  /** The rows of rounds `first` to `last`, oldest first. */
  function Between<R>(ledger: Round -> seq<R>, first: Round, last: int): seq<R>
    decreases last - first
  {
    if last < first then [] else Between(ledger, first, last - 1) + ledger(last)
  }

  lemma {:induction false} BetweenSplit<R>(ledger: Round -> seq<R>, first: Round, mid: int, last: int)
    requires first <= mid + 1 && mid <= last
    ensures Between(ledger, first, last) == Between(ledger, first, mid) + Between(ledger, mid + 1, last)
    decreases last - mid
  {
    if mid < last {
      BetweenSplit(ledger, first, mid, last - 1);
    }
  }

  lemma BetweenGrows<R>(ledger: Round -> seq<R>, first: Round, last: int, later: int)
    requires last <= later
    ensures Between(ledger, first, last) <= Between(ledger, first, later)
  {
    if first <= last + 1 {
      BetweenSplit(ledger, first, last, later);
    }
  }

  lemma {:induction false} InBetween<R>(ledger: Round -> seq<R>, first: Round, last: int, row: R)
    ensures row in Between(ledger, first, last) <==> exists r: Round :: first <= r <= last && row in ledger(r)
    decreases last - first
  {
    if first <= last {
      InBetween(ledger, first, last - 1, row);
      assert Between(ledger, first, last) == Between(ledger, first, last - 1) + ledger(last);
    }
  }

  /** A scan without a floor starts at round 1, the first round of the chain. */
  function FirstRound(floor: Option<Round>): Round {
    match floor
    case None => 1
    case Some(r) => r
  }

  /** How many rows of a scan from some floor its tokens stand for; a token may be shared between scans. */
  type Cursor = (Option<Round>, Token) -> nat

  /** How many rows of the scan from `floor` its token says have been delivered. */
  function Delivered(cursor: Cursor, floor: Option<Round>, token: Option<Token>): nat {
    match token
    case None => 0
    case Some(t) => cursor(floor, t)
  }

  ghost predicate RoundsNeverDecrease(roundAt: nat -> Round) {
    forall i: nat, j: nat :: i <= j ==> roundAt(i) <= roundAt(j)
  }

  /**
   What the indexer promises of one page of a row scan: it was computed at `roundAt(k)`, it holds
   the rows that follow the ones its token says were delivered, and when it carries no further
   token it holds all of them through its own round.
   */
  ghost predicate HonestPage<R>(fetch: RowFetcher<R>, cursor: Cursor, ledger: Round -> seq<R>,
                                roundAt: nat -> Round, k: nat, floor: Option<Round>, token: Option<Token>)
  {
    match fetch(k, floor, token)
    case Err(_) => true
    case Ok(page) =>
      && page.currentRound == roundAt(k)
      && var all := Between(ledger, FirstRound(floor), page.currentRound);
         var from := Delivered(cursor, floor, token);
         from <= |all| ==>
           match page.nextToken
           case None => page.rows == all[from..]
           case Some(t) => from <= cursor(floor, t) <= |all| && page.rows == all[from..cursor(floor, t)]
  }

  ghost predicate HonestScan<R>(fetch: RowFetcher<R>, cursor: Cursor, ledger: Round -> seq<R>,
                                roundAt: nat -> Round)
  {
    && RoundsNeverDecrease(roundAt)
    && forall k: nat, floor: Option<Round>, token: Option<Token> ::
         HonestPage(fetch, cursor, ledger, roundAt, k, floor, token)
  }

  /** The page at `token` of a scan whose token is within the rows visible at request `k`. */
  ghost predicate OnTrack<R>(fetch: RowFetcher<R>, cursor: Cursor, ledger: Round -> seq<R>,
                             roundAt: nat -> Round, floor: Option<Round>, k: nat, token: Option<Token>)
  {
    && HonestScan(fetch, cursor, ledger, roundAt)
    && Delivered(cursor, floor, token) <= |Between(ledger, FirstRound(floor), roundAt(k))|
  }

  /** A page that carries a further token leads on to a page of the same kind. */
  lemma NextPageOnTrack<R>(fetch: RowFetcher<R>, cursor: Cursor, ledger: Round -> seq<R>,
                           roundAt: nat -> Round, floor: Option<Round>, k: nat, token: Option<Token>)
    requires OnTrack(fetch, cursor, ledger, roundAt, floor, k, token)
    requires var reply := fetch(k, floor, token); reply.Ok? && reply.value.nextToken.Some?
    ensures OnTrack(fetch, cursor, ledger, roundAt, floor, k + 1, fetch(k, floor, token).value.nextToken)
    ensures roundAt(k) <= roundAt(k + 1)
  {
    assert HonestPage(fetch, cursor, ledger, roundAt, k, floor, token);
    BetweenGrows(ledger, FirstRound(floor), roundAt(k), roundAt(k + 1));
  }
}
