/**
 The incremental transaction scan: an append-only cache watermarked at the greatest round any page
 reported. `TxnScanCache` is the engine as it runs; the functions above it say what a call leaves
 in the cache, and the lemmas below say what that is worth.
 */
module TransactionScan {
  import opened Wrappers
  import opened Indexer

  datatype ScannedTxn = ScannedTxn(confirmedRound: Round, sender: string, note: Option<seq<int>>)

  /** The injected page fetcher. Requests numbered `horizon` and later are never answered. */
  datatype Network = Network(horizon: nat, fetch: RowFetcher<ScannedTxn>)
  {
    function Page(k: nat, floor: Option<Round>, token: Option<Token>): Result<RowPage<ScannedTxn>, NetError> {
      if k < horizon then fetch(k, floor, token) else Err(NetError("no reply"))
    }

    /** The requests of one scan. */
    function Pages(floor: Option<Round>): Pager<ScannedTxn> {
      (k: nat, token: Option<Token>) => Page(k, floor, token)
    }
  }

  type Ingest<!T> = ScannedTxn -> Option<T>

  function FilterMap<T>(txns: seq<ScannedTxn>, ingest: Ingest<T>): seq<T> {
    if txns == [] then [] else
      var last := |txns| - 1;
      FilterMap(txns[..last], ingest) + match ingest(txns[last]) case Some(e) => [e] case None => []
  }

  /** What to fetch: nothing, everything (`Some(None)`), or the rounds from a floor on. */
  function Plan<T>(cache: Cache<T>, call: Call): Option<Option<Round>> {
    match call.mode
    case CacheOnly => None
    case ForceFull => Some(None)
    case Refresh =>
      if cache.lastUpdated == 0 then Some(None)
      else if ScanCacheIsFresh(cache.lastUpdated, call.now, call.lifetime) then None
      else Some(Some(cache.lastRound + 1))
  }

  /** Page to completion; a failed request keeps what was pushed and yields no watermark. */
  function Scan<T>(net: Network, ingest: Ingest<T>, floor: Option<Round>,
                   k: nat, token: Option<Token>, watermark: Round, entries: seq<T>): (s: Scanned<T>)
    ensures s.clock > k
    decreases net.horizon - k
  {
    match net.Page(k, floor, token)
    case Err(_) => Scanned(entries, k + 1, None)
    case Ok(page) =>
      var watermark' := if page.currentRound > watermark then page.currentRound else watermark;
      var entries' := entries + FilterMap(page.rows, ingest);
      match page.nextToken
      case None => Scanned(entries', k + 1, Some(watermark'))
      case Some(t) => Scan(net, ingest, floor, k + 1, Some(t), watermark', entries')
  }

  function Fetch<T>(net: Network, ingest: Ingest<T>, cache: Cache<T>, call: Call, k: nat): Outcome<T> {
    var start := Prepared(cache, call.mode);
    match Plan(cache, call)
    case None => Outcome(cache, k, true)
    case Some(floor) =>
      var s := Scan(net, ingest, floor, k, None, start.lastRound, start.entries);
      match s.watermark
      case None => Outcome(start.(entries := s.entries), s.clock, false)
      case Some(w) => Outcome(Cache(s.entries, w, call.now), s.clock, true)
  }

  /** The cache after a sequence of calls, whatever each one returned. */
  function Run<T>(net: Network, ingest: Ingest<T>, cache: Cache<T>, calls: seq<Call>, k: nat): Outcome<T>
    decreases |calls|
  {
    if calls == [] then Outcome(cache, k, true) else
      var o := Fetch(net, ingest, cache, calls[0], k);
      Run(net, ingest, o.cache, calls[1..], o.clock)
  }

  /** The caller-owned cache, refreshed in place. */
  class TxnScanCache<T> {
    var entries: seq<T>
    var lastRound: Round
    var lastUpdated: nat

    function Value(): Cache<T>
      reads this
    {
      Cache(entries, lastRound, lastUpdated)
    }

    constructor ()
      ensures Value() == Empty()
    {
      entries, lastRound, lastUpdated := [], 0, 0;
    }

    method FetchTransactionsCachedWith(net: Network, ingest: Ingest<T>, call: Call, k: nat)
      returns (r: Result<(), NetError>, clock: nat)
      modifies this
      ensures Outcome(Value(), clock, r.Ok?) == Fetch(net, ingest, old(Value()), call, k)
    {
      clock := k;
      var fetchFrom: Option<Option<Round>> := None;
      match call.mode {
        case CacheOnly =>
        case ForceFull =>
          entries, lastRound := [], 0;
          fetchFrom := Some(None);
        case Refresh =>
          if lastUpdated == 0 {
            fetchFrom := Some(None);
          } else if !ScanCacheIsFresh(lastUpdated, call.now, call.lifetime) {
            fetchFrom := Some(Some(lastRound + 1));
          }
      }
      if fetchFrom.None? {
        return Ok(()), clock;
      }
      var scanned;
      scanned, clock := ScanPages(net, ingest, fetchFrom.value, k);
      if scanned.Err? {
        return Err(scanned.error), clock;
      }
      lastRound, lastUpdated := scanned.value, call.now;
      r := Ok(());
    }

    /** Page to completion, pushing as it goes, and return the watermark. */
    method ScanPages(net: Network, ingest: Ingest<T>, minRound: Option<Round>, k: nat)
      returns (r: Result<Round, NetError>, clock: nat)
      modifies this`entries
      ensures Scanned(entries, clock, if r.Ok? then Some(r.value) else None)
           == Scan(net, ingest, minRound, k, None, lastRound, old(entries))
    {
      clock := k;
      var watermark: Round := lastRound;
      var next: Option<Token> := None;
      while true
        invariant k <= clock
        invariant Scan(net, ingest, minRound, k, None, lastRound, old(entries))
               == Scan(net, ingest, minRound, clock, next, watermark, entries)
        decreases net.horizon - clock
      {
        var reply := net.Page(clock, minRound, next);
        clock := clock + 1;
        if reply.Err? {
          return Err(reply.error), clock;
        }
        var page := reply.value;
        watermark := if page.currentRound > watermark then page.currentRound else watermark;
        PushAll(page.rows, ingest);
        match page.nextToken {
          case Some(token) => next := Some(token);
          case None => break;
        }
      }
      r := Ok(watermark);
    }

    method PushAll(txns: seq<ScannedTxn>, ingest: Ingest<T>)
      modifies this`entries
      ensures entries == old(entries) + FilterMap(txns, ingest)
    {
      for i := 0 to |txns|
        invariant entries == old(entries) + FilterMap(txns[..i], ingest)
      {
        assert txns[..i + 1][..i] == txns[..i];
        var entry := ingest(txns[i]);
        if entry.Some? {
          entries := entries + [entry.value];
        }
      }
      assert txns[..|txns|] == txns;
    }
  }
}
