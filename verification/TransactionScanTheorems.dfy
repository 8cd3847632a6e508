/**
 What the transaction cache is worth over whole runs, failed calls included, against an indexer that
 keeps its promise: coverage, soundness, and when the entries are exactly the ledger's.
 */
module TransactionScanTheorems {
  import opened Wrappers
  import opened Indexer
  import opened TransactionScan

  datatype Chain = Chain(ledger: Round -> seq<ScannedTxn>, roundAt: nat -> Round, cursor: Cursor)

  ghost predicate Honest(net: Network, chain: Chain) {
    HonestScan(net.fetch, chain.cursor, chain.ledger, chain.roundAt)
  }

  /** What a reader of the whole ledger through round `r` would collect. */
  function Image<T>(chain: Chain, ingest: Ingest<T>, r: int): seq<T> {
    FilterMap(Between(chain.ledger, 1, r), ingest)
  }

  lemma {:induction false} FilterMapAppend<T>(a: seq<ScannedTxn>, b: seq<ScannedTxn>, ingest: Ingest<T>)
    ensures FilterMap(a + b, ingest) == FilterMap(a, ingest) + FilterMap(b, ingest)
  {
    if b == [] {
      assert a + b == a;
    } else {
      var last := |b| - 1;
      FilterMapAppend(a, b[..last], ingest);
      assert (a + b)[..|a + b| - 1] == a + b[..last];
    }
  }

  lemma {:induction false} InFilterMap<T>(txns: seq<ScannedTxn>, ingest: Ingest<T>, e: T)
    ensures e in FilterMap(txns, ingest) <==> exists txn :: txn in txns && ingest(txn) == Some(e)
  {
    if txns != [] {
      var last := |txns| - 1;
      InFilterMap(txns[..last], ingest, e);
      assert txns == txns[..last] + [txns[last]];
    }
  }

  /** `s` pushed the rows `from` to `upTo` of `all`, and if it completed, to the end of it. */
  ghost predicate Pushed<T>(ingest: Ingest<T>, all: seq<ScannedTxn>, entries: seq<T>, s: Scanned<T>,
                            from: nat, upTo: nat)
  {
    && from <= upTo <= |all|
    && s.entries == entries + FilterMap(all[from..upTo], ingest)
    && (s.watermark.Some? ==> upTo == |all|)
  }

  /** The rows one page brought and the rows the rest of the scan brings are one piece. */
  lemma PieceJoins<T>(ingest: Ingest<T>, earlier: seq<ScannedTxn>, all: seq<ScannedTxn>, entries: seq<T>,
                      s: Scanned<T>, from: nat, mid: nat, upTo: nat)
    requires earlier <= all && from <= mid <= |earlier|
    requires Pushed(ingest, all, entries + FilterMap(earlier[from..mid], ingest), s, mid, upTo)
    ensures Pushed(ingest, all, entries, s, from, upTo)
  {
    SlicesJoin(earlier, all, from, mid, upTo);
    FilterMapAppend(earlier[from..mid], all[mid..upTo], ingest);
    SeqAssoc(entries, FilterMap(earlier[from..mid], ingest), FilterMap(all[mid..upTo], ingest));
  }

  /** What a scan of the rounds from `floor` on, at `token`, is to deliver. */
  ghost predicate Delivers<T>(chain: Chain, ingest: Ingest<T>, floor: Option<Round>, k: nat, token: Option<Token>,
                              entries: seq<T>, s: Scanned<T>, upTo: nat)
  {
    && s.clock > k
    && (s.watermark.Some? ==> s.watermark.value == chain.roundAt(s.clock - 1))
    && Pushed(ingest, Between(chain.ledger, FirstRound(floor), chain.roundAt(s.clock - 1)), entries, s,
              Delivered(chain.cursor, floor, token), upTo)
  }

  /** What the scan pushes from one page on, given what it pushes from the next. */
  lemma PageThenRest<T>(net: Network, chain: Chain, ingest: Ingest<T>, floor: Option<Round>, k: nat,
                        token: Option<Token>, entries: seq<T>, s: Scanned<T>, upTo: nat)
    requires OnTrack(net.fetch, chain.cursor, chain.ledger, chain.roundAt, floor, k, token)
    requires var reply := net.Page(k, floor, token);
             && reply.Ok? && reply.value.nextToken.Some?
             && Delivers(chain, ingest, floor, k + 1, reply.value.nextToken,
                         entries + FilterMap(reply.value.rows, ingest), s, upTo)
    ensures Delivers(chain, ingest, floor, k, token, entries, s, upTo)
  {
    var page := net.Page(k, floor, token).value;
    assert HonestPage(net.fetch, chain.cursor, chain.ledger, chain.roundAt, k, floor, token);
    assert chain.roundAt(k) <= chain.roundAt(s.clock - 1);
    BetweenGrows(chain.ledger, FirstRound(floor), chain.roundAt(k), chain.roundAt(s.clock - 1));
    PieceJoins(ingest, Between(chain.ledger, FirstRound(floor), chain.roundAt(k)),
               Between(chain.ledger, FirstRound(floor), chain.roundAt(s.clock - 1)), entries, s,
               Delivered(chain.cursor, floor, token), chain.cursor(floor, page.nextToken.value), upTo);
  }

  /** What the scan pushes when the page at hand ends it. */
  lemma LastPage<T>(net: Network, chain: Chain, ingest: Ingest<T>, floor: Option<Round>, k: nat,
                    token: Option<Token>, watermark: Round, entries: seq<T>) returns (upTo: nat)
    requires OnTrack(net.fetch, chain.cursor, chain.ledger, chain.roundAt, floor, k, token)
    requires watermark <= chain.roundAt(k)
    requires var reply := net.Page(k, floor, token); reply.Err? || reply.value.nextToken.None?
    ensures Delivers(chain, ingest, floor, k, token, entries,
                     Scan(net, ingest, floor, k, token, watermark, entries), upTo)
  {
    assert HonestPage(net.fetch, chain.cursor, chain.ledger, chain.roundAt, k, floor, token);
    var all := Between(chain.ledger, FirstRound(floor), chain.roundAt(k));
    var from := Delivered(chain.cursor, floor, token);
    var reply := net.Page(k, floor, token);
    if reply.Err? {
      upTo := from;
    } else {
      upTo := |all|;
      assert all[from..upTo] == reply.value.rows;
    }
  }

  /**
   One scan pushes a contiguous piece of the ledger, starting at the first undelivered row. When it
   completes, the piece reaches the end of the round it is watermarked at.
   */
  lemma {:induction false} ScanDelivers<T>(net: Network, chain: Chain, ingest: Ingest<T>, floor: Option<Round>,
                                           k: nat, token: Option<Token>, watermark: Round, entries: seq<T>)
    returns (upTo: nat)
    requires OnTrack(net.fetch, chain.cursor, chain.ledger, chain.roundAt, floor, k, token)
    requires watermark <= chain.roundAt(k)
    ensures Delivers(chain, ingest, floor, k, token, entries,
                     Scan(net, ingest, floor, k, token, watermark, entries), upTo)
    decreases net.horizon - k
  {
    var reply := net.Page(k, floor, token);
    if reply.Err? || reply.value.nextToken.None? {
      upTo := LastPage(net, chain, ingest, floor, k, token, watermark, entries);
    } else {
      var page := reply.value;
      NextPageOnTrack(net.fetch, chain.cursor, chain.ledger, chain.roundAt, floor, k, token);
      assert HonestPage(net.fetch, chain.cursor, chain.ledger, chain.roundAt, k, floor, token);
      var watermark' := if page.currentRound > watermark then page.currentRound else watermark;
      var entries' := entries + FilterMap(page.rows, ingest);
      upTo := ScanDelivers(net, chain, ingest, floor, k + 1, page.nextToken, watermark', entries');
      PageThenRest(net, chain, ingest, floor, k, token, entries,
                   Scan(net, ingest, floor, k + 1, page.nextToken, watermark', entries'), upTo);
    }
  }

  /** The watermark never passes what the indexer had reached. */
  ghost predicate Reached<T>(chain: Chain, cache: Cache<T>, k: nat) {
    cache.lastRound <= chain.roundAt(k)
  }

  ghost predicate Covered<T>(chain: Chain, ingest: Ingest<T>, cache: Cache<T>) {
    forall e :: e in Image(chain, ingest, cache.lastRound) ==> e in cache.entries
  }

  ghost predicate Sound<T>(chain: Chain, ingest: Ingest<T>, cache: Cache<T>, k: nat) {
    forall e :: e in cache.entries ==> e in Image(chain, ingest, chain.roundAt(k))
  }

  ghost predicate Exact<T>(chain: Chain, ingest: Ingest<T>, cache: Cache<T>) {
    cache.entries == Image(chain, ingest, cache.lastRound)
  }

  /** What one call adds to the entries it starts from, as a piece of the ledger. */
  lemma FetchDelivers<T>(net: Network, chain: Chain, ingest: Ingest<T>, cache: Cache<T>, call: Call, k: nat)
    returns (added: seq<ScannedTxn>)
    requires Honest(net, chain) && Reached(chain, cache, k) && Plan(cache, call).Some?
    ensures var o := Fetch(net, ingest, cache, call, k);
            var first := FirstRound(Plan(cache, call).value);
            var all := Between(chain.ledger, first, chain.roundAt(o.clock - 1));
            && o.clock > k
            && o.cache.entries == Prepared(cache, call.mode).entries + FilterMap(added, ingest)
            && (forall txn :: txn in added ==> txn in all)
            && (o.ok ==> added == all && o.cache.lastRound == chain.roundAt(o.clock - 1))
            && (!o.ok ==> o.cache.lastRound == Prepared(cache, call.mode).lastRound)
  {
    var start := Prepared(cache, call.mode);
    var floor := Plan(cache, call).value;
    var upTo := ScanDelivers(net, chain, ingest, floor, k, None, start.lastRound, start.entries);
    var o := Fetch(net, ingest, cache, call, k);
    var all := Between(chain.ledger, FirstRound(floor), chain.roundAt(o.clock - 1));
    added := all[..upTo];
    assert all[0..upTo] == added;
  }

  /** The ledger through the new watermark is what was covered before and what a fetch adds. */
  lemma ImageExtends<T>(chain: Chain, ingest: Ingest<T>, before: Round, after: Round)
    requires before <= after
    ensures Image(chain, ingest, after)
         == Image(chain, ingest, before) + FilterMap(Between(chain.ledger, before + 1, after), ingest)
  {
    BetweenSplit(chain.ledger, 1, before, after);
    FilterMapAppend(Between(chain.ledger, 1, before), Between(chain.ledger, before + 1, after), ingest);
  }

  lemma AddedIsSound<T>(ingest: Ingest<T>, added: seq<ScannedTxn>, all: seq<ScannedTxn>)
    requires forall txn :: txn in added ==> txn in all
    ensures forall e :: e in FilterMap(added, ingest) ==> e in FilterMap(all, ingest)
  {
    forall e | e in FilterMap(added, ingest) ensures e in FilterMap(all, ingest) {
      InFilterMap(added, ingest, e);
      InFilterMap(all, ingest, e);
    }
  }

  /** Coverage and soundness of the cache a fetch leaves, from the pieces of the ledger involved. */
  lemma AddedKeepsCoverage<T>(image: seq<T>, start: seq<T>, added: seq<T>, piece: seq<T>, o: seq<T>, done: bool)
    requires (forall e :: e in image ==> e in start) && o == start + added
    requires (forall e :: e in added ==> e in piece) && (done ==> added == piece)
    ensures forall e :: e in image ==> e in o
    ensures done ==> forall e :: e in image + piece ==> e in o
    ensures forall e :: e in o ==> e in start || e in piece
  {
  }

  lemma CallKeepsCoverage<T>(net: Network, chain: Chain, ingest: Ingest<T>, cache: Cache<T>, call: Call, k: nat)
    requires Honest(net, chain) && Reached(chain, cache, k)
    requires Covered(chain, ingest, cache) && Sound(chain, ingest, cache, k)
    ensures var o := Fetch(net, ingest, cache, call, k);
            && o.clock >= k
            && Reached(chain, o.cache, o.clock)
            && Covered(chain, ingest, o.cache)
            && Sound(chain, ingest, o.cache, o.clock)
  {
    if Plan(cache, call).Some? {
      var o := Fetch(net, ingest, cache, call, k);
      var start := Prepared(cache, call.mode);
      var added := FetchDelivers(net, chain, ingest, cache, call, k);
      var before: Round := FirstRound(Plan(cache, call).value) - 1;
      var end, now := chain.roundAt(o.clock - 1), chain.roundAt(o.clock);
      assert chain.roundAt(k) <= end <= now;
      var piece := Between(chain.ledger, before + 1, end);
      AddedIsSound(ingest, added, piece);
      AddedKeepsCoverage(Image(chain, ingest, if before == 0 then 0 else start.lastRound), start.entries,
                         FilterMap(added, ingest), FilterMap(piece, ingest), o.cache.entries, o.ok);
      ImageExtends(chain, ingest, before, end);
      ImageExtends(chain, ingest, end, now);
      ImageExtends(chain, ingest, chain.roundAt(k), now);
    }
  }

  lemma {:induction false} RunKeepsCoverage<T>(net: Network, chain: Chain, ingest: Ingest<T>, cache: Cache<T>,
                                               calls: seq<Call>, k: nat)
    requires Honest(net, chain) && Reached(chain, cache, k)
    requires Covered(chain, ingest, cache) && Sound(chain, ingest, cache, k)
    ensures var o := Run(net, ingest, cache, calls, k);
            && Reached(chain, o.cache, o.clock)
            && Covered(chain, ingest, o.cache)
            && Sound(chain, ingest, o.cache, o.clock)
    decreases |calls|
  {
    if calls != [] {
      CallKeepsCoverage(net, chain, ingest, cache, calls[0], k);
      var o := Fetch(net, ingest, cache, calls[0], k);
      RunKeepsCoverage(net, chain, ingest, o.cache, calls[1..], o.clock);
    }
  }

  /**
   After any calls in any modes, each succeeding or failing at any page: every accepted transaction
   of a round through the watermark is in the cache, and nothing else is.
   */
  lemma Coverage<T>(net: Network, chain: Chain, ingest: Ingest<T>, calls: seq<Call>, k: nat)
    requires Honest(net, chain)
    ensures var o := Run(net, ingest, Empty(), calls, k);
            && (forall r: Round, txn :: 1 <= r <= o.cache.lastRound && txn in chain.ledger(r) && ingest(txn).Some?
                  ==> ingest(txn).value in o.cache.entries)
            && (forall e :: e in o.cache.entries
                  ==> exists r: Round, txn :: 1 <= r && txn in chain.ledger(r) && ingest(txn) == Some(e))
  {
    RunKeepsCoverage(net, chain, ingest, Empty(), calls, k);
    var o := Run(net, ingest, Empty(), calls, k);
    forall r: Round, txn | 1 <= r <= o.cache.lastRound && txn in chain.ledger(r) && ingest(txn).Some?
      ensures ingest(txn).value in o.cache.entries
    {
      InBetween(chain.ledger, 1, o.cache.lastRound, txn);
      InFilterMap(Between(chain.ledger, 1, o.cache.lastRound), ingest, ingest(txn).value);
    }
    forall e | e in o.cache.entries
      ensures exists r: Round, txn :: 1 <= r && txn in chain.ledger(r) && ingest(txn) == Some(e)
    {
      var all := Between(chain.ledger, 1, chain.roundAt(o.clock));
      InFilterMap(all, ingest, e);
      var txn :| txn in all && ingest(txn) == Some(e);
      InBetween(chain.ledger, 1, chain.roundAt(o.clock), txn);
    }
  }

  // ----- calls as the replies they get

  type Reply = Result<RowPage<ScannedTxn>, NetError>

  /** The replies a scan gets. */
  function ScanReplies(net: Network, floor: Option<Round>, k: nat): seq<Reply> {
    Replies(net.Pages(floor), net.horizon, k, None)
  }

  lemma RowsOfNext<T>(reply: Reply, rest: seq<Reply>, ingest: Ingest<T>, entries: seq<T>)
    requires reply.Ok?
    ensures entries + FilterMap(RowsOf([reply] + rest), ingest)
         == entries + FilterMap(reply.value.rows, ingest) + FilterMap(RowsOf(rest), ingest)
  {
    assert ([reply] + rest)[1..] == rest;
    FilterMapAppend(reply.value.rows, RowsOf(rest), ingest);
    SeqAssoc(entries, FilterMap(reply.value.rows, ingest), FilterMap(RowsOf(rest), ingest));
  }

  /** A scan is its replies: it pushes what they bring, and fails if and only if the last of them does. */
  lemma {:induction false} ScanIsItsReplies<T>(net: Network, ingest: Ingest<T>, floor: Option<Round>, k: nat,
                                               token: Option<Token>, watermark: Round, entries: seq<T>)
    ensures var s := Scan(net, ingest, floor, k, token, watermark, entries);
            var replies := Replies(net.Pages(floor), net.horizon, k, token);
            && replies != []
            && s.clock == k + |replies|
            && (s.watermark.None? <==> replies[|replies| - 1].Err?)
            && s.entries == entries + FilterMap(RowsOf(replies), ingest)
    decreases net.horizon - k
  {
    var reply := net.Page(k, floor, token);
    var rest := [];
    if reply.Ok? && reply.value.nextToken.Some? {
      var watermark' := if reply.value.currentRound > watermark then reply.value.currentRound else watermark;
      var entries' := entries + FilterMap(reply.value.rows, ingest);
      ScanIsItsReplies(net, ingest, floor, k + 1, reply.value.nextToken, watermark', entries');
      rest := Replies(net.Pages(floor), net.horizon, k + 1, reply.value.nextToken);
    }
    assert Replies(net.Pages(floor), net.horizon, k, token) == [reply] + rest;
    if reply.Ok? {
      RowsOfNext(reply, rest, ingest, entries);
    }
  }

  /** And its watermark is the greatest round of its pages, or where it started if that is greater. */
  lemma {:induction false} ScanWatermark<T>(net: Network, ingest: Ingest<T>, floor: Option<Round>, k: nat,
                                            token: Option<Token>, watermark: Round, entries: seq<T>)
    ensures var s := Scan(net, ingest, floor, k, token, watermark, entries);
            s.watermark.Some? ==>
              Greatest(s.watermark.value, watermark, Replies(net.Pages(floor), net.horizon, k, token))
    decreases net.horizon - k
  {
    var reply := net.Page(k, floor, token);
    if reply.Ok? {
      var page := reply.value;
      var watermark' := if page.currentRound > watermark then page.currentRound else watermark;
      var rest := [];
      if page.nextToken.Some? {
        ScanWatermark(net, ingest, floor, k + 1, page.nextToken, watermark', entries + FilterMap(page.rows, ingest));
        rest := Replies(net.Pages(floor), net.horizon, k + 1, page.nextToken);
      }
      assert Replies(net.Pages(floor), net.horizon, k, token) == [reply] + rest;
      var s := Scan(net, ingest, floor, k, token, watermark, entries);
      if s.watermark.Some? {
        GreatestNext(s.watermark.value, watermark, page, rest);
      }
    }
  }

  /** Answered from the cache: asked to, or refreshed within the lifetime of a stamp. */
  predicate FromCache<T>(cache: Cache<T>, call: Call) {
    || call.mode.CacheOnly?
    || (&& call.mode.Refresh? && cache.lastUpdated > 0
        && call.lifetime.Some? && call.lifetime.value > 0 && call.now < cache.lastUpdated + call.lifetime.value)
  }

  /** Where any other call scans from: all rounds if it rebuilds or there is no stamp, or those past the watermark. */
  function FloorOf<T>(cache: Cache<T>, call: Call): Option<Round> {
    if call.mode.ForceFull? || cache.lastUpdated == 0 then None else Some(cache.lastRound + 1)
  }

  lemma PlanIs<T>(cache: Cache<T>, call: Call)
    ensures Plan(cache, call) == if FromCache(cache, call) then None else Some(FloorOf(cache, call))
  {
  }

  /** A call that is answered from the cache sends nothing and changes nothing. */
  lemma CachedCallIsFree<T>(net: Network, ingest: Ingest<T>, cache: Cache<T>, call: Call, k: nat)
    requires FromCache(cache, call)
    ensures Fetch(net, ingest, cache, call, k) == Outcome(cache, k, true)
  {
    PlanIs(cache, call);
  }

  /**
   The requests of any other call, in order: each after the first sends the token of the reply before it,
   and all of them the same floor. The call fails if and only if the last one it sent did.
   */
  lemma FailsWithItsLastRequest<T>(net: Network, ingest: Ingest<T>, cache: Cache<T>, call: Call, k: nat)
    requires !FromCache(cache, call)
    ensures var o := Fetch(net, ingest, cache, call, k);
            var floor := FloorOf(cache, call);
            var replies := ScanReplies(net, floor, k);
            && |replies| == o.clock - k > 0
            && replies[0] == net.Page(k, floor, None) && Follow(net.Pages(floor), k, replies)
            && (!o.ok <==> replies[|replies| - 1].Err?)
  {
    PlanIs(cache, call);
    var start := Prepared(cache, call.mode);
    ScanIsItsReplies(net, ingest, FloorOf(cache, call), k, None, start.lastRound, start.entries);
    RepliesFollow(net.Pages(FloorOf(cache, call)), net.horizon, k, None);
  }

  /**
   What it leaves: what the pages brought is added to the entries, which a rebuild empties first. If it
   succeeds it is stamped with its time and watermarked at the greatest round it saw; if it fails the
   stamp is the old one, and so is the watermark, which a rebuild has set to zero.
   */
  lemma CallLeaves<T>(net: Network, ingest: Ingest<T>, cache: Cache<T>, call: Call, k: nat)
    requires !FromCache(cache, call)
    ensures var o := Fetch(net, ingest, cache, call, k);
            var replies := ScanReplies(net, FloorOf(cache, call), k);
            var rebuilds := call.mode.ForceFull?;
            var watermark := if rebuilds then 0 else cache.lastRound;
            && o.cache.entries == (if rebuilds then [] else cache.entries) + FilterMap(RowsOf(replies), ingest)
            && o.cache.lastUpdated == (if o.ok then call.now else cache.lastUpdated)
            && if o.ok then Greatest(o.cache.lastRound, watermark, replies) else o.cache.lastRound == watermark
  {
    PlanIs(cache, call);
    var start := Prepared(cache, call.mode);
    ScanIsItsReplies(net, ingest, FloorOf(cache, call), k, None, start.lastRound, start.entries);
    ScanWatermark(net, ingest, FloorOf(cache, call), k, None, start.lastRound, start.entries);
  }

  /** When everything is accepted, each row gives one entry, in order. */
  lemma {:induction false} KeptInOrder<T>(txns: seq<ScannedTxn>, ingest: Ingest<T>)
    requires forall txn :: txn in txns ==> ingest(txn).Some?
    ensures |FilterMap(txns, ingest)| == |txns|
    ensures forall i :: 0 <= i < |txns| ==> FilterMap(txns, ingest)[i] == ingest(txns[i]).value
  {
    if txns != [] {
      var last := |txns| - 1;
      assert forall txn :: txn in txns[..last] ==> txn in txns;
      assert txns[last] in txns;
      KeptInOrder(txns[..last], ingest);
    }
  }

  /** What is not accepted leaves no trace. */
  lemma DroppedWithoutTrace<T>(before: seq<ScannedTxn>, txn: ScannedTxn, after: seq<ScannedTxn>,
                               ingest: Ingest<T>)
    requires ingest(txn).None?
    ensures FilterMap(before + [txn] + after, ingest) == FilterMap(before + after, ingest)
  {
    FilterMapAppend(before + [txn], after, ingest);
    FilterMapAppend(before, [txn], ingest);
    FilterMapAppend(before, after, ingest);
    assert FilterMap([txn], ingest) == [];
  }

  // ----- exactness

  ghost predicate Accepts<T>(ingest: Ingest<T>, rows: seq<ScannedTxn>) {
    exists txn :: txn in rows && ingest(txn).Some?
  }

  /** Some page brought something to keep. */
  ghost predicate Brings<T>(ingest: Ingest<T>, replies: seq<Reply>) {
    exists reply :: reply in replies && reply.Ok? && Accepts(ingest, reply.value.rows)
  }

  lemma {:induction false} NothingAccepted<T>(replies: seq<Reply>, ingest: Ingest<T>)
    ensures FilterMap(RowsOf(replies), ingest) == [] <==> !Brings(ingest, replies)
  {
    if replies != [] {
      var first, rest := replies[0], replies[1..];
      var rows := if first.Ok? then first.value.rows else [];
      NothingAccepted(rest, ingest);
      FilterMapAppend(rows, RowsOf(rest), ingest);
      NothingKept(rows, ingest);
      assert FilterMap(RowsOf(replies), ingest) == []
        <==> FilterMap(rows, ingest) == [] && FilterMap(RowsOf(rest), ingest) == [];
      assert forall reply :: reply in replies <==> reply == first || reply in rest;
    }
  }

  lemma NothingKept<T>(rows: seq<ScannedTxn>, ingest: Ingest<T>)
    ensures FilterMap(rows, ingest) == [] <==> !Accepts(ingest, rows)
  {
    var kept := FilterMap(rows, ingest);
    if kept != [] {
      assert kept[0] in kept;
      InFilterMap(rows, ingest, kept[0]);
    }
    if txn :| txn in rows && ingest(txn).Some? {
      InFilterMap(rows, ingest, ingest(txn).value);
    }
  }

  /** A stamp of zero counts as none: the call scans from round 1 and keeps what the cache holds. */
  predicate Restarts<T>(cache: Cache<T>, call: Call) {
    call.mode.Refresh? && cache.lastUpdated == 0
  }

  /**
   A call that brings something to keep, and then breaks off (its last request fails), or brings it to a
   cache that holds entries without a stamp.
   */
  ghost predicate Spoils<T>(net: Network, ingest: Ingest<T>, cache: Cache<T>, call: Call, k: nat) {
    !FromCache(cache, call) &&
    var replies := ScanReplies(net, FloorOf(cache, call), k);
    && replies != [] && Brings(ingest, replies)
    && (replies[|replies| - 1].Err? || (Restarts(cache, call) && cache.entries != []))
  }

  /** Exact, or with entries pushed twice: more of them than the ledger has. */
  ghost predicate ExactOrMore<T>(chain: Chain, ingest: Ingest<T>, cache: Cache<T>) {
    Exact(chain, ingest, cache) || |cache.entries| > |Image(chain, ingest, cache.lastRound)|
  }

  /** A call leaves an exact cache if and only if it spoils nothing and rebuilds, or is given an exact one. */
  lemma ExactAfterCall<T>(net: Network, chain: Chain, ingest: Ingest<T>, cache: Cache<T>, call: Call, k: nat)
    requires Honest(net, chain) && Reached(chain, cache, k)
    requires ExactOrMore(chain, ingest, cache)
    ensures var o := Fetch(net, ingest, cache, call, k);
            && (Exact(chain, ingest, o.cache)
                <==> (call.mode.ForceFull? || Exact(chain, ingest, cache)) && !Spoils(net, ingest, cache, call, k))
            && ExactOrMore(chain, ingest, o.cache)
            && o.clock >= k && Reached(chain, o.cache, o.clock)
  {
    if Plan(cache, call).Some? {
      var o := Fetch(net, ingest, cache, call, k);
      var start, end := Prepared(cache, call.mode), chain.roundAt(o.clock - 1);
      var added := CallPushes(net, chain, ingest, cache, call, k);
      var brought := CallBrings(net, ingest, cache, call, k);
      SameSuffix(start.entries, brought, added);
      assert chain.roundAt(k) <= end <= chain.roundAt(o.clock);
      ImageExtends(chain, ingest, start.lastRound, end);
      PushedIsExact(start.entries, Image(chain, ingest, start.lastRound), added,
                    FilterMap(Between(chain.ledger, FirstRound(Plan(cache, call).value), end), ingest),
                    o.ok, Restarts(cache, call));
    }
  }

  /** Whether a call spoils the cache, by what it pushes. */
  lemma CallBrings<T>(net: Network, ingest: Ingest<T>, cache: Cache<T>, call: Call, k: nat) returns (added: seq<T>)
    requires Plan(cache, call).Some?
    ensures var o := Fetch(net, ingest, cache, call, k);
            && o.cache.entries == Prepared(cache, call.mode).entries + added
            && (Spoils(net, ingest, cache, call, k)
                <==> added != [] && (!o.ok || (Restarts(cache, call) && cache.entries != [])))
  {
    PlanIs(cache, call);
    var start, floor := Prepared(cache, call.mode), FloorOf(cache, call);
    ScanIsItsReplies(net, ingest, floor, k, None, start.lastRound, start.entries);
    added := FilterMap(RowsOf(ScanReplies(net, floor, k)), ingest);
    NothingAccepted(ScanReplies(net, floor, k), ingest);
  }

  /** What a call pushes: on success the rest of the ledger, or all of it if it restarts. */
  lemma CallPushes<T>(net: Network, chain: Chain, ingest: Ingest<T>, cache: Cache<T>, call: Call, k: nat)
    returns (added: seq<T>)
    requires Honest(net, chain) && Reached(chain, cache, k) && Plan(cache, call).Some?
    ensures var o := Fetch(net, ingest, cache, call, k);
            var start := Prepared(cache, call.mode);
            && o.clock > k
            && o.cache.entries == start.entries + added
            && FirstRound(Plan(cache, call).value) == (if Restarts(cache, call) then 1 else start.lastRound + 1)
            && (o.ok ==>
                  && added == FilterMap(Between(chain.ledger, FirstRound(Plan(cache, call).value), o.cache.lastRound),
                                        ingest)
                  && o.cache.lastRound == chain.roundAt(o.clock - 1))
            && (!o.ok ==> o.cache.lastRound == start.lastRound)
  {
    var rows := FetchDelivers(net, chain, ingest, cache, call, k);
    added := FilterMap(rows, ingest);
  }

  lemma SameSuffix<T>(s: seq<T>, x: seq<T>, y: seq<T>)
    requires s + x == s + y
    ensures x == y
  {
    assert x == (s + x)[|s|..] == (s + y)[|s|..] == y;
  }

  /**
   Pushing all of a piece keeps entries equal to an image, or longer; pushing less makes them longer, and
   so does pushing an image that starts `again` on top of entries.
   */
  lemma PushedIsExact<T>(start: seq<T>, image: seq<T>, added: seq<T>, piece: seq<T>, ok: bool, again: bool)
    requires start == image || |start| > |image|
    requires ok ==> added == piece
    requires again ==> |image| <= |piece|
    ensures var image' := if !ok then image else if again then piece else image + piece;
            && (start + added == image'
                <==> start == image && !(added != [] && (!ok || (again && start != []))))
            && (start + added == image' || |start + added| > |image'|)
  {
    assert start + [] == start && [] + piece == piece;
  }

  /** Call `i` of a run spoils the cache. */
  ghost predicate SpoilsAt<T>(net: Network, ingest: Ingest<T>, calls: seq<Call>, k: nat, i: nat)
    requires i < |calls|
  {
    var before := Run(net, ingest, Empty(), calls[..i], k);
    Spoils(net, ingest, before.cache, calls[i], before.clock)
  }

  /** Some call has spoilt the cache, and no `ForceFull` has come after it. */
  ghost predicate Spoilt<T>(net: Network, ingest: Ingest<T>, calls: seq<Call>, k: nat) {
    exists i :: 0 <= i < |calls| && SpoilsAt(net, ingest, calls, k, i)
                && forall j :: i < j < |calls| ==> !calls[j].mode.ForceFull?
  }

  lemma SpoiltByLast<T>(net: Network, ingest: Ingest<T>, calls: seq<Call>, k: nat)
    requires calls != []
    ensures var last := |calls| - 1;
            Spoilt(net, ingest, calls, k)
            <==> SpoilsAt(net, ingest, calls, k, last)
                 || (!calls[last].mode.ForceFull? && Spoilt(net, ingest, calls[..last], k))
  {
    var last := |calls| - 1;
    var before := calls[..last];
    forall i | 0 <= i < last
      ensures SpoilsAt(net, ingest, calls, k, i) <==> SpoilsAt(net, ingest, before, k, i)
    {
      assert calls[..i] == before[..i];
    }
  }

  /** A run is its last call after the others. */
  lemma {:induction false} RunLast<T>(net: Network, ingest: Ingest<T>, cache: Cache<T>, calls: seq<Call>, k: nat)
    requires calls != []
    ensures var before := Run(net, ingest, cache, calls[..|calls| - 1], k);
            var o := Fetch(net, ingest, before.cache, calls[|calls| - 1], before.clock);
            Run(net, ingest, cache, calls, k) == Outcome(o.cache, o.clock, true)
    decreases |calls|
  {
    var o := Fetch(net, ingest, cache, calls[0], k);
    if |calls| == 1 {
      assert Run(net, ingest, o.cache, calls[1..], o.clock) == Outcome(o.cache, o.clock, true);
    } else {
      RunLast(net, ingest, o.cache, calls[1..], o.clock);
      assert calls[1..][..|calls| - 2] == calls[..|calls| - 1][1..];
    }
  }

  lemma {:induction false} RunIsExactUnlessSpoilt<T>(net: Network, chain: Chain, ingest: Ingest<T>, calls: seq<Call>,
                                                     k: nat)
    requires Honest(net, chain)
    ensures var o := Run(net, ingest, Empty(), calls, k);
            && Reached(chain, o.cache, o.clock)
            && ExactOrMore(chain, ingest, o.cache)
            && (Exact(chain, ingest, o.cache) <==> !Spoilt(net, ingest, calls, k))
    decreases |calls|
  {
    if calls != [] {
      var last := |calls| - 1;
      RunIsExactUnlessSpoilt(net, chain, ingest, calls[..last], k);
      var before := Run(net, ingest, Empty(), calls[..last], k);
      ExactAfterCall(net, chain, ingest, before.cache, calls[last], before.clock);
      RunLast(net, ingest, Empty(), calls, k);
      SpoiltByLast(net, ingest, calls, k);
    }
  }

  /**
   After any calls, the entries are exactly the accepted ledger through the watermark, in ledger order
   and without repeats, if and only if no call has spoilt them since the last `ForceFull`, that one
   included.
   */
  lemma Exactness<T>(net: Network, chain: Chain, ingest: Ingest<T>, calls: seq<Call>, k: nat)
    requires Honest(net, chain)
    ensures var cache := Run(net, ingest, Empty(), calls, k).cache;
            cache.entries == FilterMap(Between(chain.ledger, 1, cache.lastRound), ingest)
            <==> !Spoilt(net, ingest, calls, k)
  {
    RunIsExactUnlessSpoilt(net, chain, ingest, calls, k);
  }

  /** A call breaks off: its last request fails, after an earlier one brought something to keep. */
  ghost predicate BreaksOff<T>(net: Network, ingest: Ingest<T>, cache: Cache<T>, call: Call, k: nat) {
    !FromCache(cache, call) &&
    var replies := ScanReplies(net, FloorOf(cache, call), k);
    replies != [] && Brings(ingest, replies) && replies[|replies| - 1].Err?
  }

  /** No call of a run breaks off, and every one comes after the epoch. */
  ghost predicate CleanRun<T>(net: Network, ingest: Ingest<T>, calls: seq<Call>, k: nat) {
    forall i :: 0 <= i < |calls| ==>
      var before := Run(net, ingest, Empty(), calls[..i], k);
      calls[i].now > 0 && !BreaksOff(net, ingest, before.cache, calls[i], before.clock)
  }

  /** In a clean run, a cache without a stamp is empty, so nothing is pushed on top of anything. */
  lemma {:induction false} CleanRunIsNotSpoilt<T>(net: Network, ingest: Ingest<T>, calls: seq<Call>, k: nat)
    requires CleanRun(net, ingest, calls, k)
    ensures var cache := Run(net, ingest, Empty(), calls, k).cache; cache.lastUpdated == 0 ==> cache.entries == []
    ensures !Spoilt(net, ingest, calls, k)
    decreases |calls|
  {
    if calls != [] {
      var last := |calls| - 1;
      forall i | 0 <= i < last ensures calls[..last][..i] == calls[..i] {
      }
      CleanRunIsNotSpoilt(net, ingest, calls[..last], k);
      SpoiltByLast(net, ingest, calls, k);
      RunLast(net, ingest, Empty(), calls, k);
      var before := Run(net, ingest, Empty(), calls[..last], k);
      if Plan(before.cache, calls[last]).Some? {
        var added := CallBrings(net, ingest, before.cache, calls[last], before.clock);
      }
    }
  }

  /** In particular, the entries are exact on every clean run. */
  lemma CleanRunsAreExact<T>(net: Network, chain: Chain, ingest: Ingest<T>, calls: seq<Call>, k: nat)
    requires Honest(net, chain) && CleanRun(net, ingest, calls, k)
    ensures var cache := Run(net, ingest, Empty(), calls, k).cache;
            cache.entries == FilterMap(Between(chain.ledger, 1, cache.lastRound), ingest)
  {
    CleanRunIsNotSpoilt(net, ingest, calls, k);
    Exactness(net, chain, ingest, calls, k);
  }

  /** Whatever happened before, one `ForceFull` that succeeds makes the cache exact again. */
  lemma ForceFullRestores<T>(net: Network, chain: Chain, ingest: Ingest<T>, cache: Cache<T>, call: Call, k: nat)
    requires Honest(net, chain) && Reached(chain, cache, k)
    requires call.mode.ForceFull? && Fetch(net, ingest, cache, call, k).ok
    ensures Exact(chain, ingest, Fetch(net, ingest, cache, call, k).cache)
  {
    var added := FetchDelivers(net, chain, ingest, cache, call, k);
  }

  /**
   After a call that succeeded at a time after the epoch, a refresh asks nothing of the network if and
   only if it comes within its lifetime of that call; then the cache stays as it is.
   */
  lemma FreshRefreshIsFree<T>(net: Network, ingest: Ingest<T>, cache: Cache<T>, call: Call, k: nat, refresh: Call)
    requires call.now > 0 && !FromCache(cache, call) && Fetch(net, ingest, cache, call, k).ok
    requires refresh.mode.Refresh? && refresh.now >= call.now
    ensures var o := Fetch(net, ingest, cache, call, k);
            && (Fetch(net, ingest, o.cache, refresh, o.clock) == Outcome(o.cache, o.clock, true)
                <==> refresh.lifetime.Some? && refresh.now < call.now + refresh.lifetime.value)
  {
    var o := Fetch(net, ingest, cache, call, k);
    if Plan(o.cache, refresh).Some? {
      var floor := Plan(o.cache, refresh).value;
      assert Scan(net, ingest, floor, o.clock, None, o.cache.lastRound, o.cache.entries).clock > o.clock;
    }
  }

  /**
   A `ForceFull` that fails has dropped the entries but kept the old stamp, so a refresh within the old
   stamp's lifetime still counts the cache as fresh and asks nothing; any other starts from round 1.
   */
  lemma FailedRebuildKeepsStamp<T>(net: Network, ingest: Ingest<T>, cache: Cache<T>, call: Call, k: nat, refresh: Call)
    requires call.mode.ForceFull? && !Fetch(net, ingest, cache, call, k).ok && refresh.mode.Refresh?
    ensures var o := Fetch(net, ingest, cache, call, k);
            && o.cache.lastRound == 0 && o.cache.lastUpdated == cache.lastUpdated
            && (FromCache(o.cache, refresh) <==> FromCache(cache, refresh))
            && (!FromCache(o.cache, refresh) ==> FirstRound(FloorOf(o.cache, refresh)) == 1)
  {
  }

  /**
   For example: a rebuild at 110 of a cache stamped at 100 fails, and a refresh at 120 with a lifetime
   of a minute succeeds without a request, on a cache that holds nothing.
   */
  lemma FailedRebuildLooksFresh(net: Network)
    requires net.horizon == 0
    ensures var cache := Cache([1], 5, 100);
            var o := Fetch(net, ROUND_OF, cache, Call(ForceFull, None, 110), 0);
            && !o.ok && o.cache == Cache([], 0, 100)
            && Fetch(net, ROUND_OF, o.cache, Call(Refresh, Some(60), 120), o.clock) == Outcome(o.cache, o.clock, true)
  {
    var cache := Cache([1], 5, 100);
    assert net.Page(0, None, None).Err?;
    assert Scan(net, ROUND_OF, None, 0, None, 0, []) == Scanned([], 1, None);
  }

  const ROUND_OF: Ingest<int> := (txn: ScannedTxn) => Some(txn.confirmedRound)

  const ONLY_TXN := ScannedTxn(1, "A", None)

  /** An indexer that holds one transaction and does not answer request 1. */
  function OneOutage(k: nat, floor: Option<Round>, token: Option<Token>): Result<RowPage<ScannedTxn>, NetError> {
    if k == 1 then Err(NetError("unreachable"))
    else if token.None? && FirstRound(floor) <= 1 then Ok(RowPage([ONLY_TXN], Some("next"), 1))
    else Ok(RowPage([], None, 1))
  }

  /**
   Exactness does not survive a failure in the middle of a scan: the rows pushed before it stay, the
   watermark does not move, and the next refresh pushes them again.
   */
  lemma MidScanFailureRepeats() returns (net: Network, chain: Chain)
    ensures Honest(net, chain)
    ensures var call := Call(Refresh, None, 1);
            var cache := Run(net, ROUND_OF, Empty(), [call, call], 0).cache;
            && cache.entries == [1, 1]
            && Image(chain, ROUND_OF, cache.lastRound) == [1]
  {
    var txn := ONLY_TXN;
    chain := Chain((r: Round) => if r == 1 then [ONLY_TXN] else [], k => 1, (floor, t) => 1);
    net := Network(4, OneOutage);
    forall k: nat, floor: Option<Round>, token: Option<Token>
      ensures HonestPage(net.fetch, chain.cursor, chain.ledger, chain.roundAt, k, floor, token)
    {
      assert Between(chain.ledger, 0, -1) == [];
      assert Between(chain.ledger, 0, 0) == [];
      assert Between(chain.ledger, 1, 0) == [];
    }
    var ingest: Ingest<int> := ROUND_OF;
    assert FilterMap([txn][..0], ingest) == [];
    assert FilterMap([txn], ingest) == [1];
    assert Scan(net, ingest, None, 1, Some("next"), 1, [1]) == Scanned([1], 2, None);
    assert net.Page(0, None, None) == Ok(RowPage([txn], Some("next"), 1));
    assert net.Page(1, None, Some("next")).Err?;
    assert [] + FilterMap([txn], ingest) == [1];
    assert Scan(net, ingest, None, 0, None, 0, []) == Scanned([1], 2, None);
    assert Between(chain.ledger, 1, 1) == [txn];
    var call := Call(Refresh, None, 1);
    assert Fetch(net, ingest, Empty(), call, 0) == Outcome(Cache([1], 0, 0), 2, false);
    assert Scan(net, ingest, None, 3, Some("next"), 1, [1, 1]) == Scanned([1, 1], 4, Some(1));
    assert Scan(net, ingest, None, 2, None, 0, [1]) == Scanned([1, 1], 4, Some(1));
    assert Fetch(net, ingest, Cache([1], 0, 0), call, 2) == Outcome(Cache([1, 1], 1, 1), 4, true);
    assert Run(net, ingest, Cache([1, 1], 1, 1), [], 4).cache == Cache([1, 1], 1, 1);
    assert [call, call][1..] == [call] && [call][1..] == [];
  }
}
