/**
 The incremental account scan: an address-keyed set kept in step with local state that can change.
 A full scan is watermarked at the least round any of its pages reported; later refreshes discover
 the addresses touched past the watermark and re-read only those.
 */
module AccountScan {
  import opened Wrappers
  import opened Indexer

  /** A 32-byte key read as a number; the indexer pages accounts in ascending key order. */
  type Address = nat
  type LocalState = seq<(string, string)>

  datatype ScannedAccount = ScannedAccount(address: Address, localState: LocalState)

  type AccountPage = RowPage<ScannedAccount>

  type ChangedPage = RowPage<Address>

  /** A transaction: its sender, the accounts it references, and the ones it issued (none if absent). */
  datatype AppTxn = AppTxn(sender: Address, accounts: seq<Address>, inner: seq<AppTxn>)

  /** Whether a transaction, or one it issued at any depth, names the address. */
  ghost predicate Touches(txn: AppTxn, a: Address) {
    || txn.sender == a
    || a in txn.accounts
    || exists i :: 0 <= i < |txn.inner| && Touches(txn.inner[i], a)
  }

  /** The addresses of a transaction, in the order they are collected. */
  function Touched(txn: AppTxn): seq<Address> {
    [txn.sender] + txn.accounts + TouchedByAll(txn.inner)
  }

  function TouchedByAll(txns: seq<AppTxn>): seq<Address> {
    if txns == [] then [] else Touched(txns[0]) + TouchedByAll(txns[1..])
  }

  /** Collecting finds exactly the addresses the transaction tree names. */
  lemma {:induction false} TouchedIsTouches(txn: AppTxn, a: Address)
    ensures a in Touched(txn) <==> Touches(txn, a)
  {
    TouchedByAllIsTouches(txn.inner, a);
  }

  lemma {:induction false} TouchedByAllIsTouches(txns: seq<AppTxn>, a: Address)
    ensures a in TouchedByAll(txns) <==> exists i :: 0 <= i < |txns| && Touches(txns[i], a)
  {
    if txns != [] {
      TouchedIsTouches(txns[0], a);
      TouchedByAllIsTouches(txns[1..], a);
      assert forall i :: 0 < i < |txns| ==> txns[i] == txns[1..][i - 1];
    }
  }

  lemma {:induction false} TouchedByAllAppend(a: seq<AppTxn>, b: seq<AppTxn>)
    ensures TouchedByAll(a + b) == TouchedByAll(a) + TouchedByAll(b)
  {
    if a == [] {
      assert a + b == b;
    } else {
      TouchedByAllAppend(a[1..], b);
      assert (a + b)[0] == a[0] && (a + b)[1..] == a[1..] + b;
      SeqAssoc(Touched(a[0]), TouchedByAll(a[1..]), TouchedByAll(b));
    }
  }

  lemma TouchedByNext(txns: seq<AppTxn>, i: nat)
    requires i < |txns|
    ensures TouchedByAll(txns[..i + 1]) == TouchedByAll(txns[..i]) + Touched(txns[i])
  {
    assert txns[..i + 1] == txns[..i] + [txns[i]];
    TouchedByAllAppend(txns[..i], [txns[i]]);
    assert TouchedByAll([txns[i]]) == Touched(txns[i]) + [];
  }

  /** Append a transaction's addresses to `out`. */
  method CollectChangedAddresses(txn: AppTxn, out: seq<Address>) returns (out': seq<Address>)
    ensures out' == out + Touched(txn)
    decreases txn
  {
    out' := out + [txn.sender];
    for i := 0 to |txn.accounts|
      invariant out' == out + ([txn.sender] + txn.accounts[..i])
    {
      out' := out' + [txn.accounts[i]];
    }
    assert txn.accounts[..|txn.accounts|] == txn.accounts;
    ghost var before := out';
    for i := 0 to |txn.inner|
      invariant out' == before + TouchedByAll(txn.inner[..i])
    {
      out' := CollectChangedAddresses(txn.inner[i], out');
      TouchedByNext(txn.inner, i);
      SeqAssoc(before, TouchedByAll(txn.inner[..i]), Touched(txn.inner[i]));
    }
    assert txn.inner[..|txn.inner|] == txn.inner;
    SeqAssoc(out, [txn.sender] + txn.accounts, TouchedByAll(txn.inner));
  }

  /** The three injected fetchers. Requests numbered `horizon` and later are never answered. */
  datatype Network = Network(
    horizon: nat,
    full: (nat, Option<Token>) -> Result<AccountPage, NetError>,
    changed: RowFetcher<AppTxn>,
    lookup: (nat, Address) -> Result<Option<ScannedAccount>, NetError>)
  {
    function FullPage(k: nat, token: Option<Token>): Result<AccountPage, NetError> {
      if k < horizon then full(k, token) else Err(NetError("no reply"))
    }

    function Changed(k: nat, minRound: Round, token: Option<Token>): Result<ChangedPage, NetError> {
      if k >= horizon then Err(NetError("no reply")) else
      match changed(k, Some(minRound), token)
      case Err(e) => Err(e)
      case Ok(page) => Ok(RowPage(TouchedByAll(page.rows), page.nextToken, page.currentRound))
    }

    function Lookup(k: nat, a: Address): Result<Option<ScannedAccount>, NetError> {
      if k < horizon then lookup(k, a) else Err(NetError("no reply"))
    }

    /** The requests of one full scan, and of one discovery. */
    function FullPages(): Pager<ScannedAccount> {
      (k: nat, token: Option<Token>) => FullPage(k, token)
    }

    function ChangedPages(minRound: Round): Pager<Address> {
      (k: nat, token: Option<Token>) => Changed(k, minRound, token)
    }

    /** One change-discovery page, its addresses gathered transaction by transaction. */
    method FetchChangedAddressesPage(k: nat, minRound: Round, token: Option<Token>)
      returns (r: Result<ChangedPage, NetError>)
      ensures r == Changed(k, minRound, token)
    {
      if k >= horizon {
        return Err(NetError("no reply"));
      }
      var reply := changed(k, Some(minRound), token);
      match reply {
        case Err(e) => r := Err(e);
        case Ok(page) =>
          var addresses := [];
          for i := 0 to |page.rows|
            invariant addresses == TouchedByAll(page.rows[..i])
          {
            addresses := CollectChangedAddresses(page.rows[i], addresses);
            TouchedByNext(page.rows, i);
          }
          assert page.rows[..|page.rows|] == page.rows;
          r := Ok(RowPage(addresses, page.nextToken, page.currentRound));
      }
    }
  }

  type Ingest<!T> = ScannedAccount -> Option<T>

  type Entries<+T> = seq<(Address, T)>

  /** What the cache holds for an address. */
  function Entry<T>(entries: Entries<T>, a: Address): Option<T> {
    if entries == [] then None
    else if entries[0].0 == a then Some(entries[0].1)
    else Entry(entries[1..], a)
  }

  function Keys<T>(entries: Entries<T>): (keys: seq<Address>)
    ensures |keys| == |entries| && forall i :: 0 <= i < |keys| ==> keys[i] == entries[i].0
  {
    if entries == [] then [] else [entries[0].0] + Keys(entries[1..])
  }

  ghost predicate NoRepeats(keys: seq<Address>) {
    forall i, j :: 0 <= i < j < |keys| ==> keys[i] != keys[j]
  }

  /** Replace the first entry of the address in place, or add one at the end. */
  function Upsert<T>(entries: Entries<T>, a: Address, e: T): (r: Entries<T>)
    ensures forall b :: Entry(r, b) == if b == a then Some(e) else Entry(entries, b)
    ensures Keys(r) == if a in Keys(entries) then Keys(entries) else Keys(entries) + [a]
  {
    if entries == [] then [(a, e)]
    else if entries[0].0 == a then [(a, e)] + entries[1..]
    else [entries[0]] + Upsert(entries[1..], a, e)
  }

  /** Keep the entries of every other address. */
  function Remove<T>(entries: Entries<T>, a: Address): (r: Entries<T>)
    ensures forall b :: Entry(r, b) == if b == a then None else Entry(entries, b)
    ensures NoRepeats(Keys(entries)) ==> NoRepeats(Keys(r))
    ensures forall b :: b in Keys(r) ==> b in Keys(entries)
  {
    if entries == [] then []
    else if entries[0].0 == a then Remove(entries[1..], a)
    else
      var rest := Remove(entries[1..], a);
      assert NoRepeats(Keys(entries)) ==> NoRepeats(Keys(entries[1..])) && entries[0].0 !in Keys(entries[1..]);
      [entries[0]] + rest
  }

  /** What re-reading an address does to the entries. */
  function Reread<T>(entries: Entries<T>, a: Address, found: Option<ScannedAccount>, ingest: Ingest<T>): Entries<T> {
    match found
    case None => Remove(entries, a)
    case Some(account) =>
      match ingest(account)
      case Some(e) => Upsert(entries, a, e)
      case None => Remove(entries, a)
  }

  /** The entries one full-scan page contributes. */
  function Ingested<T>(accounts: seq<ScannedAccount>, ingest: Ingest<T>): Entries<T> {
    if accounts == [] then [] else
      var last := accounts[|accounts| - 1];
      Ingested(accounts[..|accounts| - 1], ingest)
      + match ingest(last) case Some(e) => [(last.address, e)] case None => []
  }

  /** The full-scan loop from request `k` on: the watermark is the least round of its pages. */
  function FullScan<T>(net: Network, ingest: Ingest<T>, k: nat, token: Option<Token>, watermark: Option<Round>,
                       entries: Entries<T>): (s: Scanned<(Address, T)>)
    ensures s.clock > k
    decreases net.horizon - k
  {
    match net.FullPage(k, token)
    case Err(_) => Scanned(entries, k + 1, None)
    case Ok(page) =>
      var watermark' := if watermark.Some? && watermark.value < page.currentRound then watermark.value
                        else page.currentRound;
      var entries' := entries + Ingested(page.rows, ingest);
      match page.nextToken
      case None => Scanned(entries', k + 1, Some(watermark'))
      case Some(t) => FullScan(net, ingest, k + 1, Some(t), Some(watermark'), entries')
  }

  /** Add the addresses not seen yet, in first-seen order. */
  function FirstSeen(changed: seq<Address>, addresses: seq<Address>): seq<Address> {
    if addresses == [] then changed else
      var before := FirstSeen(changed, addresses[..|addresses| - 1]);
      var last := addresses[|addresses| - 1];
      if last in before then before else before + [last]
  }

  /** The addresses touched from `minRound` on, watermarked at the greatest round of any page. */
  function Discover(net: Network, minRound: Round, k: nat, token: Option<Token>, watermark: Round,
                    changed: seq<Address>): (s: Scanned<Address>)
    ensures s.clock > k
    decreases net.horizon - k
  {
    match net.Changed(k, minRound, token)
    case Err(_) => Scanned(changed, k + 1, None)
    case Ok(page) =>
      var watermark' := if page.currentRound > watermark then page.currentRound else watermark;
      var changed' := FirstSeen(changed, page.rows);
      match page.nextToken
      case None => Scanned(changed', k + 1, Some(watermark'))
      case Some(t) => Discover(net, minRound, k + 1, Some(t), watermark', changed')
  }

  datatype Revisited<+T> = Revisited(entries: Entries<T>, clock: nat, ok: bool)

  /** Re-read the changed addresses one by one; a failed lookup keeps what was re-read before it. */
  function Revisit<T>(net: Network, ingest: Ingest<T>, k: nat, changed: seq<Address>, entries: Entries<T>)
    : (v: Revisited<T>)
    ensures v.clock >= k
    decreases |changed|
  {
    if changed == [] then Revisited(entries, k, true) else
    match net.Lookup(k, changed[0])
    case Err(_) => Revisited(entries, k + 1, false)
    case Ok(found) => Revisit(net, ingest, k + 1, changed[1..], Reread(entries, changed[0], found, ingest))
  }

  /** No request, a full scan (`Some(true)`), or an incremental refresh (`Some(false)`). */
  function Plan<T>(cache: Cache<(Address, T)>, call: Call): Option<bool> {
    match call.mode
    case CacheOnly => None
    case ForceFull => Some(true)
    case Refresh =>
      if cache.lastUpdated == 0 || cache.lastRound == 0 then Some(true)
      else if ScanCacheIsFresh(cache.lastUpdated, call.now, call.lifetime) then None
      else Some(false)
  }

  function Rebuild<T>(net: Network, ingest: Ingest<T>, start: Cache<(Address, T)>, now: nat, k: nat)
    : Outcome<(Address, T)>
  {
    var s := FullScan(net, ingest, k, None, None, []);
    match s.watermark
    case None => Outcome(start.(entries := s.entries), s.clock, false)
    case Some(w) => Outcome(Cache(s.entries, w, now), s.clock, true)
  }

  function Increment<T>(net: Network, ingest: Ingest<T>, start: Cache<(Address, T)>, now: nat, k: nat)
    : Outcome<(Address, T)>
  {
    var s := Discover(net, start.lastRound + 1, k, None, start.lastRound, []);
    match s.watermark
    case None => Outcome(start, s.clock, false)
    case Some(w) =>
      var v := Revisit(net, ingest, s.clock, s.entries, start.entries);
      if v.ok then Outcome(Cache(v.entries, w, now), v.clock, true)
      else Outcome(start.(entries := v.entries), v.clock, false)
  }

  function Fetch<T>(net: Network, ingest: Ingest<T>, cache: Cache<(Address, T)>, call: Call, k: nat)
    : Outcome<(Address, T)>
  {
    var start := Prepared(cache, call.mode);
    match Plan(cache, call)
    case None => Outcome(cache, k, true)
    case Some(true) => Rebuild(net, ingest, start, call.now, k)
    case Some(false) => Increment(net, ingest, start, call.now, k)
  }

  /** What a caller does to its cache: refresh it, or clear it. */
  datatype Step = Refreshed(call: Call) | Cleared

  /** The cache after a sequence of steps, whatever each one returned. */
  function Run<T>(net: Network, ingest: Ingest<T>, cache: Cache<(Address, T)>, steps: seq<Step>, k: nat)
    : Outcome<(Address, T)>
    decreases |steps|
  {
    if steps == [] then Outcome(cache, k, true) else
    match steps[0]
    case Cleared => Run(net, ingest, Empty(), steps[1..], k)
    case Refreshed(call) =>
      var o := Fetch(net, ingest, cache, call, k);
      Run(net, ingest, o.cache, steps[1..], o.clock)
  }

  /** The caller-owned cache, refreshed in place. */
  class AccountScanCache<T> {
    var entries: Entries<T>
    var lastRound: Round
    var lastUpdated: nat

    function Value(): Cache<(Address, T)>
      reads this
    {
      Cache(entries, lastRound, lastUpdated)
    }

    constructor ()
      ensures Value() == Empty()
    {
      entries, lastRound, lastUpdated := [], 0, 0;
    }

    method Clear()
      modifies this
      ensures Value() == Empty()
    {
      entries, lastRound, lastUpdated := [], 0, 0;
    }

    method FetchOptedInAccountsCachedWith(net: Network, ingest: Ingest<T>, call: Call, k: nat)
      returns (r: Result<(), NetError>, clock: nat)
      modifies this
      ensures Outcome(Value(), clock, r.Ok?) == Fetch(net, ingest, old(Value()), call, k)
    {
      clock := k;
      var scan: Option<bool> := None;
      match call.mode {
        case CacheOnly =>
        case ForceFull =>
          entries, lastRound := [], 0;
          scan := Some(true);
        case Refresh =>
          if lastUpdated == 0 || lastRound == 0 {
            scan := Some(true);
          } else if !ScanCacheIsFresh(lastUpdated, call.now, call.lifetime) {
            scan := Some(false);
          }
      }
      match scan {
        case None => r := Ok(());
        case Some(true) => r, clock := ScanAll(net, ingest, call.now, k);
        case Some(false) => r, clock := RevisitChanged(net, ingest, call.now, k);
      }
    }

    method ScanAll(net: Network, ingest: Ingest<T>, now: nat, k: nat) returns (r: Result<(), NetError>, clock: nat)
      modifies this
      ensures Outcome(Value(), clock, r.Ok?) == Rebuild(net, ingest, old(Value()), now, k)
    {
      clock := k;
      entries := [];
      var watermark: Option<Round> := None;
      var next: Option<Token> := None;
      while true
        invariant k <= clock
        invariant lastRound == old(lastRound) && lastUpdated == old(lastUpdated)
        invariant FullScan(net, ingest, k, None, None, []) == FullScan(net, ingest, clock, next, watermark, entries)
        decreases net.horizon - clock
      {
        var reply := net.FullPage(clock, next);
        clock := clock + 1;
        if reply.Err? {
          return Err(reply.error), clock;
        }
        var page := reply.value;
        watermark := Some(match watermark
                          case Some(w) => (if w < page.currentRound then w else page.currentRound)
                          case None => page.currentRound);
        PushAll(page.rows, ingest);
        match page.nextToken {
          case Some(token) => next := Some(token);
          case None => break;
        }
      }
      lastRound := UnwrapOr(watermark, lastRound);
      lastUpdated := now;
      r := Ok(());
    }

    method PushAll(accounts: seq<ScannedAccount>, ingest: Ingest<T>)
      modifies this`entries
      ensures entries == old(entries) + Ingested(accounts, ingest)
    {
      for i := 0 to |accounts|
        invariant entries == old(entries) + Ingested(accounts[..i], ingest)
      {
        assert accounts[..i + 1][..i] == accounts[..i];
        var entry := ingest(accounts[i]);
        if entry.Some? {
          entries := entries + [(accounts[i].address, entry.value)];
        }
      }
      assert accounts[..|accounts|] == accounts;
    }

    method DiscoverChanged(net: Network, minRound: Round, k: nat)
      returns (r: Result<Round, NetError>, clock: nat, changed: seq<Address>)
      ensures Scanned(changed, clock, if r.Ok? then Some(r.value) else None)
           == Discover(net, minRound, k, None, lastRound, [])
    {
      clock := k;
      var watermark: Round := lastRound;
      var next: Option<Token> := None;
      var seen: set<Address> := {};
      changed := [];
      while true
        invariant k <= clock
        invariant forall a :: a in seen <==> a in changed
        invariant Discover(net, minRound, k, None, lastRound, [])
               == Discover(net, minRound, clock, next, watermark, changed)
        decreases net.horizon - clock
      {
        var reply := net.FetchChangedAddressesPage(clock, minRound, next);
        clock := clock + 1;
        if reply.Err? {
          return Err(reply.error), clock, changed;
        }
        var page := reply.value;
        watermark := if page.currentRound > watermark then page.currentRound else watermark;
        seen, changed := AddUnseen(seen, changed, page.rows);
        match page.nextToken {
          case Some(token) => next := Some(token);
          case None => break;
        }
      }
      r := Ok(watermark);
    }

    /** `seen` holds the members of `changed`, which keeps the order they came in. */
    static method AddUnseen(seen: set<Address>, changed: seq<Address>, addresses: seq<Address>)
      returns (seen': set<Address>, changed': seq<Address>)
      requires forall a :: a in seen <==> a in changed
      ensures changed' == FirstSeen(changed, addresses)
      ensures forall a :: a in seen' <==> a in changed'
    {
      seen', changed' := seen, changed;
      for i := 0 to |addresses|
        invariant changed' == FirstSeen(changed, addresses[..i])
        invariant forall a :: a in seen' <==> a in changed'
      {
        assert addresses[..i + 1][..i] == addresses[..i];
        if addresses[i] !in seen' {
          seen' := seen' + {addresses[i]};
          changed' := changed' + [addresses[i]];
        }
      }
      assert addresses[..|addresses|] == addresses;
    }

    method RereadAll(net: Network, ingest: Ingest<T>, k: nat, changed: seq<Address>)
      returns (r: Result<(), NetError>, clock: nat)
      modifies this`entries
      ensures Revisited(entries, clock, r.Ok?) == Revisit(net, ingest, k, changed, old(entries))
    {
      clock := k;
      for i := 0 to |changed|
        invariant Revisit(net, ingest, k, changed, old(entries)) == Revisit(net, ingest, clock, changed[i..], entries)
      {
        var reply := net.Lookup(clock, changed[i]);
        clock := clock + 1;
        if reply.Err? {
          return Err(reply.error), clock;
        }
        entries := Reread(entries, changed[i], reply.value, ingest);
        assert changed[i..][1..] == changed[i + 1..];
      }
      r := Ok(());
    }

    method RevisitChanged(net: Network, ingest: Ingest<T>, now: nat, k: nat)
      returns (r: Result<(), NetError>, clock: nat)
      modifies this
      ensures Outcome(Value(), clock, r.Ok?) == Increment(net, ingest, old(Value()), now, k)
    {
      ghost var start := Value();
      var discovered, clock', changed := DiscoverChanged(net, lastRound + 1, k);
      ghost var s := Discover(net, start.lastRound + 1, k, None, start.lastRound, []);
      assert s == Scanned(changed, clock', if discovered.Ok? then Some(discovered.value) else None);
      if discovered.Err? {
        return Err(discovered.error), clock';
      }
      r, clock := RereadAll(net, ingest, clock', changed);
      assert Revisited(entries, clock, r.Ok?) == Revisit(net, ingest, s.clock, s.entries, start.entries);
      if r.Ok? {
        lastRound, lastUpdated := discovered.value, now;
      }
    }
  }
}
