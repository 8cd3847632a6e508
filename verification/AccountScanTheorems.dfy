/**
 The account cache against a chain whose state keeps changing: after any history of refreshes, failed
 ones included, every address is held as of one round the indexer reached, no earlier than the
 watermark; and once the chain is quiet, refreshing and rebuilding give the same set.
 */
module AccountScanTheorems {
  import opened Wrappers
  import opened Indexer
  import opened AccountScan

  /** `state(r, a)` is the local state of `a` after round `r`; `mark` is the first address a token has left. */
  datatype Chain = Chain(
    ledger: Round -> seq<AppTxn>,
    state: (Round, Address) -> Option<LocalState>,
    roundAt: nat -> Round,
    cursor: Cursor,
    mark: Token -> Address)

  /** Local state changes only in a round with a transaction that touches the address. */
  ghost predicate ChangesAreTouched(chain: Chain, r: Round, a: Address) {
    chain.state(r + 1, a) == chain.state(r, a) || a in TouchedByAll(chain.ledger(r + 1))
  }

  function Low(chain: Chain, token: Option<Token>): Address {
    match token
    case None => 0
    case Some(t) => chain.mark(t)
  }

  predicate Below(chain: Chain, a: Address, token: Option<Token>) {
    token.Some? ==> a < chain.mark(token.value)
  }

  function Addresses(accounts: seq<ScannedAccount>): seq<Address> {
    seq(|accounts|, i requires 0 <= i < |accounts| => accounts[i].address)
  }

  /** A full-scan page holds each opted-in account of the next address interval, as of its own round. */
  ghost predicate HonestFullPage(chain: Chain, page: AccountPage, round: Round, token: Option<Token>) {
    && page.currentRound == round
    && (page.nextToken.Some? ==> Low(chain, token) <= chain.mark(page.nextToken.value))
    && NoRepeats(Addresses(page.rows))
    && (forall i :: 0 <= i < |page.rows| ==>
          && Low(chain, token) <= page.rows[i].address && Below(chain, page.rows[i].address, page.nextToken)
          && chain.state(round, page.rows[i].address) == Some(page.rows[i].localState))
    && (forall a: Address :: Low(chain, token) <= a && Below(chain, a, page.nextToken) && chain.state(round, a).Some?
          ==> exists i :: 0 <= i < |page.rows| && page.rows[i].address == a)
  }

  ghost predicate HonestFull(net: Network, chain: Chain, k: nat, token: Option<Token>) {
    match net.full(k, token)
    case Err(_) => true
    case Ok(page) => HonestFullPage(chain, page, chain.roundAt(k), token)
  }

  ghost predicate HonestLookup(net: Network, chain: Chain, k: nat, a: Address) {
    match net.lookup(k, a)
    case Err(_) => true
    case Ok(None) => chain.state(chain.roundAt(k), a).None?
    case Ok(Some(account)) => account.address == a && chain.state(chain.roundAt(k), a) == Some(account.localState)
  }

  ghost predicate Honest(net: Network, chain: Chain) {
    && HonestScan(net.changed, chain.cursor, chain.ledger, chain.roundAt)
    && (forall k: nat, token: Option<Token> :: HonestFull(net, chain, k, token))
    && (forall k: nat, a: Address :: HonestLookup(net, chain, k, a))
    && (forall r: Round, a: Address :: ChangesAreTouched(chain, r, a))
  }

  /** What a reader of the state at round `r` would hold for an address. */
  function View<T>(chain: Chain, ingest: Ingest<T>, r: Round, a: Address): Option<T> {
    match chain.state(r, a)
    case None => None
    case Some(localState) => ingest(ScannedAccount(a, localState))
  }

  /** The entry of `a` (or its absence) is right as of some round from `lo` to `hi`. */
  ghost predicate AsOf<T>(chain: Chain, ingest: Ingest<T>, entries: Entries<T>, a: Address, lo: Round, hi: Round) {
    exists r: Round :: lo <= r <= hi && Entry(entries, a) == View(chain, ingest, r, a)
  }

  ghost predicate Snapshot<T>(chain: Chain, ingest: Ingest<T>, entries: Entries<T>, lo: Round, hi: Round) {
    forall a: Address :: AsOf(chain, ingest, entries, a, lo, hi)
  }

  /** The round of the last request before number `k`. */
  function Latest(chain: Chain, k: nat): Round {
    if k == 0 then 0 else chain.roundAt(k - 1)
  }

  lemma LatestGrows(chain: Chain, i: nat, j: nat)
    requires RoundsNeverDecrease(chain.roundAt) && i <= j
    ensures Latest(chain, i) <= Latest(chain, j) <= chain.roundAt(j)
    ensures i < j ==> chain.roundAt(i) <= Latest(chain, j)
  {
  }

  /** No address twice, and a watermark no later than the last request. */
  ghost predicate WellFormed<T>(chain: Chain, cache: Cache<(Address, T)>, k: nat) {
    && NoRepeats(Keys(cache.entries))
    && cache.lastRound <= Latest(chain, k)
  }

  ghost predicate Inv<T>(chain: Chain, ingest: Ingest<T>, cache: Cache<(Address, T)>, k: nat) {
    && WellFormed(chain, cache, k)
    && (cache.lastRound > 0 && cache.lastUpdated > 0
        ==> Snapshot(chain, ingest, cache.entries, cache.lastRound, Latest(chain, k)))
  }

  // ----- full scans

  lemma NoRepeatsAppend(x: seq<Address>, y: seq<Address>)
    ensures NoRepeats(x + y) <==> NoRepeats(x) && NoRepeats(y) && forall a :: a in x ==> a !in y
  {
    var xy := x + y;
    assert forall i :: 0 <= i < |x| ==> xy[i] == x[i];
    assert forall j :: |x| <= j < |xy| ==> xy[j] == y[j - |x|];
    if NoRepeats(xy) {
      forall i, j | 0 <= i < j < |y| ensures y[i] != y[j] {
        assert xy[|x| + i] != xy[|x| + j];
      }
      forall i, j | 0 <= i < |x| && 0 <= j < |y| ensures x[i] != y[j] {
        assert xy[i] != xy[|x| + j];
      }
    }
    if NoRepeats(x) && NoRepeats(y) && forall a :: a in x ==> a !in y {
      forall i, j | 0 <= i < j < |xy| ensures xy[i] != xy[j] {
        assert i < |x| ==> xy[i] in x;
        assert j >= |x| ==> xy[j] in y;
      }
    }
  }

  lemma {:induction false} EntryOfAppend<T>(x: Entries<T>, y: Entries<T>, a: Address)
    ensures Entry(x + y, a) == if Entry(x, a).Some? then Entry(x, a) else Entry(y, a)
  {
    if x == [] {
      assert x + y == y;
    } else {
      assert (x + y)[1..] == x[1..] + y;
      EntryOfAppend(x[1..], y, a);
    }
  }

  lemma {:induction false} KeysOfAppend<T>(x: Entries<T>, y: Entries<T>)
    ensures Keys(x + y) == Keys(x) + Keys(y)
  {
    if x == [] {
      assert x + y == y;
    } else {
      assert (x + y)[1..] == x[1..] + y;
      KeysOfAppend(x[1..], y);
      SeqAssoc([x[0].0], Keys(x[1..]), Keys(y));
    }
  }

  lemma {:induction false} EntryIsKeyed<T>(entries: Entries<T>, a: Address)
    ensures Entry(entries, a).Some? <==> a in Keys(entries)
  {
    if entries != [] {
      EntryIsKeyed(entries[1..], a);
    }
  }

  function EntryFor<T>(account: ScannedAccount, ingest: Ingest<T>): Entries<T> {
    match ingest(account) case Some(e) => [(account.address, e)] case None => []
  }

  /** The entries of one page are keyed by its addresses, in page order. */
  lemma {:induction false} IngestedKeys<T>(accounts: seq<ScannedAccount>, ingest: Ingest<T>)
    requires NoRepeats(Addresses(accounts))
    ensures forall b :: b in Keys(Ingested(accounts, ingest)) ==> b in Addresses(accounts)
    ensures NoRepeats(Keys(Ingested(accounts, ingest)))
  {
    if accounts != [] {
      var last := accounts[|accounts| - 1];
      var before := accounts[..|accounts| - 1];
      assert Addresses(accounts) == Addresses(before) + [last.address];
      NoRepeatsAppend(Addresses(before), [last.address]);
      IngestedKeys(before, ingest);
      KeysOfAppend(Ingested(before, ingest), EntryFor(last, ingest));
      NoRepeatsAppend(Keys(Ingested(before, ingest)), Keys(EntryFor(last, ingest)));
    }
  }

  /** A page holds what the caller makes of each of its accounts. */
  lemma {:induction false} IngestedEntry<T>(accounts: seq<ScannedAccount>, ingest: Ingest<T>, i: nat)
    requires i < |accounts| && NoRepeats(Addresses(accounts))
    ensures Entry(Ingested(accounts, ingest), accounts[i].address) == ingest(accounts[i])
  {
    var last := accounts[|accounts| - 1];
    var before := accounts[..|accounts| - 1];
    var a := accounts[i].address;
    assert Addresses(accounts) == Addresses(before) + [last.address];
    NoRepeatsAppend(Addresses(before), [last.address]);
    EntryOfAppend(Ingested(before, ingest), EntryFor(last, ingest), a);
    if i < |before| {
      IngestedEntry(before, ingest, i);
      assert Addresses(before)[i] == a;
      EntryIsKeyed(EntryFor(last, ingest), a);
    } else {
      IngestedKeys(before, ingest);
      EntryIsKeyed(Ingested(before, ingest), a);
    }
  }

  /** A full scan so far: right as of `lo` or later below the frontier, and empty above it. */
  ghost predicate ScannedBelow<T>(chain: Chain, ingest: Ingest<T>, entries: Entries<T>, token: Option<Token>,
                                  lo: Round, hi: Round)
  {
    && NoRepeats(Keys(entries))
    && (forall a :: a in Keys(entries) ==> Below(chain, a, token))
    && (forall a: Address :: Below(chain, a, token) ==> AsOf(chain, ingest, entries, a, lo, hi))
  }

  /** The entries of a page are right, as of its round, for every address of its interval. */
  lemma PageEntry<T>(chain: Chain, ingest: Ingest<T>, page: AccountPage, round: Round, token: Option<Token>, a: Address)
    requires HonestFullPage(chain, page, round, token)
    requires Low(chain, token) <= a && Below(chain, a, page.nextToken)
    ensures Entry(Ingested(page.rows, ingest), a) == View(chain, ingest, round, a)
  {
    IngestedKeys(page.rows, ingest);
    EntryIsKeyed(Ingested(page.rows, ingest), a);
    if chain.state(round, a).Some? {
      var i :| 0 <= i < |page.rows| && page.rows[i].address == a;
      IngestedEntry(page.rows, ingest, i);
    }
  }

  /** And they are all of its interval. */
  lemma PageKeys<T>(chain: Chain, ingest: Ingest<T>, page: AccountPage, round: Round, token: Option<Token>)
    requires HonestFullPage(chain, page, round, token)
    ensures NoRepeats(Keys(Ingested(page.rows, ingest)))
    ensures forall a :: a in Keys(Ingested(page.rows, ingest))
              ==> Low(chain, token) <= a && Below(chain, a, page.nextToken)
  {
    IngestedKeys(page.rows, ingest);
  }

  /** One page extends the part scanned so far to its next token. */
  lemma PageExtends<T>(chain: Chain, ingest: Ingest<T>, entries: Entries<T>, page: AccountPage, round: Round,
                       token: Option<Token>, lo: Round, lo': Round, hi: Round)
    requires HonestFullPage(chain, page, round, token)
    requires lo' <= lo && lo' <= round <= hi
    requires token.Some? || entries == []
    requires token.Some? ==> ScannedBelow(chain, ingest, entries, token, lo, hi)
    ensures ScannedBelow(chain, ingest, entries + Ingested(page.rows, ingest), page.nextToken, lo', hi)
  {
    var added := Ingested(page.rows, ingest);
    KeysOfAppend(entries, added);
    PageKeys(chain, ingest, page, round, token);
    NoRepeatsAppend(Keys(entries), Keys(added));
    forall a: Address | Below(chain, a, page.nextToken)
      ensures AsOf(chain, ingest, entries + added, a, lo', hi)
    {
      PageExtendsAt(chain, ingest, entries, page, round, token, lo, lo', hi, a);
    }
  }

  lemma PageExtendsAt<T>(chain: Chain, ingest: Ingest<T>, entries: Entries<T>, page: AccountPage, round: Round,
                         token: Option<Token>, lo: Round, lo': Round, hi: Round, a: Address)
    requires HonestFullPage(chain, page, round, token) && Below(chain, a, page.nextToken)
    requires lo' <= lo && lo' <= round <= hi
    requires forall b :: b in Keys(entries) ==> b < Low(chain, token)
    requires a < Low(chain, token) ==> AsOf(chain, ingest, entries, a, lo, hi)
    ensures AsOf(chain, ingest, entries + Ingested(page.rows, ingest), a, lo', hi)
  {
    var added := Ingested(page.rows, ingest);
    EntryOfAppend(entries, added, a);
    EntryIsKeyed(entries, a);
    if a < Low(chain, token) {
      PageKeys(chain, ingest, page, round, token);
      EntryIsKeyed(added, a);
      var r: Round :| lo <= r <= hi && Entry(entries, a) == View(chain, ingest, r, a);
      assert Entry(entries + added, a) == View(chain, ingest, r, a);
    } else {
      PageEntry(chain, ingest, page, round, token, a);
      assert Entry(entries + added, a) == View(chain, ingest, round, a);
    }
  }

  lemma AsOfWidens<T>(chain: Chain, ingest: Ingest<T>, entries: Entries<T>, a: Address,
                      lo: Round, hi: Round, lo': Round, hi': Round)
    requires AsOf(chain, ingest, entries, a, lo, hi) && lo' <= lo && hi <= hi'
    ensures AsOf(chain, ingest, entries, a, lo', hi')
  {
    var r: Round :| lo <= r <= hi && Entry(entries, a) == View(chain, ingest, r, a);
    assert lo' <= r <= hi';
  }

  lemma ScannedBelowWidens<T>(chain: Chain, ingest: Ingest<T>, entries: Entries<T>, token: Option<Token>,
                              lo: Round, hi: Round, hi': Round)
    requires ScannedBelow(chain, ingest, entries, token, lo, hi) && hi <= hi'
    ensures ScannedBelow(chain, ingest, entries, token, lo, hi')
  {
    forall a: Address | Below(chain, a, token) ensures AsOf(chain, ingest, entries, a, lo, hi') {
      AsOfWidens(chain, ingest, entries, a, lo, hi, lo, hi');
    }
  }

  /** A full scan on its way: nothing scanned yet, or everything below the token. */
  ghost predicate Scanning<T>(chain: Chain, ingest: Ingest<T>, k: nat, token: Option<Token>, watermark: Option<Round>,
                              entries: Entries<T>)
  {
    if token.None? then watermark.None? && entries == []
    else watermark.Some? && watermark.value <= Latest(chain, k)
         && ScannedBelow(chain, ingest, entries, token, watermark.value, Latest(chain, k))
  }

  function Least(watermark: Option<Round>, round: Round): Round {
    if watermark.Some? && watermark.value < round then watermark.value else round
  }

  lemma PageKeepsScanning<T>(net: Network, chain: Chain, ingest: Ingest<T>, k: nat, token: Option<Token>,
                             watermark: Option<Round>, entries: Entries<T>)
    requires Honest(net, chain) && Scanning(chain, ingest, k, token, watermark, entries)
    requires net.FullPage(k, token).Ok?
    ensures var page := net.FullPage(k, token).value;
            && page.currentRound == chain.roundAt(k)
            && ScannedBelow(chain, ingest, entries + Ingested(page.rows, ingest), page.nextToken,
                            Least(watermark, page.currentRound), Latest(chain, k + 1))
  {
    assert HonestFull(net, chain, k, token);
    var page := net.FullPage(k, token).value;
    var round := chain.roundAt(k);
    if token.Some? {
      LatestGrows(chain, k, k);
      ScannedBelowWidens(chain, ingest, entries, token, watermark.value, Latest(chain, k), round);
    }
    PageExtends(chain, ingest, entries, page, round, token, if token.Some? then watermark.value else round,
                Least(watermark, round), round);
  }

  /**
   A full scan never repeats an address, and one that completes leaves a snapshot at the least round
   of its pages.
   */
  lemma {:induction false} FullScanIsSnapshot<T>(net: Network, chain: Chain, ingest: Ingest<T>, k: nat,
                                                 token: Option<Token>, watermark: Option<Round>, entries: Entries<T>)
    requires Honest(net, chain) && Scanning(chain, ingest, k, token, watermark, entries)
    ensures var s := FullScan(net, ingest, k, token, watermark, entries);
            && NoRepeats(Keys(s.entries))
            && (s.watermark.Some? ==> s.watermark.value <= Latest(chain, s.clock)
                                      && Snapshot(chain, ingest, s.entries, s.watermark.value, Latest(chain, s.clock)))
    decreases net.horizon - k
  {
    var reply := net.FullPage(k, token);
    if reply.Ok? {
      var page := reply.value;
      PageKeepsScanning(net, chain, ingest, k, token, watermark, entries);
      if page.nextToken.Some? {
        FullScanIsSnapshot(net, chain, ingest, k + 1, page.nextToken, Some(Least(watermark, page.currentRound)),
                           entries + Ingested(page.rows, ingest));
      }
    }
  }

  // ----- incremental refreshes

  lemma {:induction false} FirstSeenIsUnion(changed: seq<Address>, addresses: seq<Address>)
    requires NoRepeats(changed)
    ensures NoRepeats(FirstSeen(changed, addresses))
    ensures forall a :: a in FirstSeen(changed, addresses) <==> a in changed || a in addresses
  {
    if addresses != [] {
      FirstSeenIsUnion(changed, addresses[..|addresses| - 1]);
      assert addresses == addresses[..|addresses| - 1] + [addresses[|addresses| - 1]];
    }
  }

  /** What discovery is to find at `token` of a scan from `minRound` on, given what it has found so far. */
  ghost predicate Discovers(chain: Chain, minRound: Round, k: nat, token: Option<Token>, changed: seq<Address>,
                            s: Scanned<Address>)
  {
    && s.clock > k
    && NoRepeats(s.entries)
    && (s.watermark.Some? ==>
          var all := Between(chain.ledger, minRound, chain.roundAt(s.clock - 1));
          && s.watermark.value == chain.roundAt(s.clock - 1)
          && Delivered(chain.cursor, Some(minRound), token) <= |all|
          && forall a :: a in s.entries <==>
               a in changed || a in TouchedByAll(all[Delivered(chain.cursor, Some(minRound), token)..]))
  }

  lemma TouchedPiece(earlier: seq<AppTxn>, all: seq<AppTxn>, from: nat, mid: nat)
    requires earlier <= all && from <= mid <= |earlier|
    ensures TouchedByAll(all[from..]) == TouchedByAll(earlier[from..mid]) + TouchedByAll(all[mid..])
  {
    assert all[from..] == earlier[from..mid] + all[mid..];
    TouchedByAllAppend(earlier[from..mid], all[mid..]);
  }

  lemma PageThenRest(net: Network, chain: Chain, minRound: Round, k: nat, token: Option<Token>,
                     changed: seq<Address>, s: Scanned<Address>)
    requires OnTrack(net.changed, chain.cursor, chain.ledger, chain.roundAt, Some(minRound), k, token)
    requires NoRepeats(changed)
    requires var reply := net.Changed(k, minRound, token);
             && reply.Ok? && reply.value.nextToken.Some?
             && Discovers(chain, minRound, k + 1, reply.value.nextToken,
                          FirstSeen(changed, reply.value.rows), s)
    ensures Discovers(chain, minRound, k, token, changed, s)
  {
    var page := net.Changed(k, minRound, token).value;
    assert HonestPage(net.changed, chain.cursor, chain.ledger, chain.roundAt, k, Some(minRound), token);
    FirstSeenIsUnion(changed, page.rows);
    assert chain.roundAt(k) <= chain.roundAt(s.clock - 1);
    BetweenGrows(chain.ledger, minRound, chain.roundAt(k), chain.roundAt(s.clock - 1));
    var mid := chain.cursor(Some(minRound), page.nextToken.value);
    TouchedPiece(Between(chain.ledger, minRound, chain.roundAt(k)),
                 Between(chain.ledger, minRound, chain.roundAt(s.clock - 1)),
                 Delivered(chain.cursor, Some(minRound), token), mid);
  }

  lemma {:induction false} DiscoverFindsTouched(net: Network, chain: Chain, minRound: Round, k: nat,
                                                token: Option<Token>, watermark: Round, changed: seq<Address>)
    requires OnTrack(net.changed, chain.cursor, chain.ledger, chain.roundAt, Some(minRound), k, token)
    requires watermark <= chain.roundAt(k) && NoRepeats(changed)
    ensures Discovers(chain, minRound, k, token, changed, Discover(net, minRound, k, token, watermark, changed))
    decreases net.horizon - k
  {
    assert HonestPage(net.changed, chain.cursor, chain.ledger, chain.roundAt, k, Some(minRound), token);
    var reply := net.Changed(k, minRound, token);
    if reply.Ok? {
      var page := reply.value;
      FirstSeenIsUnion(changed, page.rows);
      if page.nextToken.Some? {
        NextPageOnTrack(net.changed, chain.cursor, chain.ledger, chain.roundAt, Some(minRound), k, token);
        var watermark' := if page.currentRound > watermark then page.currentRound else watermark;
        var changed' := FirstSeen(changed, page.rows);
        DiscoverFindsTouched(net, chain, minRound, k + 1, page.nextToken, watermark', changed');
        PageThenRest(net, chain, minRound, k, token, changed,
                     Discover(net, minRound, k + 1, page.nextToken, watermark', changed'));
      }
    }
  }

  /** Re-reading keeps the keys apart. */
  lemma {:induction false} RevisitKeepsKeysApart<T>(net: Network, ingest: Ingest<T>, k: nat, changed: seq<Address>,
                                                    entries: Entries<T>)
    requires NoRepeats(Keys(entries))
    ensures NoRepeats(Keys(Revisit(net, ingest, k, changed, entries).entries))
    decreases |changed|
  {
    if changed != [] {
      var reply := net.Lookup(k, changed[0]);
      if reply.Ok? {
        RevisitKeepsKeysApart(net, ingest, k + 1, changed[1..], Reread(entries, changed[0], reply.value, ingest));
      }
    }
  }

  /** What the caller makes of a lookup. */
  function Made<T>(found: Option<ScannedAccount>, ingest: Ingest<T>): Option<T> {
    match found
    case None => None
    case Some(account) => ingest(account)
  }

  /** Lookup `i` of some addresses, in order from request `k` on, is answered, and what was made of it is held. */
  ghost predicate HoldsLookup<T>(net: Network, ingest: Ingest<T>, k: nat, changed: seq<Address>, entries: Entries<T>,
                                 i: nat)
    requires i < |changed|
  {
    var reply := net.Lookup(k + i, changed[i]);
    reply.Ok? && Entry(entries, changed[i]) == Made(reply.value, ingest)
  }

  ghost predicate SameEntry<T>(before: Entries<T>, after: Entries<T>, a: Address) {
    Entry(after, a) == Entry(before, a)
  }

  /** A revisit that had `n` lookups answered, in order and each once, until one failed. */
  ghost predicate RevisitedAs<T>(net: Network, ingest: Ingest<T>, k: nat, changed: seq<Address>, n: nat,
                                 before: Entries<T>, v: Revisited<T>)
  {
    && n <= |changed|
    && (forall i: nat :: i < n ==> HoldsLookup(net, ingest, k, changed, v.entries, i))
    && (forall a {:trigger SameEntry(before, v.entries, a)} :: a !in changed[..n] ==> SameEntry(before, v.entries, a))
    && if n == |changed| then v.ok && v.clock == k + n
       else !v.ok && v.clock == k + n + 1 && net.Lookup(k + n, changed[n]).Err?
  }

  /** A lookup of the others is a lookup of them all. */
  lemma LaterLookup<T>(net: Network, ingest: Ingest<T>, k: nat, changed: seq<Address>, entries: Entries<T>, i: nat)
    requires i + 1 < |changed| && HoldsLookup(net, ingest, k + 1, changed[1..], entries, i)
    ensures HoldsLookup(net, ingest, k, changed, entries, i + 1)
  {
    assert changed[1..][i] == changed[i + 1] && k + 1 + i == k + (i + 1);
  }

  lemma RereadEntry<T>(before: Entries<T>, a: Address, found: Option<ScannedAccount>, ingest: Ingest<T>, b: Address)
    ensures Entry(Reread(before, a, found, ingest), b) == if b == a then Made(found, ingest) else Entry(before, b)
  {
  }

  /** One lookup before `n` others. */
  lemma LookupThenRest<T>(net: Network, ingest: Ingest<T>, k: nat, changed: seq<Address>, n: nat, before: Entries<T>,
                          reread: Entries<T>, v: Revisited<T>)
    requires changed != [] && NoRepeats(changed) && net.Lookup(k, changed[0]).Ok?
    requires reread == Reread(before, changed[0], net.Lookup(k, changed[0]).value, ingest)
    requires RevisitedAs(net, ingest, k + 1, changed[1..], n, reread, v)
    ensures RevisitedAs(net, ingest, k, changed, n + 1, before, v)
  {
    var first, rest := changed[0], changed[1..];
    assert first !in rest[..n];
    assert changed[..n + 1] == [first] + rest[..n];
    forall i: nat | i < n + 1 ensures HoldsLookup(net, ingest, k, changed, v.entries, i) {
      if i > 0 {
        LaterLookup(net, ingest, k, changed, v.entries, i - 1);
      } else {
        assert SameEntry(reread, v.entries, first);
        RereadEntry(before, first, net.Lookup(k, first).value, ingest, first);
      }
    }
    forall a | a !in changed[..n + 1] ensures SameEntry(before, v.entries, a) {
      assert SameEntry(reread, v.entries, a);
      RereadEntry(before, first, net.Lookup(k, first).value, ingest, a);
    }
  }

  lemma NoLookupYet<T>(net: Network, ingest: Ingest<T>, k: nat, changed: seq<Address>, entries: Entries<T>)
    requires changed == [] || net.Lookup(k, changed[0]).Err?
    ensures RevisitedAs(net, ingest, k, changed, 0, entries, Revisit(net, ingest, k, changed, entries))
  {
    var v := Revisit(net, ingest, k, changed, entries);
    forall a ensures SameEntry(entries, v.entries, a) {
      assert v.entries == entries;
    }
  }

  lemma RevisitStep<T>(net: Network, ingest: Ingest<T>, k: nat, changed: seq<Address>, entries: Entries<T>)
    requires changed != [] && net.Lookup(k, changed[0]).Ok?
    ensures Revisit(net, ingest, k, changed, entries)
         == Revisit(net, ingest, k + 1, changed[1..],
                    Reread(entries, changed[0], net.Lookup(k, changed[0]).value, ingest))
  {
  }

  /**
   A revisit looks up the addresses in order, each once, until one lookup fails. What was answered is
   held, and nothing else changes.
   */
  lemma {:induction false} RevisitIsItsLookups<T>(net: Network, ingest: Ingest<T>, k: nat, changed: seq<Address>,
                                                  entries: Entries<T>, v: Revisited<T>) returns (n: nat)
    requires NoRepeats(changed) && v == Revisit(net, ingest, k, changed, entries)
    ensures RevisitedAs(net, ingest, k, changed, n, entries, v)
    decreases |changed|
  {
    if changed == [] || net.Lookup(k, changed[0]).Err? {
      NoLookupYet(net, ingest, k, changed, entries);
      n := 0;
    } else {
      RevisitStep(net, ingest, k, changed, entries);
      var reread := Reread(entries, changed[0], net.Lookup(k, changed[0]).value, ingest);
      n := RevisitIsItsLookups(net, ingest, k + 1, changed[1..], reread, v);
      LookupThenRest(net, ingest, k, changed, n, entries, reread, v);
      n := n + 1;
    }
  }

  /** An address that was looked up is right as of its lookup. */
  lemma LookedUpIsAsOf<T>(net: Network, chain: Chain, ingest: Ingest<T>, k: nat, changed: seq<Address>,
                          entries: Entries<T>, i: nat, lo: Round, hi: Round)
    requires Honest(net, chain) && i < |changed| && HoldsLookup(net, ingest, k, changed, entries, i)
    requires lo <= chain.roundAt(k + i) <= hi
    ensures AsOf(chain, ingest, entries, changed[i], lo, hi)
  {
    assert HonestLookup(net, chain, k + i, changed[i]);
    assert Entry(entries, changed[i]) == View(chain, ingest, chain.roundAt(k + i), changed[i]);
  }

  lemma SameEntryIsAsOf<T>(chain: Chain, ingest: Ingest<T>, before: Entries<T>, after: Entries<T>, a: Address,
                           lo: Round, hi: Round)
    requires SameEntry(before, after, a) && AsOf(chain, ingest, before, a, lo, hi)
    ensures AsOf(chain, ingest, after, a, lo, hi)
  {
    var r: Round :| lo <= r <= hi && Entry(before, a) == View(chain, ingest, r, a);
    assert Entry(after, a) == View(chain, ingest, r, a);
  }

  /** After a revisit an address that was looked up is right as of its lookup; any other as it was. */
  lemma RevisitIsAsOf<T>(net: Network, chain: Chain, ingest: Ingest<T>, k: nat, changed: seq<Address>, n: nat,
                         entries: Entries<T>, v: Revisited<T>, a: Address, lo: Round, hi: Round)
    requires Honest(net, chain) && RevisitedAs(net, ingest, k, changed, n, entries, v)
    requires lo <= chain.roundAt(k) && Latest(chain, v.clock) <= hi
    requires AsOf(chain, ingest, entries, a, lo, hi) || (v.ok && a in changed)
    ensures AsOf(chain, ingest, v.entries, a, lo, hi)
  {
    if a in changed[..n] {
      var i :| 0 <= i < n && changed[i] == a;
      assert chain.roundAt(k) <= chain.roundAt(k + i);
      LatestGrows(chain, k + i, v.clock);
      LookedUpIsAsOf(net, chain, ingest, k, changed, v.entries, i, lo, hi);
    } else {
      assert v.ok ==> changed[..n] == changed;
      SameEntryIsAsOf(chain, ingest, entries, v.entries, a, lo, hi);
    }
  }

  /** An address no transaction touches in between looks the same at both rounds. */
  lemma {:induction false} UntouchedIsUnchanged<T>(chain: Chain, ingest: Ingest<T>, lo: Round, hi: Round, a: Address)
    requires forall r: Round, b: Address :: ChangesAreTouched(chain, r, b)
    requires lo <= hi && a !in TouchedByAll(Between(chain.ledger, lo + 1, hi))
    ensures View(chain, ingest, lo, a) == View(chain, ingest, hi, a)
    decreases hi
  {
    if lo < hi {
      assert ChangesAreTouched(chain, hi - 1, a);
      TouchedByAllAppend(Between(chain.ledger, lo + 1, hi - 1), chain.ledger(hi));
      UntouchedIsUnchanged(chain, ingest, lo, hi - 1, a);
    }
  }

  // ----- calls as the replies they get

  lemma {:induction false} IngestedAppend<T>(x: seq<ScannedAccount>, y: seq<ScannedAccount>, ingest: Ingest<T>)
    ensures Ingested(x + y, ingest) == Ingested(x, ingest) + Ingested(y, ingest)
  {
    if y == [] {
      assert x + y == x;
    } else {
      var last := |y| - 1;
      IngestedAppend(x, y[..last], ingest);
      assert (x + y)[..|x + y| - 1] == x + y[..last];
      SeqAssoc(Ingested(x, ingest), Ingested(y[..last], ingest), EntryFor(y[last], ingest));
    }
  }

  /** What one account contributes, so that with `IngestedAppend` pages are ingested account by account, in order. */
  lemma IngestedOne<T>(account: ScannedAccount, ingest: Ingest<T>)
    ensures Ingested([account], ingest)
         == match ingest(account) case Some(e) => [(account.address, e)] case None => []
  {
    assert [account][..0] == [];
  }

  type AccountReply = Result<AccountPage, NetError>

  lemma AccountRowsNext<T>(reply: AccountReply, rest: seq<AccountReply>, ingest: Ingest<T>, entries: Entries<T>)
    requires reply.Ok?
    ensures entries + Ingested(RowsOf([reply] + rest), ingest)
         == entries + Ingested(reply.value.rows, ingest) + Ingested(RowsOf(rest), ingest)
  {
    assert ([reply] + rest)[1..] == rest;
    IngestedAppend(reply.value.rows, RowsOf(rest), ingest);
    SeqAssoc(entries, Ingested(reply.value.rows, ingest), Ingested(RowsOf(rest), ingest));
  }

  /** A full scan is its replies: it fails if and only if the last of them does. */
  lemma {:induction false} FullScanIsItsReplies<T>(net: Network, ingest: Ingest<T>, k: nat, token: Option<Token>,
                                                   watermark: Option<Round>, entries: Entries<T>)
    ensures var s := FullScan(net, ingest, k, token, watermark, entries);
            var replies := Replies(net.FullPages(), net.horizon, k, token);
            && replies != [] && s.clock == k + |replies|
            && (s.watermark.None? <==> replies[|replies| - 1].Err?)
    decreases net.horizon - k
  {
    var reply := net.FullPage(k, token);
    var rest := [];
    if reply.Ok? && reply.value.nextToken.Some? {
      FullScanIsItsReplies(net, ingest, k + 1, reply.value.nextToken, Some(Least(watermark, reply.value.currentRound)),
                           entries + Ingested(reply.value.rows, ingest));
      rest := Replies(net.FullPages(), net.horizon, k + 1, reply.value.nextToken);
    }
    assert Replies(net.FullPages(), net.horizon, k, token) == [reply] + rest;
  }

  /** It adds what its pages brought, and nothing else. */
  lemma {:induction false} FullScanBrings<T>(net: Network, ingest: Ingest<T>, k: nat, token: Option<Token>,
                                             watermark: Option<Round>, entries: Entries<T>)
    ensures FullScan(net, ingest, k, token, watermark, entries).entries
         == entries + Ingested(RowsOf(Replies(net.FullPages(), net.horizon, k, token)), ingest)
    decreases net.horizon - k
  {
    var reply := net.FullPage(k, token);
    var rest := [];
    if reply.Ok? && reply.value.nextToken.Some? {
      FullScanBrings(net, ingest, k + 1, reply.value.nextToken, Some(Least(watermark, reply.value.currentRound)),
                     entries + Ingested(reply.value.rows, ingest));
      rest := Replies(net.FullPages(), net.horizon, k + 1, reply.value.nextToken);
    }
    assert Replies(net.FullPages(), net.horizon, k, token) == [reply] + rest;
    if reply.Ok? {
      AccountRowsNext(reply, rest, ingest, entries);
    }
  }

  /** And its watermark is the least round of its pages. */
  lemma {:induction false} FullScanWatermark<T>(net: Network, ingest: Ingest<T>, k: nat, token: Option<Token>,
                                                watermark: Option<Round>, entries: Entries<T>)
    ensures var s := FullScan(net, ingest, k, token, watermark, entries);
            s.watermark.Some? ==>
              Smallest(s.watermark.value, watermark, Replies(net.FullPages(), net.horizon, k, token))
    decreases net.horizon - k
  {
    var reply := net.FullPage(k, token);
    if reply.Ok? {
      var page := reply.value;
      var watermark' := Least(watermark, page.currentRound);
      var rest := [];
      if page.nextToken.Some? {
        FullScanWatermark(net, ingest, k + 1, page.nextToken, Some(watermark'), entries + Ingested(page.rows, ingest));
        rest := Replies(net.FullPages(), net.horizon, k + 1, page.nextToken);
      }
      assert Replies(net.FullPages(), net.horizon, k, token) == [reply] + rest;
      var s := FullScan(net, ingest, k, token, watermark, entries);
      if s.watermark.Some? {
        SmallestNext(s.watermark.value, watermark, page, rest);
      }
    }
  }

  lemma {:induction false} FirstSeenAppend(changed: seq<Address>, x: seq<Address>, y: seq<Address>)
    ensures FirstSeen(changed, x + y) == FirstSeen(FirstSeen(changed, x), y)
  {
    if y == [] {
      assert x + y == x;
    } else {
      var last := |y| - 1;
      FirstSeenAppend(changed, x, y[..last]);
      assert (x + y)[..|x + y| - 1] == x + y[..last];
    }
  }

  /** One address is added at the end unless it is there, so addresses keep the order they came up in. */
  lemma FirstSeenOne(changed: seq<Address>, a: Address)
    ensures FirstSeen(changed, [a]) == if a in changed then changed else changed + [a]
  {
    assert [a][..0] == [];
  }

  lemma DiscoveredNext(changed: seq<Address>, page: ChangedPage, rest: seq<Result<ChangedPage, NetError>>)
    ensures FirstSeen(changed, RowsOf([Ok(page)] + rest)) == FirstSeen(FirstSeen(changed, page.rows), RowsOf(rest))
  {
    assert ([Ok(page)] + rest)[1..] == rest;
    FirstSeenAppend(changed, page.rows, RowsOf(rest));
  }

  /** A discovery finds the addresses of its pages, each once, in the order they came up. */
  lemma {:induction false} DiscoverFinds(net: Network, minRound: Round, k: nat, token: Option<Token>, watermark: Round,
                                         changed: seq<Address>)
    ensures Discover(net, minRound, k, token, watermark, changed).entries
         == FirstSeen(changed, RowsOf(Replies(net.ChangedPages(minRound), net.horizon, k, token)))
    decreases net.horizon - k
  {
    var reply := net.Changed(k, minRound, token);
    var rest := [];
    if reply.Ok? {
      var page := reply.value;
      if page.nextToken.Some? {
        var watermark' := if page.currentRound > watermark then page.currentRound else watermark;
        DiscoverFinds(net, minRound, k + 1, page.nextToken, watermark', FirstSeen(changed, page.rows));
        rest := Replies(net.ChangedPages(minRound), net.horizon, k + 1, page.nextToken);
      }
      DiscoveredNext(changed, page, rest);
    } else {
      assert RowsOf([reply]) == [];
    }
    assert Replies(net.ChangedPages(minRound), net.horizon, k, token) == [reply] + rest;
  }

  /** And its watermark is the greatest round of its pages, or where it started if that is greater. */
  lemma {:induction false} DiscoverWatermark(net: Network, minRound: Round, k: nat, token: Option<Token>,
                                             watermark: Round, changed: seq<Address>)
    ensures var s := Discover(net, minRound, k, token, watermark, changed);
            s.watermark.Some? ==>
              Greatest(s.watermark.value, watermark, Replies(net.ChangedPages(minRound), net.horizon, k, token))
    decreases net.horizon - k
  {
    var reply := net.Changed(k, minRound, token);
    if reply.Ok? {
      var page := reply.value;
      var watermark' := if page.currentRound > watermark then page.currentRound else watermark;
      var rest := [];
      if page.nextToken.Some? {
        DiscoverWatermark(net, minRound, k + 1, page.nextToken, watermark', FirstSeen(changed, page.rows));
        rest := Replies(net.ChangedPages(minRound), net.horizon, k + 1, page.nextToken);
      }
      assert Replies(net.ChangedPages(minRound), net.horizon, k, token) == [reply] + rest;
      var s := Discover(net, minRound, k, token, watermark, changed);
      if s.watermark.Some? {
        GreatestNext(s.watermark.value, watermark, page, rest);
      }
    }
  }

  lemma {:induction false} DiscoverIsItsReplies(net: Network, minRound: Round, k: nat, token: Option<Token>,
                                                watermark: Round, changed: seq<Address>)
    requires NoRepeats(changed)
    ensures var s := Discover(net, minRound, k, token, watermark, changed);
            var replies := Replies(net.ChangedPages(minRound), net.horizon, k, token);
            && replies != [] && s.clock == k + |replies| && NoRepeats(s.entries)
            && (s.watermark.None? <==> replies[|replies| - 1].Err?)
    decreases net.horizon - k
  {
    var reply := net.Changed(k, minRound, token);
    var rest := [];
    if reply.Ok? {
      var changed' := FirstSeen(changed, reply.value.rows);
      FirstSeenIsUnion(changed, reply.value.rows);
      if reply.value.nextToken.Some? {
        var watermark' := if reply.value.currentRound > watermark then reply.value.currentRound else watermark;
        DiscoverIsItsReplies(net, minRound, k + 1, reply.value.nextToken, watermark', changed');
        rest := Replies(net.ChangedPages(minRound), net.horizon, k + 1, reply.value.nextToken);
      }
    }
    assert Replies(net.ChangedPages(minRound), net.horizon, k, token) == [reply] + rest;
  }

  /** The discovery an incremental refresh starts with. */
  function Discovery<T>(net: Network, start: Cache<(Address, T)>, k: nat): Scanned<Address> {
    Discover(net, start.lastRound + 1, k, None, start.lastRound, [])
  }

  /** Its requests, paged like a full scan's. */
  lemma DiscoveryReplies<T>(net: Network, start: Cache<(Address, T)>, k: nat)
    ensures var s := Discovery(net, start, k);
            var pages := net.ChangedPages(start.lastRound + 1);
            var replies := Replies(pages, net.horizon, k, None);
            && |replies| == s.clock - k > 0 && NoRepeats(s.entries)
            && replies[0] == net.Changed(k, start.lastRound + 1, None) && Follow(pages, k, replies)
            && (s.watermark.None? <==> replies[|replies| - 1].Err?)
  {
    DiscoverIsItsReplies(net, start.lastRound + 1, k, None, start.lastRound, []);
    RepliesFollow(net.ChangedPages(start.lastRound + 1), net.horizon, k, None);
  }

  /** What it finds and how far it has looked, by its replies. */
  lemma DiscoveryFinds<T>(net: Network, start: Cache<(Address, T)>, k: nat)
    ensures var s := Discovery(net, start, k);
            var replies := Replies(net.ChangedPages(start.lastRound + 1), net.horizon, k, None);
            && s.entries == FirstSeen([], RowsOf(replies))
            && (s.watermark.Some? ==> Greatest(s.watermark.value, start.lastRound, replies))
  {
    DiscoverFinds(net, start.lastRound + 1, k, None, start.lastRound, []);
    DiscoverWatermark(net, start.lastRound + 1, k, None, start.lastRound, []);
  }

  /** What a cache holds after a refresh, as a revisit of what it held before. */
  function AsRevisited<T>(o: Outcome<(Address, T)>): Revisited<T> {
    Revisited(o.cache.entries, o.clock, o.ok)
  }

  lemma IncrementIsItsRequests<T>(net: Network, ingest: Ingest<T>, start: Cache<(Address, T)>, now: nat, k: nat)
    returns (n: nat)
    ensures var o := Increment(net, ingest, start, now, k);
            var s := Discovery(net, start, k);
            if s.watermark.None? then o == Outcome(start, s.clock, false)
            else RevisitedAs(net, ingest, s.clock, s.entries, n, start.entries, AsRevisited(o))
  {
    var s := Discovery(net, start, k);
    if s.watermark.None? {
      n := 0;
    } else {
      var v := Revisit(net, ingest, s.clock, s.entries, start.entries);
      assert AsRevisited(Increment(net, ingest, start, now, k)) == v;
      DiscoveryReplies(net, start, k);
      n := RevisitIsItsLookups(net, ingest, s.clock, s.entries, start.entries, v);
    }
  }

  // ----- whole calls

  lemma RebuildKeepsInv<T>(net: Network, chain: Chain, ingest: Ingest<T>, start: Cache<(Address, T)>, now: nat, k: nat)
    requires Honest(net, chain) && WellFormed(chain, start, k)
    requires start.lastRound == 0 || start.lastUpdated == 0
    ensures var o := Rebuild(net, ingest, start, now, k);
            && Inv(chain, ingest, o.cache, o.clock) && o.clock > k
            && (o.ok ==> Snapshot(chain, ingest, o.cache.entries, o.cache.lastRound, Latest(chain, o.clock)))
  {
    FullScanIsSnapshot(net, chain, ingest, k, None, None, []);
    LatestGrows(chain, k, FullScan(net, ingest, k, None, None, []).clock);
  }

  /** The addresses an incremental refresh re-reads: each one touched past the watermark, once. */
  lemma DiscoveredIsTouched<T>(net: Network, chain: Chain, start: Cache<(Address, T)>, k: nat)
    requires Honest(net, chain) && WellFormed(chain, start, k)
    ensures var s := Discovery(net, start, k);
            && s.clock > k && NoRepeats(s.entries)
            && (s.watermark.Some? ==>
                  && start.lastRound <= s.watermark.value == chain.roundAt(s.clock - 1)
                  && forall a :: a in s.entries
                       <==> a in TouchedByAll(Between(chain.ledger, start.lastRound + 1, s.watermark.value)))
  {
    DiscoverFindsTouched(net, chain, start.lastRound + 1, k, None, start.lastRound, []);
    var s := Discovery(net, start, k);
    LatestGrows(chain, k, s.clock - 1);
    if s.watermark.Some? {
      var all := Between(chain.ledger, start.lastRound + 1, s.watermark.value);
      assert all[0..] == all;
    }
  }

  /** What held as of the old watermark, and is untouched since, holds as of the new one. */
  lemma UntouchedIsAsOf<T>(chain: Chain, ingest: Ingest<T>, entries: Entries<T>, a: Address,
                           lo: Round, lo': Round, hi: Round)
    requires forall r: Round, b: Address :: ChangesAreTouched(chain, r, b)
    requires AsOf(chain, ingest, entries, a, lo, hi) && lo <= lo' <= hi
    requires a !in TouchedByAll(Between(chain.ledger, lo + 1, lo'))
    ensures AsOf(chain, ingest, entries, a, lo', hi)
  {
    var r: Round :| lo <= r <= hi && Entry(entries, a) == View(chain, ingest, r, a);
    if r < lo' {
      BetweenSplit(chain.ledger, lo + 1, r, lo');
      TouchedByAllAppend(Between(chain.ledger, lo + 1, r), Between(chain.ledger, r + 1, lo'));
      UntouchedIsUnchanged(chain, ingest, r, lo', a);
    }
  }

  /** One address after a revisit of the ones touched since the watermark: right as of the new one if it completes. */
  lemma RevisitedIsAsOf<T>(net: Network, chain: Chain, ingest: Ingest<T>, start: Cache<(Address, T)>,
                           s: Scanned<Address>, n: nat, v: Revisited<T>, a: Address)
    requires Honest(net, chain) && start.lastRound > 0 && s.clock > 0
    requires s.watermark.Some? && start.lastRound <= s.watermark.value == chain.roundAt(s.clock - 1)
    requires a in s.entries <==> a in TouchedByAll(Between(chain.ledger, start.lastRound + 1, s.watermark.value))
    requires RevisitedAs(net, ingest, s.clock, s.entries, n, start.entries, v)
    requires AsOf(chain, ingest, start.entries, a, start.lastRound, Latest(chain, v.clock))
    ensures AsOf(chain, ingest, v.entries, a, if v.ok then s.watermark.value else start.lastRound,
                 Latest(chain, v.clock))
  {
    var lo, hi := start.lastRound, Latest(chain, v.clock);
    LatestGrows(chain, s.clock, v.clock);
    LatestGrows(chain, s.clock, s.clock);
    if v.ok && a !in s.entries {
      UntouchedIsAsOf(chain, ingest, start.entries, a, lo, s.watermark.value, hi);
    }
    RevisitIsAsOf(net, chain, ingest, s.clock, s.entries, n, start.entries, v, a,
                  if v.ok then s.watermark.value else lo, hi);
  }

  /** The watermark and the snapshot a refresh leaves. */
  lemma IncrementIsSnapshot<T>(net: Network, chain: Chain, ingest: Ingest<T>, start: Cache<(Address, T)>, now: nat,
                               k: nat)
    requires Honest(net, chain) && Inv(chain, ingest, start, k)
    requires start.lastRound > 0 && start.lastUpdated > 0
    ensures var o := Increment(net, ingest, start, now, k);
            && o.clock > k && o.cache.lastRound <= Latest(chain, o.clock)
            && Snapshot(chain, ingest, o.cache.entries, o.cache.lastRound, Latest(chain, o.clock))
  {
    var s := Discovery(net, start, k);
    DiscoveredIsTouched(net, chain, start, k);
    var n := IncrementIsItsRequests(net, ingest, start, now, k);
    var o := Increment(net, ingest, start, now, k);
    LatestGrows(chain, k, o.clock);
    LatestGrows(chain, s.clock, o.clock);
    forall a: Address ensures AsOf(chain, ingest, o.cache.entries, a, o.cache.lastRound, Latest(chain, o.clock)) {
      assert AsOf(chain, ingest, start.entries, a, start.lastRound, Latest(chain, k));
      AsOfWidens(chain, ingest, start.entries, a, start.lastRound, Latest(chain, k),
                 start.lastRound, Latest(chain, o.clock));
      if s.watermark.Some? {
        RevisitedIsAsOf(net, chain, ingest, start, s, n, AsRevisited(o), a);
      }
    }
  }

  lemma IncrementKeepsInv<T>(net: Network, chain: Chain, ingest: Ingest<T>, start: Cache<(Address, T)>, now: nat,
                             k: nat)
    requires Honest(net, chain) && Inv(chain, ingest, start, k)
    requires start.lastRound > 0 && start.lastUpdated > 0
    ensures var o := Increment(net, ingest, start, now, k);
            && Inv(chain, ingest, o.cache, o.clock) && o.clock > k
            && Snapshot(chain, ingest, o.cache.entries, o.cache.lastRound, Latest(chain, o.clock))
  {
    IncrementIsSnapshot(net, chain, ingest, start, now, k);
    var s := Discovery(net, start, k);
    RevisitKeepsKeysApart(net, ingest, s.clock, s.entries, start.entries);
  }

  lemma FetchKeepsInv<T>(net: Network, chain: Chain, ingest: Ingest<T>, cache: Cache<(Address, T)>, call: Call, k: nat)
    requires Honest(net, chain) && Inv(chain, ingest, cache, k)
    ensures var o := Fetch(net, ingest, cache, call, k);
            && Inv(chain, ingest, o.cache, o.clock) && o.clock >= k
            && (o.ok && Plan(cache, call).Some?
                ==> Snapshot(chain, ingest, o.cache.entries, o.cache.lastRound, Latest(chain, o.clock)))
  {
    var start := Prepared(cache, call.mode);
    if Plan(cache, call) == Some(true) {
      RebuildKeepsInv(net, chain, ingest, start, call.now, k);
    } else if Plan(cache, call) == Some(false) {
      IncrementKeepsInv(net, chain, ingest, start, call.now, k);
    }
  }

  lemma {:induction false} RunKeepsInv<T>(net: Network, chain: Chain, ingest: Ingest<T>, cache: Cache<(Address, T)>,
                                          steps: seq<Step>, k: nat)
    requires Honest(net, chain) && Inv(chain, ingest, cache, k)
    ensures var o := Run(net, ingest, cache, steps, k); Inv(chain, ingest, o.cache, o.clock)
    decreases |steps|
  {
    if steps != [] {
      match steps[0]
      case Cleared => RunKeepsInv(net, chain, ingest, Empty(), steps[1..], k);
      case Refreshed(call) =>
        FetchKeepsInv(net, chain, ingest, cache, call, k);
        var o := Fetch(net, ingest, cache, call, k);
        RunKeepsInv(net, chain, ingest, o.cache, steps[1..], o.clock);
    }
  }

  /** A `ForceFull` that fails leaves a cache that the next refresh rebuilds, whatever its stamp. */
  lemma FailedRebuildIsRepeated<T>(net: Network, ingest: Ingest<T>, cache: Cache<(Address, T)>, call: Call, k: nat,
                                   refresh: Call)
    requires call.mode.ForceFull? && !Fetch(net, ingest, cache, call, k).ok && refresh.mode.Refresh?
    ensures Rebuilds(Fetch(net, ingest, cache, call, k).cache, refresh)
  {
  }

  /**
   After a success at a positive time, if the watermark is positive, a refresh asks nothing if and only
   if it comes within its lifetime.
   */
  lemma FreshRefreshIsFree<T>(net: Network, ingest: Ingest<T>, cache: Cache<(Address, T)>, call: Call, k: nat,
                              refresh: Call)
    requires call.now > 0 && !FromCache(cache, call) && Fetch(net, ingest, cache, call, k).ok
    requires Fetch(net, ingest, cache, call, k).cache.lastRound > 0
    requires refresh.mode.Refresh? && refresh.now >= call.now
    ensures var o := Fetch(net, ingest, cache, call, k);
            && (Fetch(net, ingest, o.cache, refresh, o.clock) == Outcome(o.cache, o.clock, true)
                <==> refresh.lifetime.Some? && refresh.now < call.now + refresh.lifetime.value)
  {
    var o := Fetch(net, ingest, cache, call, k);
    if Plan(o.cache, refresh).Some? {
      assert Discover(net, o.cache.lastRound + 1, o.clock, None, o.cache.lastRound, []).clock > o.clock;
    }
  }

  // ----- which calls ask what, and what they leave

  /** Answered from the cache: asked to, or a watermarked cache refreshed within the lifetime of its stamp. */
  predicate FromCache<T>(cache: Cache<(Address, T)>, call: Call) {
    || call.mode.CacheOnly?
    || (&& call.mode.Refresh? && cache.lastRound > 0 && cache.lastUpdated > 0
        && call.lifetime.Some? && call.lifetime.value > 0 && call.now < cache.lastUpdated + call.lifetime.value)
  }

  /** Rebuilt: asked to, or refreshed without a watermark or without a stamp. */
  predicate Rebuilds<T>(cache: Cache<(Address, T)>, call: Call) {
    call.mode.ForceFull? || (call.mode.Refresh? && (cache.lastRound == 0 || cache.lastUpdated == 0))
  }

  lemma PlanIs<T>(cache: Cache<(Address, T)>, call: Call)
    ensures Plan(cache, call) == if FromCache(cache, call) then None else Some(Rebuilds(cache, call))
  {
  }

  /** A call that is answered from the cache sends nothing and changes nothing. */
  lemma CachedCallIsFree<T>(net: Network, ingest: Ingest<T>, cache: Cache<(Address, T)>, call: Call, k: nat)
    requires FromCache(cache, call)
    ensures Fetch(net, ingest, cache, call, k) == Outcome(cache, k, true)
  {
    PlanIs(cache, call);
  }

  /**
   The requests of a rebuild, in order: full pages only, each after the first sending the token of the
   reply before it. The rebuild fails if and only if the last one it sent did.
   */
  lemma RebuildFailsWithItsLastRequest<T>(net: Network, ingest: Ingest<T>, cache: Cache<(Address, T)>, call: Call,
                                          k: nat)
    requires Rebuilds(cache, call)
    ensures var o := Fetch(net, ingest, cache, call, k);
            var replies := Replies(net.FullPages(), net.horizon, k, None);
            && |replies| == o.clock - k > 0
            && replies[0] == net.FullPage(k, None) && Follow(net.FullPages(), k, replies)
            && (!o.ok <==> replies[|replies| - 1].Err?)
  {
    PlanIs(cache, call);
    FullScanIsItsReplies(net, ingest, k, None, None, []);
    RepliesFollow(net.FullPages(), net.horizon, k, None);
  }

  /**
   What a rebuild leaves: exactly what its pages brought. If it succeeds, that is stamped with its time
   and watermarked at the least round of its pages; if it fails the stamp is the old one, and so is the
   watermark, which `ForceFull` has set to zero.
   */
  lemma RebuildLeaves<T>(net: Network, ingest: Ingest<T>, cache: Cache<(Address, T)>, call: Call, k: nat)
    requires Rebuilds(cache, call)
    ensures var o := Fetch(net, ingest, cache, call, k);
            var replies := Replies(net.FullPages(), net.horizon, k, None);
            && o.cache.entries == Ingested(RowsOf(replies), ingest)
            && o.cache.lastUpdated == (if o.ok then call.now else cache.lastUpdated)
            && if o.ok then Smallest(o.cache.lastRound, None, replies)
               else o.cache.lastRound == if call.mode.ForceFull? then 0 else cache.lastRound
  {
    PlanIs(cache, call);
    FullScanBrings(net, ingest, k, None, None, []);
    FullScanWatermark(net, ingest, k, None, None, []);
    var found := Ingested(RowsOf(Replies(net.FullPages(), net.horizon, k, None)), ingest);
    assert [] + found == found;
  }

  lemma RefreshIsIncrement<T>(net: Network, ingest: Ingest<T>, cache: Cache<(Address, T)>, call: Call, k: nat)
    requires !FromCache(cache, call) && !Rebuilds(cache, call)
    ensures Fetch(net, ingest, cache, call, k) == Increment(net, ingest, cache, call.now, k)
  {
    PlanIs(cache, call);
  }

  /** The stamp and watermark of an increment, by its discovery. */
  lemma IncrementStamps<T>(net: Network, ingest: Ingest<T>, start: Cache<(Address, T)>, now: nat, k: nat)
    ensures var o := Increment(net, ingest, start, now, k);
            var s := Discovery(net, start, k);
            if o.ok then o.cache.lastUpdated == now && s.watermark == Some(o.cache.lastRound)
            else o.cache.lastUpdated == start.lastUpdated && o.cache.lastRound == start.lastRound
  {
  }

  /**
   The requests of any other refresh, in order: those of a discovery past the watermark, and if its last
   one did not fail, one lookup of each address found, until one fails. The refresh fails if and only if
   its last request did, and then holds what the lookups before it said.
   */
  lemma RefreshFailsWithItsLastRequest<T>(net: Network, ingest: Ingest<T>, cache: Cache<(Address, T)>, call: Call,
                                          k: nat)
    returns (n: nat)
    requires !FromCache(cache, call) && !Rebuilds(cache, call)
    ensures var o := Fetch(net, ingest, cache, call, k);
            var s := Discovery(net, cache, k);
            var replies := Replies(net.ChangedPages(cache.lastRound + 1), net.horizon, k, None);
            && |replies| == s.clock - k > 0
            && replies[0] == net.Changed(k, cache.lastRound + 1, None)
            && Follow(net.ChangedPages(cache.lastRound + 1), k, replies)
            && if replies[|replies| - 1].Err? then o == Outcome(cache, s.clock, false)
               else RevisitedAs(net, ingest, s.clock, s.entries, n, cache.entries, AsRevisited(o))
  {
    RefreshIsIncrement(net, ingest, cache, call, k);
    DiscoveryReplies(net, cache, k);
    n := IncrementIsItsRequests(net, ingest, cache, call.now, k);
  }

  /**
   The stamp and watermark it leaves: if it succeeds, its time and the greatest round of the discovery,
   never an earlier one; if it fails, at any request, the old ones.
   */
  lemma RefreshLeaves<T>(net: Network, ingest: Ingest<T>, cache: Cache<(Address, T)>, call: Call, k: nat)
    requires !FromCache(cache, call) && !Rebuilds(cache, call)
    ensures var o := Fetch(net, ingest, cache, call, k);
            if o.ok then
              && o.cache.lastUpdated == call.now
              && Greatest(o.cache.lastRound, cache.lastRound,
                          Replies(net.ChangedPages(cache.lastRound + 1), net.horizon, k, None))
            else o.cache.lastUpdated == cache.lastUpdated && o.cache.lastRound == cache.lastRound
  {
    var o := Increment(net, ingest, cache, call.now, k);
    RefreshIsIncrement(net, ingest, cache, call, k);
    IncrementStamps(net, ingest, cache, call.now, k);
    if o.ok {
      DiscoveryFinds(net, cache, k);
    }
  }

  // ----- the entries, one by one

  lemma RemoveStep<T>(first: (Address, T), rest: Entries<T>, a: Address)
    ensures Remove([first] + rest, a) == if first.0 == a then Remove(rest, a) else [first] + Remove(rest, a)
  {
    assert ([first] + rest)[1..] == rest;
  }

  /** Removing goes entry by entry: each one of the address is dropped, and the others keep their order. */
  lemma {:induction false} RemoveOneByOne<T>(entries: Entries<T>, last: (Address, T), a: Address)
    ensures Remove(entries + [last], a) == Remove(entries, a) + if last.0 == a then [] else [last]
  {
    var kept := if last.0 == a then [] else [last];
    if entries == [] {
      RemoveStep(last, [], a);
      assert entries + [last] == [last] + [];
    } else {
      RemoveOneByOne(entries[1..], last, a);
      RemoveFirst(entries[0], entries[1..], last, kept, a);
      assert [entries[0]] + entries[1..] == entries;
    }
  }

  lemma RemoveFirst<T>(first: (Address, T), rest: Entries<T>, last: (Address, T), kept: Entries<T>, a: Address)
    requires Remove(rest + [last], a) == Remove(rest, a) + kept
    ensures Remove([first] + rest + [last], a) == Remove([first] + rest, a) + kept
  {
    RemoveStep(first, rest + [last], a);
    RemoveStep(first, rest, a);
    SeqAssoc([first], rest, [last]);
    SeqAssoc([first], Remove(rest, a), kept);
  }

  /** The addresses of a transaction come up in order: its sender, its accounts, those of the ones it issued. */
  lemma TouchedInOrder(txn: AppTxn, x: seq<AppTxn>, y: seq<AppTxn>)
    ensures Touched(txn.(inner := [])) == [txn.sender] + txn.accounts
    ensures Touched(txn.(inner := x + y)) == Touched(txn.(inner := x)) + TouchedByAll(y)
  {
    TouchedByAllAppend(x, y);
    assert [txn.sender] + txn.accounts + [] == [txn.sender] + txn.accounts;
  }

  // ----- main results

  /**
   After any history, whatever succeeded or failed in it: no address is held twice, and if the cache
   is watermarked and stamped, each address is held (or absent) as it was at some round the indexer
   has reached, no earlier than the watermark.
   */
  lemma SnapshotInvariant<T>(net: Network, chain: Chain, ingest: Ingest<T>, steps: seq<Step>, k: nat)
    requires Honest(net, chain)
    ensures var o := Run(net, ingest, Empty(), steps, k);
            && NoRepeats(Keys(o.cache.entries))
            && (o.cache.lastRound > 0 && o.cache.lastUpdated > 0 ==>
                  && o.clock > 0
                  && Snapshot(chain, ingest, o.cache.entries, o.cache.lastRound, chain.roundAt(o.clock - 1)))
  {
    RunKeepsInv(net, chain, ingest, Empty(), steps, k);
  }

  /** From round `q` on, no account's state changes. */
  ghost predicate QuietFrom(chain: Chain, q: Round) {
    forall r: Round, a: Address :: q <= r ==> chain.state(r, a) == chain.state(q, a)
  }

  lemma QuietSnapshot<T>(chain: Chain, ingest: Ingest<T>, entries: Entries<T>, lo: Round, hi: Round, q: Round,
                         a: Address)
    requires QuietFrom(chain, q) && q <= lo && Snapshot(chain, ingest, entries, lo, hi)
    ensures Entry(entries, a) == View(chain, ingest, q, a)
  {
    assert AsOf(chain, ingest, entries, a, lo, hi);
    var r: Round :| lo <= r <= hi && Entry(entries, a) == View(chain, ingest, r, a);
  }

  /**
   After any history, a refresh that is not answered from the cache and succeeds, with a watermark
   past the last change of state, holds for every address what a full scan of a new cache holds.
   */
  lemma IncrementalEqualsFull<T>(net: Network, chain: Chain, ingest: Ingest<T>, steps: seq<Step>, k: nat,
                                 refresh: Call, full: Call, q: Round, a: Address)
    requires Honest(net, chain) && QuietFrom(chain, q)
    requires refresh.mode.Refresh? && full.mode.ForceFull?
    requires var h := Run(net, ingest, Empty(), steps, k);
             var o := Fetch(net, ingest, h.cache, refresh, h.clock);
             && !FromCache(h.cache, refresh)
             && o.ok && q <= o.cache.lastRound
             && Fetch(net, ingest, Empty(), full, o.clock).ok
    ensures var h := Run(net, ingest, Empty(), steps, k);
            var o := Fetch(net, ingest, h.cache, refresh, h.clock);
            Entry(o.cache.entries, a) == Entry(Fetch(net, ingest, Empty(), full, o.clock).cache.entries, a)
  {
    RunKeepsInv(net, chain, ingest, Empty(), steps, k);
    var h := Run(net, ingest, Empty(), steps, k);
    PlanIs(h.cache, refresh);
    FetchKeepsInv(net, chain, ingest, h.cache, refresh, h.clock);
    var o := Fetch(net, ingest, h.cache, refresh, h.clock);
    QuietSnapshot(chain, ingest, o.cache.entries, o.cache.lastRound, Latest(chain, o.clock), q, a);
    assert Inv<T>(chain, ingest, Empty(), o.clock);
    FetchKeepsInv(net, chain, ingest, Empty(), full, o.clock);
    var f := Fetch(net, ingest, Empty(), full, o.clock);
    FullWatermark(net, chain, ingest, o.clock, None, None, []);
    QuietSnapshot(chain, ingest, f.cache.entries, f.cache.lastRound, Latest(chain, f.clock), q, a);
  }

  /** A full scan is watermarked no earlier than the round its first request was answered at. */
  lemma {:induction false} FullWatermark<T>(net: Network, chain: Chain, ingest: Ingest<T>, k: nat,
                                            token: Option<Token>, watermark: Option<Round>, entries: Entries<T>)
    requires Honest(net, chain)
    ensures var s := FullScan(net, ingest, k, token, watermark, entries);
            s.watermark.Some? ==> s.watermark.value >= Least(watermark, chain.roundAt(k))
    decreases net.horizon - k
  {
    assert HonestFull(net, chain, k, token);
    var reply := net.FullPage(k, token);
    if reply.Ok? && reply.value.nextToken.Some? {
      assert chain.roundAt(k) <= chain.roundAt(k + 1);
      FullWatermark(net, chain, ingest, k + 1, reply.value.nextToken,
                    Some(Least(watermark, reply.value.currentRound)),
                    entries + Ingested(reply.value.rows, ingest));
    }
  }

  /** Some transaction of the rounds `first` to `last` names the address, at any depth. */
  ghost predicate TouchedIn(ledger: Round -> seq<AppTxn>, first: Round, last: Round, a: Address) {
    exists r: Round, txn :: first <= r <= last && txn in ledger(r) && Touches(txn, a)
  }

  lemma TouchedBetween(ledger: Round -> seq<AppTxn>, first: Round, last: Round, a: Address)
    ensures a in TouchedByAll(Between(ledger, first, last)) <==> TouchedIn(ledger, first, last, a)
  {
    var all := Between(ledger, first, last);
    TouchedByAllIsTouches(all, a);
    if i :| 0 <= i < |all| && Touches(all[i], a) {
      InBetween(ledger, first, last, all[i]);
    }
    if r: Round, txn :| first <= r <= last && txn in ledger(r) && Touches(txn, a) {
      InBetween(ledger, first, last, txn);
      var i :| 0 <= i < |all| && all[i] == txn;
      assert Touches(all[i], a);
    }
  }

  /** The addresses discovered are the ones some transaction past the watermark names. */
  lemma DiscoveredIsTouchedIn<T>(net: Network, chain: Chain, start: Cache<(Address, T)>, k: nat, s: Scanned<Address>)
    requires Honest(net, chain) && WellFormed(chain, start, k)
    requires s == Discovery(net, start, k) && s.watermark.Some?
    ensures NoRepeats(s.entries)
    ensures forall a :: a in s.entries <==> TouchedIn(chain.ledger, start.lastRound + 1, s.watermark.value, a)
  {
    DiscoveredIsTouched(net, chain, start, k);
    forall a ensures a in s.entries <==> TouchedIn(chain.ledger, start.lastRound + 1, s.watermark.value, a) {
      TouchedBetween(chain.ledger, start.lastRound + 1, s.watermark.value, a);
    }
  }

  /**
   A successful incremental refresh looks up each address named by a transaction, at any depth, of the
   rounds past the old watermark, each exactly once, and no other. It then holds what was made of those
   lookups, and for every other address what it held before.
   */
  lemma ReReadsExactlyTheTouched<T>(net: Network, chain: Chain, ingest: Ingest<T>, cache: Cache<(Address, T)>,
                                    call: Call, k: nat)
    requires Honest(net, chain) && WellFormed(chain, cache, k)
    requires !FromCache(cache, call) && !Rebuilds(cache, call) && Fetch(net, ingest, cache, call, k).ok
    ensures var o := Fetch(net, ingest, cache, call, k);
            var s := Discovery(net, cache, k);
            && NoRepeats(s.entries)
            && (forall a :: a in s.entries <==> TouchedIn(chain.ledger, cache.lastRound + 1, o.cache.lastRound, a))
            && o.clock == s.clock + |s.entries|
            && (forall i: nat :: i < |s.entries| ==> HoldsLookup(net, ingest, s.clock, s.entries, o.cache.entries, i))
            && (forall a :: a !in s.entries ==> SameEntry(cache.entries, o.cache.entries, a))
  {
    RefreshIsIncrement(net, ingest, cache, call, k);
    var s := Discovery(net, cache, k);
    DiscoveredIsTouchedIn(net, chain, cache, k, s);
    var n := IncrementIsItsRequests(net, ingest, cache, call.now, k);
    assert s.entries[..|s.entries|] == s.entries;
  }

  // ----- why the least round of the pages, and not the greatest

  const OPT_IN := AppTxn(0, [], [])
  const AS_READ: Ingest<LocalState> := (account: ScannedAccount) => Some(account.localState)

  /** An account at address 0 that opts in at round 2, in a transaction of its own. */
  function LateOptIn(r: Round, a: Address): Option<LocalState> {
    if a == 0 && r >= 2 then Some([]) else None
  }

  function RacedChain(): Chain {
    Chain((r: Round) => if r == 2 then [OPT_IN] else [], LateOptIn, (k: nat) => if k == 0 then 1 else 2,
          (floor: Option<Round>, token: Token) => 0, (token: Token) => 1)
  }

  /** Two full-scan pages, [0, 1) at round 1 and the rest at round 2. */
  function RacedPage(k: nat, token: Option<Token>): Result<AccountPage, NetError> {
    var round := if k == 0 then 1 else 2;
    if token.Some? then Ok(RowPage([], None, round))
    else if round == 1 then Ok(RowPage([], Some("1"), 1))
    else Ok(RowPage([ScannedAccount(0, [])], Some("1"), 2))
  }

  /** Only full scans are answered. */
  function RacedNetwork(): Network {
    Network(2, RacedPage, (k: nat, floor: Option<Round>, token: Option<Token>) => Err(NetError("unreachable")),
            (k: nat, a: Address) => Err(NetError("unreachable")))
  }

  lemma RaceIsHonest()
    ensures Honest(RacedNetwork(), RacedChain())
  {
    var net, chain := RacedNetwork(), RacedChain();
    forall k: nat, token: Option<Token> ensures HonestFull(net, chain, k, token) {
      var page := RacedPage(k, token).value;
      assert k > 0 && token.None? ==> page.rows[0].address == 0;
    }
    forall r: Round, a: Address ensures ChangesAreTouched(chain, r, a) {
      OptInTouches();
    }
    forall k: nat, floor: Option<Round>, token: Option<Token>
      ensures HonestPage(net.changed, chain.cursor, chain.ledger, chain.roundAt, k, floor, token)
    {
    }
  }

  lemma OptInTouches()
    ensures 0 in TouchedByAll([OPT_IN])
  {
    assert 0 in Touched(OPT_IN);
  }

  /** The scan finds nobody, and is watermarked at 1, although its second page came at round 2. */
  lemma RacedScan()
    ensures FullScan(RacedNetwork(), AS_READ, 0, None, None, []) == Scanned([], 2, Some(1))
  {
    var net := RacedNetwork();
    assert net.FullPage(0, None) == Ok(RowPage([], Some("1"), 1));
    assert net.FullPage(1, Some("1")) == Ok(RowPage([], None, 2));
    assert FullScan(net, AS_READ, 1, Some("1"), Some(1), []) == Scanned([], 2, Some(1));
  }

  /**
   A change that lands behind the frontier of a full scan is missed by it. At the least round of the
   pages the scan is still a snapshot; at the greatest it would not be, and as nothing changes after
   that round no later refresh would find the account.
   */
  lemma GreatestRoundLosesAccounts() returns (net: Network, chain: Chain, ingest: Ingest<LocalState>)
    ensures Honest(net, chain) && QuietFrom(chain, 2)
    ensures var s := FullScan(net, ingest, 0, None, None, []);
            && s.watermark == Some(1) && Snapshot(chain, ingest, s.entries, 1, 2)
            && net.FullPage(1, Some("1")).Ok? && net.FullPage(1, Some("1")).value.currentRound == 2
            && (forall r: Round :: r >= 2 ==> Entry(s.entries, 0) != View(chain, ingest, r, 0))
            && (forall r: Round :: r >= 3 ==> chain.ledger(r) == [])
  {
    net, chain, ingest := RacedNetwork(), RacedChain(), AS_READ;
    RaceIsHonest();
    RacedScan();
    forall a: Address ensures AsOf(chain, ingest, [], a, 1, 2) {
      assert View(chain, ingest, 1, a) == None;
    }
  }
}
