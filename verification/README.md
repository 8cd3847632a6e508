# Verified model of an Algorand client's caches, limiters and key vault

Four parts of the workspace, modelled in Dafny with the properties they are built for.

**Scan caches** (`Indexer`, `TransactionScan`, `AccountScan` and their `Theorems`). The two incremental
scan engines of `algo_ops`. The injected fetchers are functions of a request number, so they may answer
differently each time and fail at any point; what the indexer promises is the predicate `Honest` of
each theorem module. The chain is a ledger (the transactions that match the scan's filter) and a state
that never change behind the indexer's back, and `roundAt(k)`, the round reached at request `k`, which
never decreases. Each engine is a class whose fields the methods update; its contract equates the new
state with a function, and the theorems are about any sequence of calls to that function, successful
or not.

**Outbound limiters** (`TokenBucket`, `DailyBudget`, `ConcurrentBudget`, `Client`, `ClientTheorems`).
The token bucket, the wall-clock daily budget, the check/acquire/charge sequence before each request,
and the retry loop. Tokens and monotonic times are reals; clocks are parameters. The daily budget is
also modelled as threads that interleave check and record.

**Key vault** (`Bits`, `Mnemonic`, `SecretBlob`, `BackupPage`, `KeyFiles`, `Vault`, `SealCommand`,
`VanitySearch`). Mnemonics of any length, the binary secret form, backup pages, sealing key files on a
disk that can fail, store the wrong thing or stop at any step, the `seal` command, and the vanity
prefix search with its threads. Ciphers, key derivation, hashes and the JSON reader are parameters. The
sealing results assume nothing of the cipher: the code decrypts before it trusts.

**Wire formats** (`AbiSignature`, `Endpoint`). The ARC-4 signature splitter and argument framing, and the
endpoint record codec.

Where the code and its documentation differ, the model follows the code:

- The documentation of the transaction cache says that an empty cache does a full scan. The code decides
  by the stamp, so after a `ForceFull` that fails, a `Refresh` within the old stamp's lifetime leaves the
  partial cache as it is (`TransactionScanTheorems.FailedRebuildKeepsStamp`, `FailedRebuildLooksFresh`).
- The window of a clock reading is documented as the one starting at the greatest boundary at or before
  it. That holds if and only if the reading is at or past the day-start offset; below it the code clamps
  the start to the epoch (`DailyBudget.WindowStartIsBoundary`, `ClampedWindowStart`).
- A daily budget primed with more than its maximum has, counting what it was primed with, seen more than
  the maximum in its first window, although nothing more goes out in it
  (`DailyBudget.CapHoldsUnlessPrimedPast`, `PrimedPastMax`).

## Model

| member | source | states |
|---|---|---|
| TransactionScan.TxnScanCache.FetchTransactionsCachedWith | algo_ops/src/ops.rs:2455-2527 | a call leaves exactly the cache, request count and result of `Fetch`, by the engine's loops |
| TransactionScanTheorems.ScanDelivers | algo_ops/src/ops.rs:2492-2524 | a scan pushes one contiguous piece of the ledger from the first undelivered row; a complete one reaches the end of the round it is watermarked at |
| TransactionScanTheorems.ScanIsItsReplies | algo_ops/src/ops.rs:2492-2524 | a scan pushes what its replies bring, one request for each, and fails if and only if the last of them does |
| TransactionScanTheorems.CachedCallIsFree | algo_ops/src/ops.rs:2467-2490 | asked for the cache only, or refreshed within the lifetime of a stamp, a call sends nothing and changes nothing |
| TransactionScanTheorems.Coverage | algo_ops/src/ops.rs:2455-2527 | after any calls, failed ones included, every accepted transaction through the watermark is in the cache, and every entry comes from the ledger |
| TransactionScanTheorems.ExactAfterCall | algo_ops/src/ops.rs:2467-2524 | a call leaves an exact cache if and only if it spoils nothing and rebuilds, or is given an exact one; it spoils if it brings an accepted row and then its last request fails, or brings one to entries without a stamp |
| TransactionScanTheorems.Exactness | algo_ops/src/ops.rs:2467-2524 | after any calls, failed ones included, the entries are exactly the accepted ledger through the watermark, in order, without repeats, if and only if no call has spoilt them since the last `ForceFull`, that one included |
| TransactionScanTheorems.CleanRunsAreExact | algo_ops/src/ops.rs:2467-2524 | on runs after the epoch where no request fails after an earlier page of its call brought an accepted row, the entries are exactly the accepted ledger through the watermark |
| TransactionScanTheorems.ForceFullRestores | algo_ops/src/ops.rs:2473-2478 | a successful full rebuild makes any cache exact |
| TransactionScanTheorems.MidScanFailureRepeats | algo_ops/src/ops.rs:2496-2519 | a concrete indexer and run where a failure in the middle of a scan leaves an entry twice |
| TransactionScanTheorems.FreshRefreshIsFree | algo_ops/src/ops.rs:2479-2490 | after a success, a refresh is free of requests if and only if it comes within its lifetime |
| TransactionScanTheorems.FailedRebuildKeepsStamp | algo_ops/src/ops.rs:2473-2490 | a failed rebuild leaves an unwatermarked cache that is as fresh as it was, and is scanned from round 1 once it is not |
| TransactionScanTheorems.FailedRebuildLooksFresh | algo_ops/src/ops.rs:2473-2490 | a concrete rebuild that fails, after which a refresh within the old stamp's lifetime succeeds on an empty cache |
| TransactionScanTheorems.FailsWithItsLastRequest | algo_ops/src/ops.rs:2492-2524 | any other call sends the floor that its mode, stamp and watermark give, and each request the token of the reply before it; it fails if and only if the last one it sent did |
| TransactionScanTheorems.CallLeaves | algo_ops/src/ops.rs:2467-2524 | and leaves what the pages brought added to the entries, its time and the greatest round if it succeeds, and the old stamp and watermark if it fails |
| TransactionScanTheorems.KeptInOrder | algo_ops/src/ops.rs:2512-2516 | when everything is accepted, each transaction gives one entry, in order |
| AccountScan.TouchedIsTouches | algo_ops/src/ops.rs:2939-2956 | the addresses collected from a transaction tree are exactly the ones it names at any depth |
| AccountScan.CollectChangedAddresses | algo_ops/src/ops.rs:2939-2956 | the recursive walk appends exactly those addresses, in order |
| AccountScanTheorems.TouchedInOrder | algo_ops/src/ops.rs:2939-2956 | addresses come up in order: the sender, the accounts, those of the transactions issued |
| AccountScan.Network.FetchChangedAddressesPage | algo_ops/src/ops.rs:2878-2931 | a change-discovery page lists the addresses of its transactions |
| AccountScan.Upsert | algo_ops/src/ops.rs:2814-2820 | the address gets the entry, no other changes, and no address is added twice |
| AccountScan.Remove | algo_ops/src/ops.rs:2823-2825 | the address has no entry, and no other changes |
| AccountScanTheorems.RemoveOneByOne | algo_ops/src/ops.rs:2823-2825 | removing drops each entry of the address, and keeps the order of the others |
| AccountScan.AccountScanCache.Clear | algo_ops/src/ops.rs:498-500 | the cache is empty again |
| AccountScan.AccountScanCache.FetchOptedInAccountsCachedWith | algo_ops/src/ops.rs:2682-2807 | a call leaves exactly the cache, request count and result of `Fetch` |
| AccountScan.AccountScanCache.ScanAll | algo_ops/src/ops.rs:2719-2760 | the full-scan loop, with the least page round as watermark |
| AccountScan.AccountScanCache.DiscoverChanged | algo_ops/src/ops.rs:2765-2787 | the discovery loop, with the greatest page round and first-seen order |
| AccountScanTheorems.FullScanIsSnapshot | algo_ops/src/ops.rs:2719-2760 | a full scan repeats no address and, when complete, holds every address as of a round at or after its watermark |
| AccountScanTheorems.SnapshotInvariant | algo_ops/src/ops.rs:2682-2807 | after any history of refreshes and clears, failed ones included: addresses are distinct, and a watermarked, stamped cache holds each address as of a round from the watermark to that of the last request |
| AccountScanTheorems.IncrementalEqualsFull | algo_ops/src/ops.rs:2764-2803 | after any history, a refresh past the last change holds for every address what a full scan of a new cache holds |
| AccountScanTheorems.ReReadsExactlyTheTouched | algo_ops/src/ops.rs:2771-2800 | a refresh looks up each address named by a transaction past the watermark exactly once, in order, and no other; each then holds what was made of its lookup, and every other address what it held |
| AccountScanTheorems.GreatestRoundLosesAccounts | algo_ops/src/ops.rs:2721-2730 | a concrete race in which the greatest page round would lose an account and the least does not |
| AccountScanTheorems.FailedRebuildIsRepeated | algo_ops/src/ops.rs:2699-2708 | after a rebuild that failed, the next refresh rebuilds |
| AccountScanTheorems.CachedCallIsFree | algo_ops/src/ops.rs:2699-2717 | asked for the cache only, or a watermarked cache refreshed within the lifetime of its stamp, a call sends nothing and changes nothing |
| AccountScanTheorems.FreshRefreshIsFree | algo_ops/src/ops.rs:2699-2717 | after a success, a refresh of a watermarked cache is free of requests if and only if it comes within its lifetime |
| AccountScanTheorems.RebuildFailsWithItsLastRequest | algo_ops/src/ops.rs:2719-2760 | a rebuild, and a refresh of a cache without watermark or stamp, sends full pages only, each request the token of the reply before it; it fails if and only if the last one it sent did |
| AccountScanTheorems.RebuildLeaves | algo_ops/src/ops.rs:2699-2760 | and leaves exactly what its pages brought, its time and the least round if it succeeds, and the old stamp if it fails |
| AccountScanTheorems.RefreshFailsWithItsLastRequest | algo_ops/src/ops.rs:2764-2807 | any other refresh sends a discovery past the watermark, then one lookup of each address found until one fails; it fails if and only if its last request did, and what was looked up before that is held |
| AccountScanTheorems.RefreshLeaves | algo_ops/src/ops.rs:2764-2807 | and leaves its time and the greatest round of the discovery if it succeeds, and the old stamp and watermark if it fails at any request |
| AccountScanTheorems.DiscoveryFinds | algo_ops/src/ops.rs:2765-2787 | a discovery finds the addresses of its pages, each once, in the order they came up |
| TokenBucket.RateLimiter.Poll | algo_ops/src/ops.rs:161-173 | a poll leaves the bucket and returns the wait of `PollAt` |
| TokenBucket.PollTakesOneOrNone | algo_ops/src/ops.rs:161-173 | a poll takes one token exactly when its wait is zero, and tokens stay within the capacity |
| TokenBucket.NewIsFull | algo_ops/src/ops.rs:143-155 | a new bucket is full, and its rate fills it once in the configured time; a zero counts as one |
| TokenBucket.BackwardPoll | algo_ops/src/ops.rs:161-173 | a poll at an earlier time refills nothing, and the next refill counts from it |
| TokenBucket.TokensStayInRange | algo_ops/src/ops.rs:143-174 | after any polls at any times the tokens are within zero and the capacity |
| TokenBucket.SlidingWindow | algo_ops/src/ops.rs:143-174 | between any two times of any run, at most a full bucket and the refill in between is granted |
| TokenBucket.RetryAfterIsExact | algo_ops/src/ops.rs:161-173 | after a wait `w` at `u` and any rejected polls, a poll at `v` is granted if and only if `v >= u + w` |
| DailyBudget.DailyLimiter.Check | algo_ops/src/ops.rs:255-263 | a check rolls the window, peeks, and returns the wait to the next day-start |
| DailyBudget.DailyLimiter.Record | algo_ops/src/ops.rs:268-271 | a record rolls the window and counts one, saturating |
| DailyBudget.WindowStartIsBoundary | algo_ops/src/ops.rs:219-225 | the computed start is the boundary at or before the reading if and only if the reading is at or past the offset |
| DailyBudget.NewStartsWith | algo_ops/src/ops.rs:239-253 | a new budget has the configured maximum, the offset within a day, what it is primed with, and the window of its reading |
| DailyBudget.RollsEitherWay | algo_ops/src/ops.rs:227-237 | for any reading, earlier ones too: within the window a roll changes nothing, otherwise it starts the reading's window with nothing spent |
| DailyBudget.CheckOnlyPeeks | algo_ops/src/ops.rs:255-263 | a check only rolls, and refuses if and only if `max` is spent, until the window ends |
| DailyBudget.ClampedWindowStart | algo_ops/src/ops.rs:219-225 | a concrete reading below the offset whose window starts at the epoch instead of the boundary before it |
| DailyBudget.SpentIsCount | algo_ops/src/ops.rs:227-271 | over any run the counter is exactly what went out in its window, on top of what it was primed with |
| DailyBudget.DailyCap | algo_ops/src/ops.rs:218-272 | no window sees more than `max`, primed requests included, unless it was primed with more, and then none goes out in it |
| DailyBudget.CapHoldsUnlessPrimedPast | algo_ops/src/ops.rs:218-272 | every window stays within `max`, primed requests included, if and only if no more than `max` were primed |
| DailyBudget.PrimedPastMax | algo_ops/src/ops.rs:227-263 | a concrete budget whose first window has seen more than its maximum |
| DailyBudget.RefusalIsTight | algo_ops/src/ops.rs:255-263 | a check refuses if and only if its window has seen `max`, and its wait ends on the next boundary, where a check succeeds if and only if `max` is positive |
| ConcurrentBudget.SoftCap | algo_ops/src/ops.rs:196-201 | `n` threads in any interleaving within one window record at most `max + n - 1`, and none when `max` is zero |
| ConcurrentBudget.SoftCapIsReached | algo_ops/src/ops.rs:196-201 | for every `n` and positive `max`, some interleaving records exactly that many |
| Client.AlgoOps.ApplyRateLimit | algo_ops/src/ops.rs:882-928 | check, acquire, charge, in that order, leaves the limiters and counter of `Apply`; `ClientTheorems.WhenRefused` says when that refuses |
| Client.AlgoOps.AcquireToken | algo_ops/src/ops.rs:899-918 | the blocking loop ends, after at most one sleep |
| Client.OneSleepIsEnough | algo_ops/src/ops.rs:906-917 | a lone caller that sleeps for the wait is granted by its next poll |
| Client.AlgoOps.CallWithRetry | algo_ops/src/ops.rs:1035-1084 | the retry loop returns and leaves what `Retry` says, and ends |
| ClientTheorems.AllOrNothing | algo_ops/src/ops.rs:870-928 | each request takes one token, one daily unit and one count, or none of them |
| ClientTheorems.WhenAcquired | algo_ops/src/ops.rs:899-918 | a token at hand is given at once; without one, rejecting refuses with the exact wait and blocking sleeps for it |
| ClientTheorems.WhenRefused | algo_ops/src/ops.rs:882-928 | a request is refused by the budget if and only if its window has seen `max`, with the time to the next boundary and before anything else; by the bucket if and only if the mode rejects and less than a token is there |
| ClientTheorems.ChargesAgree | algo_ops/src/ops.rs:882-928 | over any calls on any days, the rise of the counter is the tokens taken and the requests recorded |
| ClientTheorems.RequestsAreBounded | algo_ops/src/ops.rs:882-928 | over any calls, requests are bounded by the bucket and its refill, and within a day by the budget |
| ClientTheorems.DailyCapOverDays | algo_ops/src/ops.rs:882-928 | over any calls on any number of days, retries included, the requests made in each window stay within `max`, primed ones included |
| ClientTheorems.CallOutcome | algo_ops/src/ops.rs:1035-1084 | at most four attempts; the call ends with the first that is refused or whose response is not retried, or the fourth, with the result that one gives, counting every attempt let out |
| ClientTheorems.WhenRetried | algo_ops/src/ops.rs:956-989 | retried are 408, 425, 429, 502, 503 and 504 on any call, and 500 on an indexer read |
| ClientTheorems.SleepsBetweenAttempts | algo_ops/src/ops.rs:1054-1069 | between attempts a call sleeps for one second, then two, then four |
| Bits.OrIsAdd | blockchain_account_vault/src/mnemonic.rs:88 | or-ing in bits above the ones held is addition |
| Bits.MaskIsLow | blockchain_account_vault/src/mnemonic.rs:91-92 | masking keeps the low bits |
| Mnemonic.ShiftIn | blockchain_account_vault/src/mnemonic.rs:88-89 | a group is shifted in without loss, and the accumulator stays within 18 bits |
| Mnemonic.ToU11 | blockchain_account_vault/src/mnemonic.rs:83-100 | the 11-bit groups, ceil(8n/11) of them, of the number the bytes spell |
| Mnemonic.ToBytes | blockchain_account_vault/src/mnemonic.rs:104-121 | the bytes, ceil(11m/8) of them, of the number the groups spell |
| Mnemonic.ValueIsPreserved | blockchain_account_vault/src/mnemonic.rs:81-100 | the words and the bytes spell the same number, in ceil(8n/11) words |
| Mnemonic.ChecksumWordIs | blockchain_account_vault/src/mnemonic.rs:76-79 | the checksum word is the one at the first 11 bits of the digest, least significant first |
| Mnemonic.BytesToMnemonic | blockchain_account_vault/src/mnemonic.rs:32-40 | the words at the groups and the checksum word, joined |
| Mnemonic.MnemonicToBytes | blockchain_account_vault/src/mnemonic.rs:46-74 | each refusal and the accepted bytes, as `Decoded` gives them |
| Mnemonic.EncodedIs | blockchain_account_vault/src/mnemonic.rs:32-40 | a mnemonic is the words spelling the bytes' number and the digest's word, with one space between two words |
| Mnemonic.DecodedIs | blockchain_account_vault/src/mnemonic.rs:46-74 | decoding accepts if and only if there is a last word, the others are listed and enough, and the last is the word of the bytes' digest; and each refusal |
| Mnemonic.RoundTrip | blockchain_account_vault/src/mnemonic.rs:32-74 | decoding a mnemonic gives back the bytes it was made from, for every length |
| Mnemonic.CanonicalMnemonics | blockchain_account_vault/src/mnemonic.rs:42-74 | an accepted mnemonic is the one its bytes encode to if and only if it has no spare words and zero padding |
| SecretBlob.EncryptSecret | blockchain_account_vault/src/envelope.rs:218-248 | appends the fields in order, refusing costs over a byte |
| SecretBlob.DecryptSecret | blockchain_account_vault/src/envelope.rs:251-276 | reads the fields off and decrypts, with each refusal |
| SecretBlob.LayoutIs | blockchain_account_vault/src/envelope.rs:215-248 | where each field of a blob is, the memory cost lowest byte first |
| SecretBlob.EncryptedIs | blockchain_account_vault/src/envelope.rs:218-248 | what encryption lays out, and which of its failures comes first |
| SecretBlob.DecryptedIs | blockchain_account_vault/src/envelope.rs:251-276 | what decryption gives by the bytes of the blob, with each refusal |
| SecretBlob.ParsedOfLayout | blockchain_account_vault/src/envelope.rs:215-276 | parsing undoes the layout |
| SecretBlob.LayoutOfParsed | blockchain_account_vault/src/envelope.rs:251-267 | a blob that parses is the layout of its fields |
| SecretBlob.SecretRoundTrip | blockchain_account_vault/src/envelope.rs:209-276 | an encrypted secret is 51 bytes longer and opens under its password |
| BackupPage.AcceptedPagesFitAndRecover | blockchain_account_vault/src/vault.rs:354-384 | every page made has at most 108 words and can be read back to the secret it carries |
| BackupPage.PageIs | blockchain_account_vault/src/vault.rs:354-384 | what is on a page: the name, an account's address, whether it is encrypted, and the same printed secret in QR code and mnemonic; and each refusal |
| BackupPage.LongestPrintableSecret | blockchain_account_vault/src/vault.rs:28-30 | the text printed for a sealed secret has at most 108 words if and only if the secret is at most 96 bytes |
| BackupPage.ShortSecretsArePrinted | blockchain_account_vault/src/vault.rs:354-384 | of contents that are no account, a page is made if and only if there are at most 96 bytes and, when sealed, the cipher works |
| BackupPage.AccountPageWords | blockchain_account_vault/src/vault.rs:354-384 | the page made of an account has 25 words in the clear and 62 sealed |
| BackupPage.AccountSecretIsItsKey | blockchain_account_vault/src/vault.rs:356-360 | an account's stored passphrase gives its key, whatever white space surrounds it |
| KeyFiles.FoundAreProperlyNamed | blockchain_account_vault/src/vault.rs:90-123 | no discovered key file's plaintext name, at any depth, ends in the sealed suffix |
| KeyFiles.Discover | blockchain_account_vault/src/vault.rs:106-123 | the recursive listing finds the key files of the tree, and fails if a directory it lists does |
| KeyFiles.FoundIsNamed | blockchain_account_vault/src/vault.rs:106-123 | a key file is found if and only if a file of the directory, or when recursive of one beneath it at any depth, names it; the listing fails if and only if a directory to be listed cannot be read |
| KeyFiles.KeyFileNames | blockchain_account_vault/src/vault.rs:90-97 | key file names are those ending in `.json` or `.key` after something, with `.enc` after that or not, and no others |
| KeyFiles.EitherNameIsIt | blockchain_account_vault/src/vault.rs:44-63 | both names of a key file name it, and the sealed one is the other with `.enc` after it |
| KeyFiles.NamesAreApart | blockchain_account_vault/src/vault.rs:44-63 | the two names of one key file never collide with another's |
| Vault.Disk.WritePrivate | blockchain_account_vault/src/vault.rs:311-327 | only the new path changes in any state, and an existing file is never written |
| Vault.Vault.Open | blockchain_account_vault/src/vault.rs:159-183 | returns what the key file opens to, and whether it had to be decrypted; a known password that opens it is kept and needs no prompt; which error it fails with |
| Vault.Vault.Decrypt | blockchain_account_vault/src/vault.rs:185-205 | a password is kept only once it has opened a file |
| Vault.Vault.CheckOpens | blockchain_account_vault/src/vault.rs:208-215 | succeeds only if the password opens the sealed file, and if it does unless the read fails |
| Vault.Vault.Seal | blockchain_account_vault/src/vault.rs:222-261 | in every disk state the call passes through the key file opens to what it did before; a sealed-only file opens under the password; nothing else is touched; what a success leaves on disk, when each error comes, and on a reliable disk it succeeds if and only if the contents can be sealed |
| Vault.Vault.SealNew | blockchain_account_vault/src/vault.rs:266-283 | no existing file changes in any state, and a success opens to the bytes; on a reliable disk it succeeds if and only if what was encrypted decrypts to them |
| SealCommand.SealKeepsTreeSafe | blockchain_account_vault/src/bin/blockchain-account-vault.rs:231-237 | sealing one key file keeps every key file of the tree and the single password |
| SealCommand.CheckAll | blockchain_account_vault/src/bin/blockchain-account-vault.rs:223-229 | the checks pass only if the password opens the reference file and every sealed one, and whenever it does on a reliable disk |
| SealCommand.Seal | blockchain_account_vault/src/bin/blockchain-account-vault.rs:214-240 | nothing is written before the checks pass; after that, in every disk state, no key is lost and the tree is under one password; it reports how many files were sealed, all of them when it completes; on a reliable disk it completes if the checks pass and every file can be sealed |
| VanitySearch.NormalisedIsSearchable | blockchain_account_vault/src/account.rs:78-90 | an accepted prefix is one to eight base32 characters, decided by at most five key bytes |
| VanitySearch.NormalisedIs | blockchain_account_vault/src/account.rs:76-90 | an accepted prefix is the given one in upper case; which prefixes are refused, and why |
| VanitySearch.Base32Spells | blockchain_account_vault/src/account.rs:143-147 | base32 text spells the number of its bytes, filled up with zero bits |
| VanitySearch.AddressIs | blockchain_account_vault/src/account.rs:170-177 | an address is 58 characters that spell the key and the last four bytes of its digest |
| VanitySearch.PrefixIsDecided | blockchain_account_vault/src/account.rs:129-150 | the leading ceil(5n/8) key bytes decide whether the whole address starts with an n-character prefix |
| VanitySearch.MatchesIs | blockchain_account_vault/src/account.rs:143-147 | the test on the leading bytes succeeds if and only if the whole address starts with the prefix |
| VanitySearch.FoundIsKept | blockchain_account_vault/src/account.rs:139-156 | in every reachable state `done` means a seed was found, and a found seed is never replaced |
| VanitySearch.MatchEndsSearch | blockchain_account_vault/src/account.rs:139-156 | a thread that generates a match keeps it, unless one was kept before, and ends the search |
| VanitySearch.SearchIsCorrect | blockchain_account_vault/src/account.rs:99-158 | once all threads exit, in any interleaving, the result's address has the prefix and `tries` counts every key generated |
| AbiSignature.AbiArgTypes | algo_ops/src/ops.rs:4691-4735 | the two scans return what `ArgTypes` says |
| AbiSignature.SplitterInvertsPrinter | algo_ops/src/ops.rs:4686-4735 | splitting a printed signature gives back its top-level argument types, for every type tree |
| AbiSignature.SplitterDropsSpaces | algo_ops/src/ops.rs:4691-4735 | white space around the arguments does not matter |
| AbiSignature.ArgTypesAre | algo_ops/src/ops.rs:4691-4717 | for any text: there is a list if and only if a parenthesis is open and one closes it, and the list is what is between them |
| AbiSignature.PartsAre | algo_ops/src/ops.rs:4718-4735 | for any text: each comma outside all brackets ends an argument, and no other; arguments are trimmed |
| AbiSignature.DynamicTypes | algo_ops/src/ops.rs:4753 | the printed types that are framed are the dynamic byte array and the string, and no others |
| AbiSignature.FrameAllIs | algo_ops/src/ops.rs:4745-4769 | framing is argument by argument, and fails at the first that is too long |
| AbiSignature.FramesExactlyTheDynamicOnes | algo_ops/src/ops.rs:4737-4769 | exactly the dynamic arguments are framed, with their length in two bytes, higher first, before the payload, and it fails if and only if one is over 65535 bytes |
| AbiSignature.NothingToFrame | algo_ops/src/ops.rs:4745-4769 | without a signature, or with one without an argument list, nothing is framed and nothing fails |
| AbiSignature.BytesOfArg | algo_ops/src/ops.rs:4678-4686 | an integer argument is eight bytes, highest first; the others are their bytes |
| Endpoint.ToBytes | sw_identity_tls/src/endpoint.rs:73-92 | the flags and blocks of the record |
| Endpoint.FromBytes | sw_identity_tls/src/endpoint.rs:96-122 | strict decoding, with each refusal |
| Endpoint.EncodedIsLaidOut | sw_identity_tls/src/endpoint.rs:73-92 | where the flags, addresses and ports of a record are, ports higher byte first |
| Endpoint.DecodedWhen | sw_identity_tls/src/endpoint.rs:94-122 | bytes are accepted if and only if their flags are 1, 2 or 3 and they are 7, 19 or 25 bytes long |
| Endpoint.EncodedThenDecoded | sw_identity_tls/src/endpoint.rs:73-122 | decoding an encoding gives the record back if and only if it is nonempty without IPv6 flow or scope; at most 25 bytes |
| Endpoint.DecodedThenEncoded | sw_identity_tls/src/endpoint.rs:94-122 | only the encoding of a record decodes to it |

## Left out

- Scans that never end: each run has a `horizon`, a request number from which nothing is answered. Every terminating run, and every prefix of one that does not terminate, has one.
- The indexer, algod, HTTP, Tokio and the transaction builders: only the promise of the injected fetchers is kept.
- Mutex poisoning and two pollers of one cache.
- The text of errors: which request or check failed is modelled, and not what it said.
- Floating point and nanosecond rounding in the token bucket: tokens and times are reals, so a wait that rounds to zero is not captured.
- The 64-bit width of unix times: times are below 2^63, where the saturating additions and the signed subtraction are exact. The 32-bit counter's saturation is modelled.
- Clock readings before the day-start offset, and concurrent records of readings from two windows: the results for runs ask for neither.
- The request counter's 64-bit wrap-around and the search's tries wrap-around.
- Block mode with competing callers, which may sleep any number of times.
- Timeouts of a call: they are one of the local failures.
- JSON reading and writing, base64, Argon2, AES-GCM, SHA-512/256 and Ed25519: parameters, with decryption undoing encryption (and a 16-byte tag) as the only assumption, made for backup pages alone.
- Reading the password: what the user answers is given, and what the prompt itself can fail with is one error.
- KeyFiles.Discover: gives a set, so the sorted order of the files found is not captured, and the results for the `seal` command hold for any order; the directory tree is given, with the directories that cannot be read marked in it.
- Another process changing the disk between two steps, and reads that return something else than what is on the disk.
- Prefixes of the search outside ASCII: the source counts their bytes, so it may refuse them as too long where the model names a character.
- Unicode white space beyond ASCII, and byte offsets inside multi-byte characters of a signature.
- The 32-bit nesting depth of the signature splitter.
- The app-creator cache, the local-state decoders, the transaction-group builder, PDF drawing, `create`, `print` and `reencrypt_envelope`.
