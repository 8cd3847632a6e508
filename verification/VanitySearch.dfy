/**
 Searching for an address with a given prefix: what of the key decides it, and what the threads that
 search share.
 */
module VanitySearch {
  import opened Wrappers
  import opened Bits

  const MAX_PREFIX_LEN := 8
  const KEY_LEN := 32
  const CHECKSUM_LEN := 4

  // ----- base32, section 6 of RFC 4648, without padding

  type Bit = b: nat | b < 2

  /** Bit `k` of the bytes read as one string of bits, most significant first; zero past the end. */
  function BitAt(bytes: seq<Byte>, k: nat): Bit {
    if k / 8 < |bytes| then High(bytes[k / 8], 7 - k % 8) % 2 else 0
  }

  function BitsOf(bytes: seq<Byte>): nat -> Bit {
    (k: nat) => BitAt(bytes, k)
  }

  /** `A` to `Z`, then `2` to `7`. */
  function Letter(v: nat): char
    requires v < 32
  {
    if v < 26 then 'A' + v as char else '2' + (v - 26) as char
  }

  /** Character `j` stands for bits 5j to 5j + 4. */
  function Symbol(bit: nat -> Bit, j: nat): char {
    var v: nat := 16 * bit(5 * j) + 8 * bit(5 * j + 1) + 4 * bit(5 * j + 2) + 2 * bit(5 * j + 3) + bit(5 * j + 4);
    Letter(v)
  }

  function Symbols(bit: nat -> Bit, n: nat): string { seq(n, j requires j >= 0 => Symbol(bit, j)) }

  function Base32(bytes: seq<Byte>): string { Symbols(BitsOf(bytes), (8 * |bytes| + 4) / 5) }

  // ----- what base32 text spells

  predicate InAlphabet(c: char) { 'A' <= c <= 'Z' || '2' <= c <= '7' }

  /** `A` to `Z` are 0 to 25, and `2` to `7` are 26 to 31. */
  function CharValue(c: char): nat {
    if 'A' <= c <= 'Z' then (c - 'A') as nat else if '2' <= c <= '7' then 26 + (c - '2') as nat else 0
  }

  /** The number that text spells in base 32, or bytes in base 256, most significant first. */
  function Number32(s: string): nat {
    if s == "" then 0 else 32 * Number32(s[..|s| - 1]) + CharValue(s[|s| - 1])
  }

  function Number256(bytes: seq<Byte>): nat {
    if bytes == [] then 0 else 256 * Number256(bytes[..|bytes| - 1]) + bytes[|bytes| - 1]
  }

  /** The number the first `k` bits spell. */
  function BitsNumber(bit: nat -> Bit, k: nat): nat {
    if k == 0 then 0 else 2 * BitsNumber(bit, k - 1) + bit(k - 1)
  }

  lemma LetterHasValue(v: nat)
    requires v < 32
    ensures InAlphabet(Letter(v)) && CharValue(Letter(v)) == v
  {
  }

  lemma TwoBits(bit: nat -> Bit, k: nat)
    ensures BitsNumber(bit, k + 2) == 4 * BitsNumber(bit, k) + 2 * bit(k) + bit(k + 1)
  {
    assert BitsNumber(bit, k + 1) == 2 * BitsNumber(bit, k) + bit(k);
  }

  lemma FourBits(bit: nat -> Bit, k: nat)
    ensures BitsNumber(bit, k + 4)
         == 16 * BitsNumber(bit, k) + 8 * bit(k) + 4 * bit(k + 1) + 2 * bit(k + 2) + bit(k + 3)
  {
    TwoBits(bit, k);
    TwoBits(bit, k + 2);
  }

  /** Five more bits are one more character. */
  lemma SymbolSpells(bit: nat -> Bit, j: nat)
    ensures InAlphabet(Symbol(bit, j))
    ensures BitsNumber(bit, 5 * j + 5) == 32 * BitsNumber(bit, 5 * j) + CharValue(Symbol(bit, j))
  {
    var v: nat := 16 * bit(5 * j) + 8 * bit(5 * j + 1) + 4 * bit(5 * j + 2) + 2 * bit(5 * j + 3) + bit(5 * j + 4);
    LetterHasValue(v);
    FourBits(bit, 5 * j);
  }

  lemma Number32Next(text: string, c: char)
    ensures Number32(text + [c]) == 32 * Number32(text) + CharValue(c)
  {
    assert (text + [c])[..|text|] == text;
  }

  lemma SymbolsNext(bit: nat -> Bit, n: nat)
    ensures Symbols(bit, n + 1) == Symbols(bit, n) + [Symbol(bit, n)]
  {
  }

  lemma {:induction false} SymbolsSpell(bit: nat -> Bit, n: nat)
    ensures Number32(Symbols(bit, n)) == BitsNumber(bit, 5 * n)
  {
    if n > 0 {
      var m := n - 1;
      SymbolsSpell(bit, m);
      SymbolSpells(bit, m);
      SymbolsNext(bit, m);
      Number32Next(Symbols(bit, m), Symbol(bit, m));
    }
  }

  lemma SymbolsSpellNumber(bit: nat -> Bit, n: nat, k: nat, number: nat)
    requires 5 * n == k && BitsNumber(bit, k) == number
    ensures Number32(Symbols(bit, n)) == number
  {
    SymbolsSpell(bit, n);
  }

  predicate AllInAlphabet(text: string) {
    forall i :: 0 <= i < |text| ==> InAlphabet(text[i])
  }

  lemma SymbolsInAlphabet(bit: nat -> Bit, n: nat)
    ensures AllInAlphabet(Symbols(bit, n))
  {
    forall i | 0 <= i < n ensures InAlphabet(Symbols(bit, n)[i]) {
      SymbolSpells(bit, i);
    }
  }

  lemma BitOfByte(bytes: seq<Byte>, i: nat, t: nat)
    requires i < |bytes| && t < 8
    ensures BitsOf(bytes)(8 * i + t) == High(bytes[i], 7 - t) % 2
  {
    assert (8 * i + t) / 8 == i && (8 * i + t) % 8 == t;
  }

  /** The next `n` bits are the first `n` bits of a byte. */
  lemma {:induction false} StartOfByteSpells(bytes: seq<Byte>, i: nat, n: nat)
    requires i < |bytes| && n <= 8
    ensures BitsNumber(BitsOf(bytes), 8 * i + n) == Shl(BitsNumber(BitsOf(bytes), 8 * i), n) + High(bytes[i], 8 - n)
  {
    if n == 0 {
      PowersUsed();
      LowOfSmall(bytes[i], 8);
    } else {
      StartOfByteSpells(bytes, i, n - 1);
      BitOfByte(bytes, i, n - 1);
      HighStep(bytes[i], 8 - n);
    }
  }

  lemma NoBit(bytes: seq<Byte>, k: nat)
    requires k >= 8 * |bytes|
    ensures BitsOf(bytes)(k) == 0
  {
  }

  /** Eight more bits are one more byte. */
  lemma ByteSpells(bytes: seq<Byte>, i: nat)
    requires i < |bytes|
    ensures BitsNumber(BitsOf(bytes), 8 * i + 8) == 256 * BitsNumber(BitsOf(bytes), 8 * i) + bytes[i]
  {
    StartOfByteSpells(bytes, i, 8);
    TimesByte(BitsNumber(BitsOf(bytes), 8 * i));
    NoShift(bytes[i]);
  }

  lemma NoShift(a: nat)
    ensures High(a, 0) == a
  {
  }

  lemma TimesByte(a: nat)
    ensures Shl(a, 8) == 256 * a
  {
    PowersUsed();
    ShlIsTimes(a, 8);
  }

  lemma {:induction false} BytesSpell(bytes: seq<Byte>, n: nat)
    requires n <= |bytes|
    ensures BitsNumber(BitsOf(bytes), 8 * n) == Number256(bytes[..n])
  {
    if n > 0 {
      BytesSpell(bytes, n - 1);
      ByteSpells(bytes, n - 1);
      assert bytes[..n][..n - 1] == bytes[..n - 1];
    }
  }

  lemma {:induction false} ZerosFollow(bytes: seq<Byte>, t: nat)
    ensures BitsNumber(BitsOf(bytes), 8 * |bytes| + t) == Shl(Number256(bytes), t)
  {
    if t == 0 {
      BytesSpell(bytes, |bytes|);
      assert bytes[..|bytes|] == bytes;
    } else {
      ZerosFollow(bytes, t - 1);
      NoBit(bytes, 8 * |bytes| + t - 1);
    }
  }

  lemma SymbolsOfBytes(bytes: seq<Byte>, n: nat, t: nat)
    requires 5 * n == 8 * |bytes| + t
    ensures Number32(Symbols(BitsOf(bytes), n)) == Shl(Number256(bytes), t)
  {
    ZerosFollow(bytes, t);
    SymbolsSpellNumber(BitsOf(bytes), n, 8 * |bytes| + t, Shl(Number256(bytes), t));
  }

  /** Bytes become ceil(8n / 5) characters of the alphabet. */
  lemma Base32InAlphabet(bytes: seq<Byte>)
    ensures |Base32(bytes)| == (8 * |bytes| + 4) / 5 && AllInAlphabet(Base32(bytes))
  {
    SymbolsInAlphabet(BitsOf(bytes), (8 * |bytes| + 4) / 5);
  }

  /** And those spell the number the bytes spell, filled up with the zero bits there is room for. */
  lemma Base32Spells(bytes: seq<Byte>, zeros: nat)
    requires 5 * |Base32(bytes)| == 8 * |bytes| + zeros
    ensures Number32(Base32(bytes)) == Shl(Number256(bytes), zeros)
  {
    SymbolsOfBytes(bytes, |Base32(bytes)|, zeros);
  }

  // ----- the prefix

  datatype PrefixError = Empty | TooLong | BadCharacter(c: char)

  function ToUpper(c: char): char { if 'a' <= c <= 'z' then 'A' + (c - 'a') else c }

  function Uppercased(s: string): string {
    seq(|s|, i requires 0 <= i < |s| => ToUpper(s[i]))
  }

  function FirstBad(s: string): (c: Option<char>)
    ensures c.None? <==> forall i :: 0 <= i < |s| ==> InAlphabet(s[i])
  {
    if s == "" then None else if !InAlphabet(s[0]) then Some(s[0]) else FirstBad(s[1..])
  }

  function NormalisePrefix(prefix: string): Result<string, PrefixError> {
    var p := Uppercased(prefix);
    if p == "" then Err(Empty)
    else if |p| > MAX_PREFIX_LEN then Err(TooLong)
    else match FirstBad(p)
         case Some(c) => Err(BadCharacter(c))
         case None => Ok(p)
  }

  /** The leading key bytes that are encoded on each try: ceil(5n / 8). */
  function LeadingBytes(n: nat): nat { (5 * n + 7) / 8 }

  /** A prefix that is accepted is short enough to be decided by the key, and can occur at all. */
  lemma NormalisedIsSearchable(prefix: string)
    requires NormalisePrefix(prefix).Ok?
    ensures var p := NormalisePrefix(prefix).value;
            && 1 <= |p| == |prefix| <= 8 && LeadingBytes(|p|) <= 5 <= KEY_LEN
            && forall i :: 0 <= i < |p| ==> CharValue(p[i]) < 32 && p[i] == Letter(CharValue(p[i]))
  {
  }

  /** Those are enough bits for the prefix, and one byte less would not be. */
  lemma FewestBytes(n: nat)
    ensures 8 * LeadingBytes(n) >= 5 * n && (n > 0 ==> 8 * (LeadingBytes(n) - 1) < 5 * n)
  {
  }

  /** ASCII letters in their upper case, and everything else as it is. */
  predicate IsUpperOf(u: char, c: char) {
    if 'a' <= c <= 'z' then u as int == c as int - 32 else u == c
  }

  lemma {:induction false} FirstBadIs(s: string)
    ensures match FirstBad(s)
            case None => true
            case Some(c) => exists i :: 0 <= i < |s| && s[i] == c && !InAlphabet(c)
                                        && forall j :: 0 <= j < i ==> InAlphabet(s[j])
  {
    if s != "" && InAlphabet(s[0]) {
      FirstBadIs(s[1..]);
      if FirstBad(s).Some? {
        var i :| 0 <= i < |s[1..]| && s[1..][i] == FirstBad(s).value
                 && forall j :: 0 <= j < i ==> InAlphabet(s[1..][j]);
        assert s[i + 1] == FirstBad(s).value;
        assert forall j :: 0 < j < i + 1 ==> s[j] == s[1..][j - 1];
      }
    }
  }

  /**
   What a prefix becomes: itself in upper case, if it has one to eight characters and all of them are in
   the alphabet; and otherwise, which of these it fails, with the first character that is not.
   */
  lemma NormalisedIs(prefix: string)
    ensures match NormalisePrefix(prefix)
            case Ok(p) =>
              && 1 <= |p| == |prefix| <= 8
              && forall i :: 0 <= i < |p| ==> IsUpperOf(p[i], prefix[i]) && InAlphabet(p[i])
            case Err(Empty) => prefix == ""
            case Err(TooLong) => |prefix| > 8
            case Err(BadCharacter(c)) =>
              && 1 <= |prefix| <= 8 && !InAlphabet(c)
              && exists i :: 0 <= i < |prefix| && IsUpperOf(c, prefix[i])
                   && forall j :: 0 <= j < i ==> InAlphabet(ToUpper(prefix[j]))
  {
    var p := Uppercased(prefix);
    FirstBadIs(p);
    assert forall i :: 0 <= i < |p| ==> p[i] == ToUpper(prefix[i]) && IsUpperOf(p[i], prefix[i]);
    if FirstBad(p).Some? {
      var i :| 0 <= i < |p| && p[i] == FirstBad(p).value && forall j :: 0 <= j < i ==> InAlphabet(p[j]);
      assert IsUpperOf(FirstBad(p).value, prefix[i]);
    }
  }

  lemma BitNeedsOnly(x: seq<Byte>, y: seq<Byte>, k: nat)
    requires x <= y && k < 8 * |x|
    ensures BitsOf(x)(k) == BitsOf(y)(k)
  {
    assert x[k / 8] == y[k / 8];
  }

  lemma SymbolNeedsOnly(x: seq<Byte>, y: seq<Byte>, j: nat)
    requires x <= y && 5 * j + 5 <= 8 * |x|
    ensures Symbol(BitsOf(x), j) == Symbol(BitsOf(y), j)
  {
    BitNeedsOnly(x, y, 5 * j);
    BitNeedsOnly(x, y, 5 * j + 1);
    BitNeedsOnly(x, y, 5 * j + 2);
    BitNeedsOnly(x, y, 5 * j + 3);
    BitNeedsOnly(x, y, 5 * j + 4);
    SameSymbol(BitsOf(x), BitsOf(y), j);
  }

  lemma SameSymbol(x: nat -> Bit, y: nat -> Bit, j: nat)
    requires x(5 * j) == y(5 * j) && x(5 * j + 1) == y(5 * j + 1) && x(5 * j + 2) == y(5 * j + 2)
    requires x(5 * j + 3) == y(5 * j + 3) && x(5 * j + 4) == y(5 * j + 4)
    ensures Symbol(x, j) == Symbol(y, j)
  {
  }

  /** For a prefix of any length, the leading bytes of the key decide whether the whole address has it. */
  lemma PrefixIsDecided(prefix: string, key: seq<Byte>, rest: seq<Byte>)
    requires LeadingBytes(|prefix|) <= |key|
    ensures prefix <= Base32(key[..LeadingBytes(|prefix|)]) <==> prefix <= Base32(key + rest)
  {
    var lead := key[..LeadingBytes(|prefix|)];
    assert lead <= key + rest;
    assert |Base32(lead)| >= |prefix| && |Base32(key + rest)| >= |prefix|;
    forall j | 0 <= j < |prefix| ensures Base32(lead)[j] == Base32(key + rest)[j] {
      SymbolNeedsOnly(lead, key + rest, j);
    }
    assert Base32(lead)[..|prefix|] == Base32(key + rest)[..|prefix|];
  }

  // ----- the threads

  type Seed = seq<Byte>

  /** Key derivation and the digest whose last bytes are the checksum. */
  datatype Keys = Keys(publicKey: Seed -> seq<Byte>, digest: seq<Byte> -> seq<Byte>)
  {
    ghost predicate Valid() { forall seed :: |publicKey(seed)| == KEY_LEN && |digest(publicKey(seed))| == 32 }

    function Address(seed: Seed): string {
      var key := publicKey(seed);
      var d := digest(key);
      Base32(key + if |d| >= CHECKSUM_LEN then d[|d| - CHECKSUM_LEN..] else d)
    }
  }

  /** An address is 58 characters, spelling the key and the last four bytes of its digest, and two zero bits. */
  lemma AddressIs(keys: Keys, seed: Seed)
    requires keys.Valid()
    ensures var key := keys.publicKey(seed);
            && |keys.Address(seed)| == 58 && AllInAlphabet(keys.Address(seed))
            && Number32(keys.Address(seed)) == 4 * Number256(key + keys.digest(key)[28..])
  {
    var key := keys.publicKey(seed);
    var bytes := key + keys.digest(key)[28..];
    assert |bytes| == 36 && keys.Address(seed) == Base32(bytes);
    Base32InAlphabet(bytes);
    Base32Spells(bytes, 2);
    FourTimes(Number256(bytes));
  }

  lemma FourTimes(a: nat)
    ensures Shl(a, 2) == 4 * a
  {
    assert Shl(a, 1) == 2 * a;
  }

  /** The test a thread makes of each key. */
  predicate Matches(keys: Keys, prefix: string, seed: Seed) {
    var lead := LeadingBytes(|prefix|);
    lead <= |keys.publicKey(seed)| && prefix <= Base32(keys.publicKey(seed)[..lead])
  }

  /** The test succeeds if and only if the whole address starts with the prefix. */
  lemma MatchesIs(keys: Keys, prefix: string, seed: Seed)
    requires keys.Valid() && (5 * |prefix| + 7) / 8 <= 32
    ensures Matches(keys, prefix, seed) <==> prefix <= keys.Address(seed)
  {
    var key := keys.publicKey(seed);
    var d := keys.digest(key);
    PrefixIsDecided(prefix, key, d[|d| - CHECKSUM_LEN..]);
  }

  /**
   Where a thread is in its loop, with the keys it has tried: about to look whether the search is done,
   about to generate a key, holding a match, about to announce one, leaving, or gone.
   */
  datatype Thread = Looking(tries: nat) | Generating(tries: nat) | Matched(tries: nat, seed: Seed)
                  | Announcing(tries: nat) | Leaving(tries: nat) | Exited

  datatype State = State(found: Option<Seed>, done: bool, tries: nat, threads: seq<Thread>)

  /** `Looks` may see an old value of `done`: false after it was set, but never true before. */
  datatype Step = Looks(thread: nat, sees: bool) | Generates(thread: nat, seed: Seed) | Keeps(thread: nat)
                | Announces(thread: nat) | Leaves(thread: nat)

  predicate Enabled(s: State, step: Step) {
    step.thread < |s.threads| &&
    var t := s.threads[step.thread];
    match step
    case Looks(_, sees) => t.Looking? && (sees ==> s.done)
    case Generates(_, _) => t.Generating?
    case Keeps(_) => t.Matched?
    case Announces(_) => t.Announcing?
    case Leaves(_) => t.Leaving?
  }

  function Next(keys: Keys, prefix: string, s: State, step: Step): State
    requires Enabled(s, step)
  {
    var i := step.thread;
    var t := s.threads[i];
    match step
    case Looks(_, sees) => s.(threads := s.threads[i := if sees then Leaving(t.tries) else Generating(t.tries)])
    case Generates(_, seed) =>
      s.(threads := s.threads[i := if Matches(keys, prefix, seed) then Matched(t.tries + 1, seed)
                                   else Looking(t.tries + 1)])
    case Keeps(_) =>
      s.(found := if s.found.None? then Some(t.seed) else s.found, threads := s.threads[i := Announcing(t.tries)])
    case Announces(_) => s.(done := true, threads := s.threads[i := Looking(t.tries)])
    case Leaves(_) => s.(tries := s.tries + t.tries, threads := s.threads[i := Exited])
  }

  predicate Possible(keys: Keys, prefix: string, s: State, steps: seq<Step>)
    decreases |steps|
  {
    steps == [] || (Enabled(s, steps[0]) && Possible(keys, prefix, Next(keys, prefix, s, steps[0]), steps[1..]))
  }

  function Run(keys: Keys, prefix: string, s: State, steps: seq<Step>): State
    requires Possible(keys, prefix, s, steps)
    decreases |steps|
  {
    if steps == [] then s else Run(keys, prefix, Next(keys, prefix, s, steps[0]), steps[1..])
  }

  function Start(threads: nat): State {
    State(None, false, 0, seq(if threads == 0 then 1 else threads, i => Looking(0)))
  }

  function KeysGenerated(steps: seq<Step>): nat {
    if steps == [] then 0 else (if steps[0].Generates? then 1 else 0) + KeysGenerated(steps[1..])
  }

  function Tries(t: Thread): nat { if t.Exited? then 0 else t.tries }

  function LocalTries(threads: seq<Thread>): nat {
    if threads == [] then 0 else LocalTries(threads[..|threads| - 1]) + Tries(threads[|threads| - 1])
  }

  lemma {:induction false} LocalTriesAfter(threads: seq<Thread>, i: nat, t: Thread)
    requires i < |threads|
    ensures LocalTries(threads[i := t]) + Tries(threads[i]) == LocalTries(threads) + Tries(t)
  {
    var last := |threads| - 1;
    if i < last {
      assert threads[i := t][..last] == threads[..last][i := t];
      LocalTriesAfter(threads[..last], i, t);
    } else {
      assert threads[i := t][..last] == threads[..last];
    }
  }

  ghost predicate Inv(keys: Keys, prefix: string, s: State) {
    && (s.done ==> s.found.Some?)
    && (s.found.Some? ==> Matches(keys, prefix, s.found.value))
    && forall i :: 0 <= i < |s.threads| ==>
         match s.threads[i]
         case Matched(_, seed) => Matches(keys, prefix, seed)
         case Announcing(_) => s.found.Some?
         case Leaving(_) => s.done
         case Exited => s.done
         case _ => true
  }

  lemma StepKeepsInv(keys: Keys, prefix: string, s: State, step: Step)
    requires Inv(keys, prefix, s) && Enabled(s, step)
    ensures var n := Next(keys, prefix, s, step);
            && Inv(keys, prefix, n) && |n.threads| == |s.threads|
            && (s.found.Some? ==> n.found == s.found)
            && n.tries + LocalTries(n.threads) == s.tries + LocalTries(s.threads) + if step.Generates? then 1 else 0
  {
    LocalTriesAfter(s.threads, step.thread, Next(keys, prefix, s, step).threads[step.thread]);
  }

  lemma {:induction false} RunKeepsInv(keys: Keys, prefix: string, s: State, steps: seq<Step>)
    requires Inv(keys, prefix, s) && Possible(keys, prefix, s, steps)
    ensures var n := Run(keys, prefix, s, steps);
            && Inv(keys, prefix, n) && |n.threads| == |s.threads|
            && (s.found.Some? ==> n.found == s.found)
            && n.tries + LocalTries(n.threads) == s.tries + LocalTries(s.threads) + KeysGenerated(steps)
    decreases |steps|
  {
    if steps != [] {
      StepKeepsInv(keys, prefix, s, steps[0]);
      RunKeepsInv(keys, prefix, Next(keys, prefix, s, steps[0]), steps[1..]);
    }
  }

  lemma {:induction false} NoTries(threads: seq<Thread>)
    requires forall i :: 0 <= i < |threads| ==> Tries(threads[i]) == 0
    ensures LocalTries(threads) == 0
  {
    if threads != [] { NoTries(threads[..|threads| - 1]); }
  }

  /** A thread that generates a match keeps it, unless a seed has been kept before, and ends the search. */
  lemma MatchEndsSearch(keys: Keys, prefix: string, s: State, i: nat, seed: Seed)
    requires i < |s.threads| && s.threads[i].Generating? && Matches(keys, prefix, seed)
    ensures var generated := Next(keys, prefix, s, Generates(i, seed));
            && Enabled(generated, Keeps(i))
            && var kept := Next(keys, prefix, generated, Keeps(i));
               && kept.found == (if s.found.None? then Some(seed) else s.found)
               && Enabled(kept, Announces(i)) && Next(keys, prefix, kept, Announces(i)).done
  {
  }

  /** In every reachable state, `done` means that a seed was found, and one that was found is kept. */
  lemma FoundIsKept(keys: Keys, prefix: string, threads: nat, steps: seq<Step>, more: seq<Step>)
    requires Possible(keys, prefix, Start(threads), steps)
    requires Possible(keys, prefix, Run(keys, prefix, Start(threads), steps), more)
    ensures var s := Run(keys, prefix, Start(threads), steps);
            && (s.done ==> s.found.Some?)
            && (s.found.Some? ==> Run(keys, prefix, s, more).found == s.found)
  {
    RunKeepsInv(keys, prefix, Start(threads), steps);
    RunKeepsInv(keys, prefix, Run(keys, prefix, Start(threads), steps), more);
  }

  /**
   Once every thread has exited, in any interleaving: there is a result, its whole address starts with
   the prefix, and `tries` is the number of keys generated.
   */
  lemma SearchIsCorrect(keys: Keys, prefix: string, threads: nat, steps: seq<Step>)
    requires keys.Valid() && LeadingBytes(|prefix|) <= KEY_LEN
    requires Possible(keys, prefix, Start(threads), steps)
    requires forall t :: t in Run(keys, prefix, Start(threads), steps).threads ==> t.Exited?
    ensures var s := Run(keys, prefix, Start(threads), steps);
            && s.found.Some? && prefix <= keys.Address(s.found.value)
            && s.tries == KeysGenerated(steps)
  {
    var start := Start(threads);
    RunKeepsInv(keys, prefix, start, steps);
    NoTries(start.threads);
    var s := Run(keys, prefix, start, steps);
    assert s.threads[0] in s.threads;
    forall i | 0 <= i < |s.threads| ensures Tries(s.threads[i]) == 0 {
      assert s.threads[i] in s.threads;
    }
    NoTries(s.threads);
    var key := keys.publicKey(s.found.value);
    var d := keys.digest(key);
    PrefixIsDecided(prefix, key, d[|d| - CHECKSUM_LEN..]);
  }
}
