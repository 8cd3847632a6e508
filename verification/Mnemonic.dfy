/**
 Mnemonics for byte strings of any length: the bytes regrouped into 11-bit words, and a checksum word.
 */
module Mnemonic {
  import opened Wrappers
  import opened Bits
  import opened Text

  const BITS_PER_WORD := 11

  /** ceil(8n / 11) words for n bytes, and ceil(11m / 8) bytes for m words. */
  function WordCount(n: nat): nat { (8 * n + 10) / 11 }
  function ByteCount(m: nat): nat { (11 * m + 7) / 8 }

  /** The 11-bit groups of the number the bytes spell, little-endian, and back. */
  function U11(bytes: seq<Byte>): seq<nat> { Digits(Val(bytes, 8), 11, WordCount(|bytes|)) }

  function Bytes(nums: seq<nat>): (bytes: seq<Byte>)
    ensures |bytes| == ByteCount(|nums|)
  {
    PowersUsed();
    Digits(Val(nums, 11), 8, ByteCount(|nums|))
  }

  // ----- the accumulator

  /** `out` and the `bits` bits in `buf` hold the same number as the groups read so far. */
  ghost predicate Regrouped(read: seq<nat>, w: nat, out: seq<nat>, v: nat, buf: nat, bits: nat) {
    && AreGroups(out, v)
    && buf < Pow2(bits)
    && Width(w, |read|) == Width(v, |out|) + bits
    && Val(read, w) == Val(out, v) + Shl(buf, Width(v, |out|))
  }

  /** Or-ing in a shifted group is adding it, within 18 bits. */
  lemma OrShifted(buf: nat, bits: nat, x: nat, w: nat)
    requires buf < Pow2(bits) && x < Pow2(w) && bits + w <= 18
    ensures BitOr(buf, Shl32(x, bits)) == buf + Shl(x, bits) < Pow2(bits + w) <= Pow2(18)
  {
    ShiftedFits(x, w, bits);
    assert w + bits == bits + w;
    Pow2Grows(bits + w, 18);
    PowersUsed();
    assert Shl32(x, bits) == Shl(x, bits);
    OrIsAdd(buf, x, bits);
  }

  /** Shifting a group in above the bits held loses nothing, within 18 bits. */
  lemma ShiftedIn(read: seq<nat>, w: nat, out: seq<nat>, v: nat, buf: nat, bits: nat, x: nat, buf': nat)
    requires Regrouped(read, w, out, v, buf, bits)
    requires buf' == buf + Shl(x, bits) < Pow2(bits + w)
    ensures Regrouped(read + [x], w, out, v, buf', bits + w)
  {
    ValAppend(read, x, w);
    ShlOfSum(buf, Shl(x, bits), Width(v, |out|));
    ShlTwice(x, bits, Width(v, |out|));
  }

  /** Pushing the low group out of the bits held loses nothing. */
  lemma PushedOut(read: seq<nat>, w: nat, out: seq<nat>, v: nat, buf: nat, bits: nat)
    requires Regrouped(read, w, out, v, buf, bits) && v <= bits
    ensures Regrouped(read, w, out + [Low(buf, v)], v, High(buf, v), bits - v)
  {
    LowAndHigh(buf, v);
    ValAppend(out, Low(buf, v), v);
    ShlOfSum(Low(buf, v), Shl(High(buf, v), v), Width(v, |out|));
    ShlTwice(High(buf, v), v, Width(v, |out|));
    HighIsSmaller(buf, v, bits - v);
  }

  /** `buf |= x << bits`, in 32 bits: the accumulator never holds more than 18. */
  method ShiftIn(ghost read: seq<nat>, w: nat, ghost out: seq<nat>, v: nat, buf: nat, bits: nat, x: nat)
    returns (buf': nat)
    requires Regrouped(read, w, out, v, buf, bits) && x < Pow2(w) && bits + w <= 18
    ensures Regrouped(read + [x], w, out, v, buf', bits + w) && buf' < Pow2(18)
  {
    OrShifted(buf, bits, x, w);
    ShiftedIn(read, w, out, v, buf, bits, x, buf + Shl(x, bits));
    buf' := BitOr(buf, Shl32(x, bits));
  }

  /** `buf & mask` and `buf >> v`. */
  method PushOut(ghost read: seq<nat>, ghost w: nat, ghost out: seq<nat>, v: nat, mask: nat, buf: nat, ghost bits: nat)
    returns (group: nat, rest: nat)
    requires Regrouped(read, w, out, v, buf, bits) && v <= bits && mask == Pow2(v) - 1
    ensures Regrouped(read, w, out + [group], v, rest, bits - v) && group <= mask
  {
    PushedOut(read, w, out, v, buf, bits);
    MaskIsLow(buf, v);
    LowAndHigh(buf, v);
    group, rest := BitAnd(buf, mask), High(buf, v);
  }

  /** What is left at the end is the zero-padded last group, if anything is. */
  lemma Flushed(read: seq<nat>, w: nat, out: seq<nat>, v: nat, buf: nat, bits: nat)
    requires Regrouped(read, w, out, v, buf, bits) && bits < v
    ensures var all := if bits == 0 then out else out + [Low(buf, v)];
            all == Digits(Val(read, w), v, |all|)
            && Width(w, |read|) <= Width(v, |all|) < Width(w, |read|) + v
  {
    var all := if bits == 0 then out else out + [Low(buf, v)];
    if bits > 0 {
      Pow2Grows(bits, v);
      LowOfSmall(buf, v);
      ValAppend(out, buf, v);
    } else {
      ShlOfSum(0, 0, Width(v, |out|));
    }
    DigitsOfVal(all, v);
  }

  method Flush(ghost read: seq<nat>, ghost w: nat, out: seq<nat>, v: nat, mask: nat, buf: nat, bits: nat)
    returns (all: seq<nat>)
    requires Regrouped(read, w, out, v, buf, bits) && bits < v && mask == Pow2(v) - 1
    ensures all == Digits(Val(read, w), v, |all|)
    ensures Width(w, |read|) <= Width(v, |all|) < Width(w, |read|) + v
  {
    Flushed(read, w, out, v, buf, bits);
    MaskIsLow(buf, v);
    all := out;
    if bits != 0 {
      all := all + [BitAnd(buf, mask)];
    }
  }

  /** The words' indices: bytes go in 8 bits at a time, and come out 11 at a time. */
  method ToU11(bytes: seq<Byte>) returns (out: seq<nat>)
    ensures out == U11(bytes)
  {
    PowersUsed();
    var buf: nat := 0;
    var bitCount: nat := 0;
    out := [];
    for i := 0 to |bytes|
      invariant bitCount < BITS_PER_WORD && Regrouped(bytes[..i], 8, out, 11, buf, bitCount)
    {
      assert bytes[..i + 1] == bytes[..i] + [bytes[i]];
      buf := ShiftIn(bytes[..i], 8, out, 11, buf, bitCount, bytes[i]);
      bitCount := bitCount + 8;
      if bitCount >= BITS_PER_WORD {
        var group;
        group, buf := PushOut(bytes[..i + 1], 8, out, BITS_PER_WORD, 0x7ff, buf, bitCount);
        out := out + [group];
        bitCount := bitCount - BITS_PER_WORD;
      }
    }
    assert bytes[..|bytes|] == bytes;
    out := Flush(bytes, 8, out, BITS_PER_WORD, 0x7ff, buf, bitCount);
    ByteAndWordWidths(|bytes|);
    ByteAndWordWidths(|out|);
  }

  /** The way back, where one group can complete two bytes and the last may hold only padding. */
  method ToBytes(nums: seq<nat>) returns (out: seq<Byte>)
    requires AreGroups(nums, 11)
    ensures out == Bytes(nums)
  {
    PowersUsed();
    var buf: nat := 0;
    var bitCount: nat := 0;
    var groups: seq<nat> := [];
    for i := 0 to |nums|
      invariant bitCount < 8 && Regrouped(nums[..i], 11, groups, 8, buf, bitCount)
    {
      assert nums[..i + 1] == nums[..i] + [nums[i]];
      buf := ShiftIn(nums[..i], 11, groups, 8, buf, bitCount, nums[i]);
      bitCount := bitCount + BITS_PER_WORD;
      while bitCount >= 8
        invariant Regrouped(nums[..i + 1], 11, groups, 8, buf, bitCount)
      {
        var group;
        group, buf := PushOut(nums[..i + 1], 11, groups, 8, 0xff, buf, bitCount);
        groups := groups + [group];
        bitCount := bitCount - 8;
      }
    }
    assert nums[..|nums|] == nums;
    groups := Flush(nums, 11, groups, 8, 0xff, buf, bitCount);
    ByteAndWordWidths(|nums|);
    ByteAndWordWidths(|groups|);
    out := groups;
  }

  // ----- words

  /** The word list, and the hash whose first 11 bits choose the checksum word. */
  datatype Codec = Codec(words: seq<string>, digest: seq<Byte> -> seq<Byte>)
  {
    ghost predicate Valid() {
      && |words| == 2048
      && (forall i, j :: 0 <= i < j < |words| ==> words[i] != words[j])
      && (forall i :: 0 <= i < |words| ==> IsWord(words[i]))
      && (forall b :: |digest(b)| == 32)
    }
  }

  datatype DecodeError = EmptyMnemonic | NotInList(word: string) | TooShort(got: nat, expected: nat) | ChecksumMismatch

  /** The first place a word is listed at. */
  function Position(words: seq<string>, w: string): (p: Option<nat>)
    ensures match p
            case Some(i) => i < |words| && words[i] == w && forall j :: 0 <= j < i ==> words[j] != w
            case None => w !in words
  {
    if words == [] then None
    else if words[0] == w then Some(0)
    else match Position(words[1..], w)
         case None => None
         case Some(i) => Some(i + 1)
  }

  function ChecksumWord(c: Codec, data: seq<Byte>): string
    requires c.Valid()
  {
    PowersUsed();
    c.words[U11(c.digest(data)[..2])[0]]
  }

  function WordsAt(words: seq<string>, nums: seq<nat>): seq<string>
    requires forall i :: 0 <= i < |nums| ==> nums[i] < |words|
  {
    seq(|nums|, i requires 0 <= i < |nums| => words[nums[i]])
  }

  function EncodedWords(c: Codec, bytes: seq<Byte>): seq<string>
    requires c.Valid()
  {
    PowersUsed();
    WordsAt(c.words, U11(bytes)) + [ChecksumWord(c, bytes)]
  }

  function Encoded(c: Codec, bytes: seq<Byte>): string
    requires c.Valid()
  {
    Join(EncodedWords(c, bytes), " ")
  }

  /** The indices of the words, or the first word that is not listed. */
  function Indices(words: seq<string>, parts: seq<string>): (r: Result<seq<nat>, string>)
    ensures r.Ok? ==>
      |r.value| == |parts| && forall i :: 0 <= i < |parts| ==> r.value[i] < |words| && words[r.value[i]] == parts[i]
  {
    if parts == [] then Ok([]) else
      var before := Indices(words, parts[..|parts| - 1]);
      if before.Err? then before else
      match Position(words, parts[|parts| - 1])
      case None => Err(parts[|parts| - 1])
      case Some(n) => Ok(before.value + [n])
  }

  function DecodedWords(c: Codec, parts: seq<string>, expectedLen: nat): Result<seq<Byte>, DecodeError>
    requires c.Valid()
  {
    if parts == [] then Err(EmptyMnemonic) else
    match Indices(c.words, parts[..|parts| - 1])
    case Err(w) => Err(NotInList(w))
    case Ok(nums) =>
      var bytes := Bytes(nums);
      if |bytes| < expectedLen then Err(TooShort(|bytes|, expectedLen))
      else if parts[|parts| - 1] != ChecksumWord(c, bytes[..expectedLen]) then Err(ChecksumMismatch)
      else Ok(bytes[..expectedLen])
  }

  function Decoded(c: Codec, mnemonic: string, expectedLen: nat): Result<seq<Byte>, DecodeError>
    requires c.Valid()
  {
    DecodedWords(c, SplitWhitespace(mnemonic), expectedLen)
  }

  method ComputeChecksumWord(c: Codec, data: seq<Byte>) returns (w: string)
    requires c.Valid()
    ensures w == ChecksumWord(c, data)
  {
    PowersUsed();
    var nums := ToU11(c.digest(data)[..2]);
    w := c.words[nums[0]];
  }

  method BytesToMnemonic(c: Codec, bytes: seq<Byte>) returns (mnemonic: string)
    requires c.Valid()
    ensures mnemonic == Encoded(c, bytes)
  {
    PowersUsed();
    var nums := ToU11(bytes);
    var check := ComputeChecksumWord(c, bytes);
    mnemonic := Join(WordsAt(c.words, nums) + [check], " ");
  }

  method MnemonicToBytes(c: Codec, mnemonic: string, expectedLen: nat) returns (r: Result<seq<Byte>, DecodeError>)
    requires c.Valid()
    ensures r == Decoded(c, mnemonic, expectedLen)
  {
    var parts := SplitWhitespace(mnemonic);
    if parts == [] {
      return Err(EmptyMnemonic);
    }
    var check := parts[|parts| - 1];
    parts := parts[..|parts| - 1];
    var nums := [];
    for i := 0 to |parts|
      invariant Indices(c.words, parts[..i]) == Ok(nums)
    {
      assert parts[..i + 1][..i] == parts[..i];
      match Position(c.words, parts[i]) {
        case Some(n) => nums := nums + [n];
        case None =>
          UnlistedStays(c.words, parts, i + 1);
          return Err(NotInList(parts[i]));
      }
    }
    assert parts[..|parts|] == parts;
    PowersUsed();
    var bytes := ToBytes(nums);
    if |bytes| < expectedLen {
      return Err(TooShort(|bytes|, expectedLen));
    }
    bytes := bytes[..expectedLen];
    var expected := ComputeChecksumWord(c, bytes);
    r := if check != expected then Err(ChecksumMismatch) else Ok(bytes);
  }

  lemma {:induction false} UnlistedStays(words: seq<string>, parts: seq<string>, n: nat)
    requires n <= |parts| && Indices(words, parts[..n]).Err?
    ensures Indices(words, parts) == Indices(words, parts[..n])
    decreases |parts|
  {
    if n < |parts| {
      assert parts[..|parts| - 1][..n] == parts[..n];
      UnlistedStays(words, parts[..|parts| - 1], n);
    } else {
      assert parts[..n] == parts;
    }
  }

  // ----- main results

  /** Distinct words are found where they are listed. */
  lemma {:induction false} IndicesOfWords(c: Codec, nums: seq<nat>)
    requires c.Valid() && forall i :: 0 <= i < |nums| ==> nums[i] < 2048
    ensures Indices(c.words, WordsAt(c.words, nums)) == Ok(nums)
  {
    if nums != [] {
      var last := |nums| - 1;
      var words := WordsAt(c.words, nums);
      assert words[..last] == WordsAt(c.words, nums[..last]);
      IndicesOfWords(c, nums[..last]);
      var p := Position(c.words, words[last]);
      assert p == Some(nums[last]);
      assert nums == nums[..last] + [nums[last]] && |words| - 1 == last;
    }
  }

  /** The number the words of some bytes spell is the number the bytes spell. */
  lemma ValueIsPreserved(bytes: seq<Byte>)
    ensures Val(U11(bytes), 11) == Val(bytes, 8) < Pow2(8 * |bytes|)
    ensures |U11(bytes)| == WordCount(|bytes|)
  {
    PowersUsed();
    var n := WordCount(|bytes|);
    ByteAndWordWidths(|bytes|);
    ByteAndWordWidths(n);
    ValIsBounded(bytes, 8);
    ValOfDigits(Val(bytes, 8), 11, n);
    Pow2Grows(8 * |bytes|, 11 * n);
    LowOfSmall(Val(bytes, 8), 11 * n);
  }

  lemma BytesOfU11(bytes: seq<Byte>)
    ensures |bytes| <= |Bytes(U11(bytes))| && Bytes(U11(bytes))[..|bytes|] == bytes
  {
    PowersUsed();
    ValueIsPreserved(bytes);
    DigitsPrefix(Val(bytes, 8), 8, ByteCount(WordCount(|bytes|)), |bytes|);
    DigitsOfVal(bytes, 8);
  }

  /** A mnemonic decodes to the bytes it was made from, for any number of bytes. */
  lemma RoundTrip(c: Codec, bytes: seq<Byte>)
    requires c.Valid()
    ensures Decoded(c, Encoded(c, bytes), |bytes|) == Ok(bytes)
  {
    PowersUsed();
    var words := EncodedWords(c, bytes);
    SplitOfJoin(words);
    var nums := U11(bytes);
    assert words[..|words| - 1] == WordsAt(c.words, nums);
    IndicesOfWords(c, nums);
    BytesOfU11(bytes);
  }

  lemma ValOfTwo(x: Byte, y: Byte)
    ensures Val([x, y], 8) == x + 256 * y
  {
    PowersUsed();
    ShlIsTimes(0, 8);
    ShlIsTimes(y, 8);
    assert [x, y][1..] == [y];
    assert Val([y], 8) == y + Shl(Val([], 8), 8);
  }

  lemma GroupsAt(low: nat, high: nat)
    requires low < 2048 && high < 2048
    ensures Digits(low + 2048 * high, 11, 2) == [low, high]
  {
    PowersUsed();
    ShlIsTimes(high, 11);
    LowAndHighAre(low, high, 11);
    LowOfSmall(high, 11);
    assert Digits(low + 2048 * high, 11, 2) == [low] + Digits(high, 11, 1);
    assert Digits(high, 11, 1) == [high] + Digits(High(high, 11), 11, 0);
  }

  lemma SplitByte(x: nat, y: Byte)
    ensures x + 256 * y == (x + 256 * (y % 8)) + 2048 * (y / 8)
    ensures x < 256 ==> x + 256 * (y % 8) < 2048 && y / 8 < 32
  {
  }

  /** The two groups of two bytes: all of the first and three bits of the second, and the rest. */
  lemma GroupsOfTwo(x: Byte, y: Byte)
    ensures U11([x, y]) == [x + 256 * (y % 8), y / 8]
  {
    ValOfTwo(x, y);
    SplitByte(x, y);
    GroupsAt(x + 256 * (y % 8), y / 8);
  }

  /** The word listed at the first 11 bits of the digest, least significant bit first. */
  function CheckWord(c: Codec, data: seq<Byte>): string
    requires c.Valid()
  {
    var first: nat, second: nat := c.digest(data)[0], c.digest(data)[1];
    c.words[first + 256 * (second % 8)]
  }

  lemma ChecksumWordIs(c: Codec, data: seq<Byte>)
    requires c.Valid()
    ensures ChecksumWord(c, data) == CheckWord(c, data)
  {
    var d := c.digest(data);
    assert d[..2] == [d[0], d[1]];
    GroupsOfTwo(d[0], d[1]);
  }

  /** Listed words, at groups whose number is `v`. */
  ghost predicate Spell(c: Codec, data: seq<string>, v: nat) {
    exists nums: seq<nat> :: |nums| == |data| && Val(nums, 11) == v
      && forall i :: 0 <= i < |nums| ==> nums[i] < 2048 && nums[i] < |c.words| && data[i] == c.words[nums[i]]
  }

  /**
   The words of an encoding: ceil(8n / 11) that spell the number the bytes do, and the word at the first
   11 bits of the digest; between two words is one space, and there is no other.
   */
  lemma EncodedIs(c: Codec, bytes: seq<Byte>)
    requires c.Valid()
    ensures var parts := SplitWhitespace(Encoded(c, bytes));
            var last := |parts| - 1;
            && last == (8 * |bytes| + 10) / 11
            && Spell(c, parts[..last], Val(bytes, 8)) && parts[last] == CheckWord(c, bytes)
            && SinglySpaced(Encoded(c, bytes))
  {
    PowersUsed();
    var nums := U11(bytes);
    var words := EncodedWords(c, bytes);
    SplitOfJoin(words);
    JoinIsSinglySpaced(words);
    ChecksumWordIs(c, bytes);
    ValueIsPreserved(bytes);
    assert words[..|words| - 1] == WordsAt(c.words, nums);
  }

  lemma {:induction false} FirstUnlisted(words: seq<string>, parts: seq<string>)
    ensures match Indices(words, parts)
            case Ok(_) => forall part :: part in parts ==> part in words
            case Err(w) => w !in words && exists i :: 0 <= i < |parts| && parts[i] == w
                                                      && forall j :: 0 <= j < i ==> parts[j] in words
  {
    if parts != [] {
      var last := |parts| - 1;
      FirstUnlisted(words, parts[..last]);
      assert parts == parts[..last] + [parts[last]];
    }
  }

  /** Enough words are listed, and the bytes are the low ones of the number they spell. */
  ghost predicate SpellsBytes(c: Codec, data: seq<string>, bytes: seq<Byte>) {
    exists v: nat :: Spell(c, data, v) && Val(bytes, 8) == Low(v, 8 * |bytes|)
  }

  lemma BytesSpelled(c: Codec, data: seq<string>, nums: seq<nat>, n: nat)
    requires c.Valid() && Indices(c.words, data) == Ok(nums) && n <= |Bytes(nums)|
    ensures SpellsBytes(c, data, Bytes(nums)[..n])
  {
    PowersUsed();
    var v := Val(nums, 11);
    DigitsPrefix(v, 8, |Bytes(nums)|, n);
    ValOfDigits(v, 8, n);
    ByteAndWordWidths(n);
    assert Spell(c, data, v);
  }

  ghost predicate Listed(c: Codec, data: seq<string>) {
    forall w :: w in data ==> w in c.words
  }

  ghost predicate FirstUnlistedIs(c: Codec, data: seq<string>, w: string) {
    w !in c.words && exists i :: 0 <= i < |data| && data[i] == w && forall j :: 0 <= j < i ==> data[j] in c.words
  }

  /** What was decoded, or why nothing was, by the words before the last one and that one. */
  ghost predicate Explains(c: Codec, data: seq<string>, last: string, n: nat, r: Result<seq<Byte>, DecodeError>)
    requires c.Valid()
  {
    var enough := (11 * |data| + 7) / 8 >= n;
    match r
    case Err(EmptyMnemonic) => false
    case Err(NotInList(w)) => FirstUnlistedIs(c, data, w)
    case Err(TooShort(got, expected)) => Listed(c, data) && !enough && got == (11 * |data| + 7) / 8 && expected == n
    case Err(ChecksumMismatch) =>
      Listed(c, data) && enough && exists b :: |b| == n && SpellsBytes(c, data, b) && last != CheckWord(c, b)
    case Ok(b) =>
      Listed(c, data) && enough && |b| == n && SpellsBytes(c, data, b) && last == CheckWord(c, b)
  }

  /**
   When decoding accepts, and each refusal: no word at all; the first word before the last that is not
   listed; fewer bytes than expected; a last word that is not the one of the bytes' own digest.
   */
  lemma DecodedIs(c: Codec, mnemonic: string, n: nat)
    requires c.Valid()
    ensures var parts := SplitWhitespace(mnemonic);
            if parts == [] then Decoded(c, mnemonic, n) == Err(EmptyMnemonic)
            else Explains(c, parts[..|parts| - 1], parts[|parts| - 1], n, Decoded(c, mnemonic, n))
  {
    var parts := SplitWhitespace(mnemonic);
    if parts != [] {
      DecodedWordsAre(c, parts, n);
    }
  }

  lemma DecodedWordsAre(c: Codec, parts: seq<string>, n: nat)
    requires c.Valid() && parts != []
    ensures Explains(c, parts[..|parts| - 1], parts[|parts| - 1], n, DecodedWords(c, parts, n))
  {
    var data := parts[..|parts| - 1];
    FirstUnlisted(c.words, data);
    var nums := Indices(c.words, data);
    if nums.Ok? && |Bytes(nums.value)| >= n {
      var b := Bytes(nums.value)[..n];
      BytesSpelled(c, data, nums.value, n);
      ChecksumWordIs(c, b);
      assert |b| == n;
    }
  }

  /** Encoding has one word for each 11 bits, and one more. */
  lemma MnemonicLength(c: Codec, bytes: seq<Byte>)
    requires c.Valid()
    ensures |SplitWhitespace(Encoded(c, bytes))| == WordCount(|bytes|) + 1
  {
    PowersUsed();
    SplitOfJoin(EncodedWords(c, bytes));
  }

  /**
   Decoding is more lenient than encoding: the words of an accepted mnemonic are the ones encoding its
   bytes gives if and only if there are no more than needed and the padding bits are zero.
   */
  lemma CanonicalMnemonics(c: Codec, parts: seq<string>, n: nat)
    requires c.Valid() && DecodedWords(c, parts, n).Ok?
    ensures var bytes := DecodedWords(c, parts, n).value;
            var nums := Indices(c.words, parts[..|parts| - 1]).value;
            && |bytes| == n
            && (parts == EncodedWords(c, bytes) <==> |nums| == WordCount(n) && Val(nums, 11) < Pow2(8 * n))
  {
    PowersUsed();
    var bytes := DecodedWords(c, parts, n).value;
    var data := parts[..|parts| - 1];
    var nums := Indices(c.words, data).value;
    assert parts == data + [ChecksumWord(c, bytes)];
    assert WordsAt(c.words, nums) == data;
    ValueIsPreserved(bytes);
    if parts == EncodedWords(c, bytes) {
      assert EncodedWords(c, bytes)[..|parts| - 1] == WordsAt(c.words, U11(bytes));
      IndicesOfWords(c, U11(bytes));
    } else if |nums| == WordCount(n) && Val(nums, 11) < Pow2(8 * n) {
      var v := Val(nums, 11);
      DigitsPrefix(v, 8, ByteCount(|nums|), n);
      ByteAndWordWidths(n);
      LowOfSmall(v, 8 * n);
      ValOfDigits(v, 8, n);
      DigitsOfVal(nums, 11);
    }
  }
}
