/**
 The compact binary form of an encrypted secret: version, cost parameters, salt, nonce, ciphertext.
 Key derivation and the cipher are parameters.
 */
module SecretBlob {
  import opened Wrappers
  import opened Bits

  const SECRET_VERSION: Byte := 1
  const SECRET_HEADER_LEN := 7
  const SALT_LEN := 16
  const NONCE_LEN := 12
  const TAG_LEN := 16
  const OVERHEAD := SECRET_HEADER_LEN + SALT_LEN + NONCE_LEN + TAG_LEN

  datatype Cost = Cost(m: nat, t: nat, p: nat)

  datatype CipherError = KeyDerivation | Encryption | CostTooLarge | TooShort | UnsupportedVersion | Decryption

  datatype Cipher = Cipher(
    deriveKey: (string, seq<Byte>, Cost) -> Option<seq<Byte>>,
    encrypt: (seq<Byte>, seq<Byte>, seq<Byte>) -> Option<seq<Byte>>,
    decrypt: (seq<Byte>, seq<Byte>, seq<Byte>) -> Option<seq<Byte>>)
  {
    /** Under the same key and nonce, decryption undoes encryption, which adds a tag. */
    ghost predicate Correct() {
      forall key, nonce, plaintext ::
        var c := encrypt(key, nonce, plaintext);
        c.Some? ==> decrypt(key, nonce, c.value) == Some(plaintext) && |c.value| == |plaintext| + TAG_LEN
    }
  }

  /** What the operating system's random source gave one encryption. */
  datatype Fresh = Fresh(salt: seq<Byte>, nonce: seq<Byte>)
  {
    predicate Valid() { |salt| == SALT_LEN && |nonce| == NONCE_LEN }
  }

  datatype Fields = Fields(cost: Cost, salt: seq<Byte>, nonce: seq<Byte>, ciphertext: seq<Byte>)

  predicate Fits(f: Fields) {
    && f.cost.m < 0x1_0000_0000 && f.cost.t < 256 && f.cost.p < 256
    && |f.salt| == SALT_LEN && |f.nonce| == NONCE_LEN
  }

  function LittleEndian32(m: nat): (bytes: seq<Byte>)
    ensures |bytes| == 4
  {
    PowersUsed();
    Digits(m, 8, 4)
  }

  /** The bytes of a blob, field by field. */
  function Layout(f: Fields): (blob: seq<Byte>)
    requires Fits(f)
    ensures |blob| == SECRET_HEADER_LEN + SALT_LEN + NONCE_LEN + |f.ciphertext|
  {
    [SECRET_VERSION] + LittleEndian32(f.cost.m) + [f.cost.t, f.cost.p] + f.salt + f.nonce + f.ciphertext
  }

  function Parsed(blob: seq<Byte>): Result<Fields, CipherError> {
    if |blob| < SECRET_HEADER_LEN + SALT_LEN + NONCE_LEN then Err(TooShort)
    else if blob[0] != SECRET_VERSION then Err(UnsupportedVersion)
    else Ok(Fields(Cost(Val(blob[1..5], 8), blob[5], blob[6]), blob[7..23], blob[23..35], blob[35..]))
  }

  /** The secret under the password, in its compact form. */
  function Encrypted(c: Cipher, cost: Cost, drawn: Fresh, plaintext: seq<Byte>, password: string)
    : Result<seq<Byte>, CipherError>
    requires drawn.Valid() && cost.m < 0x1_0000_0000
  {
    match c.deriveKey(password, drawn.salt, cost)
    case None => Err(KeyDerivation)
    case Some(key) =>
      match c.encrypt(key, drawn.nonce, plaintext)
      case None => Err(Encryption)
      case Some(ciphertext) =>
        if cost.t >= 256 || cost.p >= 256 then Err(CostTooLarge)
        else Ok(Layout(Fields(cost, drawn.salt, drawn.nonce, ciphertext)))
  }

  function Decrypted(c: Cipher, blob: seq<Byte>, password: string): Result<seq<Byte>, CipherError> {
    match Parsed(blob)
    case Err(e) => Err(e)
    case Ok(f) =>
      match c.deriveKey(password, f.salt, f.cost)
      case None => Err(KeyDerivation)
      case Some(key) =>
        match c.decrypt(key, f.nonce, f.ciphertext)
        case None => Err(Decryption)
        case Some(plaintext) => Ok(plaintext)
  }

  /** The key can be derived, the cipher does not fail, and the costs fit a byte. */
  predicate CipherWorks(c: Cipher, cost: Cost, drawn: Fresh, plaintext: seq<Byte>, password: string) {
    var key := c.deriveKey(password, drawn.salt, cost);
    key.Some? && c.encrypt(key.value, drawn.nonce, plaintext).Some? && cost.t < 256 && cost.p < 256
  }

  method EncryptSecret(c: Cipher, cost: Cost, drawn: Fresh, plaintext: seq<Byte>, password: string)
    returns (r: Result<seq<Byte>, CipherError>)
    requires drawn.Valid() && cost.m < 0x1_0000_0000
    ensures r == Encrypted(c, cost, drawn, plaintext, password)
  {
    var key := c.deriveKey(password, drawn.salt, cost);
    if key.None? {
      return Err(KeyDerivation);
    }
    var ciphertext := c.encrypt(key.value, drawn.nonce, plaintext);
    if ciphertext.None? {
      return Err(Encryption);
    }
    if cost.t >= 256 || cost.p >= 256 {
      return Err(CostTooLarge);
    }
    var out: seq<Byte> := [SECRET_VERSION];
    out := out + LittleEndian32(cost.m);
    out := out + [cost.t];
    out := out + [cost.p];
    out := out + drawn.salt;
    out := out + drawn.nonce;
    out := out + ciphertext.value;
    assert out == Layout(Fields(cost, drawn.salt, drawn.nonce, ciphertext.value));
    r := Ok(out);
  }

  method DecryptSecret(c: Cipher, blob: seq<Byte>, password: string) returns (r: Result<seq<Byte>, CipherError>)
    ensures r == Decrypted(c, blob, password)
  {
    if |blob| < SECRET_HEADER_LEN + SALT_LEN + NONCE_LEN {
      return Err(TooShort);
    }
    if blob[0] != SECRET_VERSION {
      return Err(UnsupportedVersion);
    }
    var cost := Cost(Val(blob[1..5], 8), blob[5], blob[6]);
    var off := SECRET_HEADER_LEN;
    var salt := blob[off..off + SALT_LEN];
    off := off + SALT_LEN;
    var nonce := blob[off..off + NONCE_LEN];
    off := off + NONCE_LEN;
    var ciphertext := blob[off..];
    var key := c.deriveKey(password, salt, cost);
    if key.None? {
      return Err(KeyDerivation);
    }
    var plaintext := c.decrypt(key.value, nonce, ciphertext);
    r := if plaintext.Some? then Ok(plaintext.value) else Err(Decryption);
  }

  lemma CostOfLittleEndian(m: nat)
    requires m < 0x1_0000_0000
    ensures Val(LittleEndian32(m), 8) == m
  {
    PowersUsed();
    ValOfDigits(m, 8, 4);
    ByteAndWordWidths(4);
    TwoToThe32();
    LowOfSmall(m, 32);
  }

  /** The fields of a layout, where they were put. */
  lemma FieldsOfLayout(f: Fields)
    requires Fits(f)
    ensures var blob := Layout(f);
            && blob[..7] == [SECRET_VERSION] + LittleEndian32(f.cost.m) + [f.cost.t, f.cost.p]
            && blob[7..23] == f.salt && blob[23..35] == f.nonce && blob[35..] == f.ciphertext
  {
    var blob := Layout(f);
    var header := [SECRET_VERSION] + LittleEndian32(f.cost.m) + [f.cost.t, f.cost.p];
    TakeAndDrop(header + f.salt + f.nonce, f.ciphertext);
    TakeAndDrop(header + f.salt, f.nonce);
    TakeAndDrop(header, f.salt);
    assert blob[..35][..23] == blob[..23] && blob[..23][..7] == blob[..7];
    assert blob[23..35] == blob[..35][23..] && blob[7..23] == blob[..23][7..];
  }

  /** Parsing undoes the layout, for every cost, salt, nonce and ciphertext that fit it. */
  lemma ParsedOfLayout(f: Fields)
    requires Fits(f)
    ensures Parsed(Layout(f)) == Ok(f)
  {
    var blob := Layout(f);
    FieldsOfLayout(f);
    CostOfLittleEndian(f.cost.m);
    var header := blob[..7];
    assert blob[0] == header[0] && blob[5] == header[5] && blob[6] == header[6];
    assert blob[1..5] == header[1..5] == LittleEndian32(f.cost.m);
  }

  function FourBytes(a: nat, b: nat, c: nat, d: nat): nat { a + 0x100 * b + 0x1_0000 * c + 0x100_0000 * d }

  /** Where each field is: the version, the memory cost with its lowest byte first, the other costs, and the rest. */
  lemma LayoutIs(f: Fields)
    requires Fits(f)
    ensures var blob := Layout(f);
            && |blob| == 35 + |f.ciphertext| && blob[0] == 1
            && f.cost.m == FourBytes(blob[1], blob[2], blob[3], blob[4])
            && blob[5] == f.cost.t && blob[6] == f.cost.p
            && blob[7..23] == f.salt && blob[23..35] == f.nonce && blob[35..] == f.ciphertext
  {
    var blob := Layout(f);
    FieldsOfLayout(f);
    var header := blob[..7];
    var le := LittleEndian32(f.cost.m);
    assert header == [SECRET_VERSION] + le + [f.cost.t, f.cost.p];
    assert forall i :: 0 <= i < 7 ==> blob[i] == header[i];
    assert forall i :: 0 <= i < 4 ==> header[1 + i] == le[i];
    CostOfLittleEndian(f.cost.m);
    ValOfFour(le);
  }

  lemma ValOfFour(b: seq<Byte>)
    requires |b| == 4
    ensures Val(b, 8) == FourBytes(b[0], b[1], b[2], b[3])
  {
    PowersUsed();
    var tail := b[1..][1..][1..];
    assert tail == [b[3]];
    ShlIsTimes(0, 8);
    assert Val(tail, 8) == b[3] + Shl(Val([], 8), 8);
    ShlIsTimes(Val(tail, 8), 8);
    assert Val(b[1..][1..], 8) == b[2] + Shl(Val(tail, 8), 8);
    ShlIsTimes(Val(b[1..][1..], 8), 8);
    assert Val(b[1..], 8) == b[1] + Shl(Val(b[1..][1..], 8), 8);
    ShlIsTimes(Val(b[1..], 8), 8);
  }

  /** What encryption gives: the cipher's own output under the key of the drawn salt, laid out, or why not. */
  lemma EncryptedIs(c: Cipher, cost: Cost, drawn: Fresh, plaintext: seq<Byte>, password: string)
    requires drawn.Valid() && cost.m < 0x1_0000_0000
    ensures var key := c.deriveKey(password, drawn.salt, cost);
            var r := Encrypted(c, cost, drawn, plaintext, password);
            if key.None? then r == Err(KeyDerivation)
            else if c.encrypt(key.value, drawn.nonce, plaintext).None? then r == Err(Encryption)
            else if cost.t > 255 || cost.p > 255 then r == Err(CostTooLarge)
            else r == Ok(Layout(Fields(cost, drawn.salt, drawn.nonce,
                                       c.encrypt(key.value, drawn.nonce, plaintext).value)))
  {
  }

  /**
   What decryption gives, by the bytes of the blob: too short below 35, then an unknown version, then
   what the cipher makes of the fields.
   */
  lemma DecryptedIs(c: Cipher, blob: seq<Byte>, password: string)
    ensures var r := Decrypted(c, blob, password);
            if |blob| < 35 then r == Err(TooShort)
            else if blob[0] != 1 then r == Err(UnsupportedVersion)
            else
              var m := FourBytes(blob[1], blob[2], blob[3], blob[4]);
              var key := c.deriveKey(password, blob[7..23], Cost(m, blob[5], blob[6]));
              if key.None? then r == Err(KeyDerivation)
              else match c.decrypt(key.value, blob[23..35], blob[35..])
                   case None => r == Err(Decryption)
                   case Some(plaintext) => r == Ok(plaintext)
  {
    if |blob| >= 35 {
      ValOfFour(blob[1..5]);
    }
  }

  /** And the layout undoes parsing: a blob that parses is the layout of its fields and nothing else. */
  lemma LayoutOfParsed(blob: seq<Byte>)
    requires Parsed(blob).Ok?
    ensures Fits(Parsed(blob).value) && Layout(Parsed(blob).value) == blob
  {
    var f := Parsed(blob).value;
    PowersUsed();
    DigitsOfVal(blob[1..5], 8);
    ValIsBounded(blob[1..5], 8);
    ByteAndWordWidths(4);
    TwoToThe32();
    assert LittleEndian32(f.cost.m) == blob[1..5];
    assert blob == [blob[0]] + blob[1..5] + [blob[5], blob[6]] + blob[7..23] + blob[23..35] + blob[35..];
  }

  lemma TwoToThe32()
    ensures Pow2(32) == 0x1_0000_0000
  {
    PowersUsed();
    assert Shl(0x4_0000, 4) == 0x40_0000;
    ShlTwice(1, 18, 4);
    assert Shl(0x40_0000, 5) == 0x800_0000;
    ShlTwice(1, 22, 5);
    assert Shl(0x800_0000, 5) == 0x1_0000_0000;
    ShlTwice(1, 27, 5);
  }

  /** An encrypted secret is 51 bytes longer, and opens again under the same password. */
  lemma SecretRoundTrip(c: Cipher, cost: Cost, drawn: Fresh, plaintext: seq<Byte>, password: string)
    requires c.Correct() && drawn.Valid() && cost.m < 0x1_0000_0000
    requires Encrypted(c, cost, drawn, plaintext, password).Ok?
    ensures var blob := Encrypted(c, cost, drawn, plaintext, password).value;
            |blob| == |plaintext| + OVERHEAD && Decrypted(c, blob, password) == Ok(plaintext)
  {
    var key := c.deriveKey(password, drawn.salt, cost).value;
    var ciphertext := c.encrypt(key, drawn.nonce, plaintext).value;
    ParsedOfLayout(Fields(cost, drawn.salt, drawn.nonce, ciphertext));
  }
}
