/**
 The paper backup of a key file: the secret (an account's key, or the file's bytes), encrypted when
 the file is sealed, printed as a mnemonic that has to fit the page.
 */
module BackupPage {
  import opened Wrappers
  import opened Bits
  import opened Text
  import opened Mnemonic
  import opened SecretBlob

  const MAX_PRINTABLE_SECRET_LEN := 96
  const ACCOUNT_KEY_LEN := 32
  const MNEMONIC_WORDS_PER_LINE := 6
  const MNEMONIC_LINES := 18
  const MAX_MNEMONIC_WORDS := MNEMONIC_WORDS_PER_LINE * MNEMONIC_LINES

  datatype Page = Page(
    name: string, address: Option<string>, encrypted: bool, secretLen: nat, qrPayload: string, mnemonic: string)

  datatype PageError = InvalidPassphrase(reason: DecodeError) | TooLong(len: nat) | CannotEncrypt(cause: CipherError)

  /**
   What the page is made with: the word list, the cipher and its cost, the JSON reader that recognises
   an account's address and passphrase, and base64.
   */
  datatype Tools = Tools(
    codec: Codec,
    cipher: Cipher,
    cost: Cost,
    accountFields: seq<Byte> -> Option<(string, string)>,
    base64: seq<Byte> -> string)
  {
    ghost predicate Valid() { codec.Valid() && cipher.Correct() && cost.m < 0x1_0000_0000 }
  }

  /** The secret a key file's page carries. */
  function Secret(tools: Tools, bytes: seq<Byte>): Result<seq<Byte>, PageError>
    requires tools.codec.Valid()
  {
    match tools.accountFields(bytes)
    case Some((_, passphrase)) =>
      (match Decoded(tools.codec, Trim(passphrase), ACCOUNT_KEY_LEN)
       case Ok(key) => Ok(key)
       case Err(e) => Err(InvalidPassphrase(e)))
    case None => if |bytes| > MAX_PRINTABLE_SECRET_LEN then Err(TooLong(|bytes|)) else Ok(bytes)
  }

  function BackupPage(tools: Tools, drawn: Fresh, name: string, bytes: seq<Byte>, password: Option<string>)
    : Result<Page, PageError>
    requires tools.codec.Valid() && tools.cost.m < 0x1_0000_0000 && drawn.Valid()
  {
    var fields := tools.accountFields(bytes);
    var address := if fields.Some? then Some(fields.value.0) else None;
    match Secret(tools, bytes)
    case Err(e) => Err(e)
    case Ok(secret) =>
      var printed := if password.Some?
                     then Encrypted(tools.cipher, tools.cost, drawn, secret, password.value)
                     else Ok(secret);
      match printed
      case Err(e) => Err(CannotEncrypt(e))
      case Ok(s) => Ok(Page(name, address, password.Some?, |s|, tools.base64(s), Encoded(tools.codec, s)))
  }

  /** The renderer's own check. */
  predicate RendererAccepts(page: Page) {
    |SplitWhitespace(page.mnemonic)| <= MAX_MNEMONIC_WORDS
  }

  /** Reading a page back: the bytes its mnemonic spells, decrypted if they are encrypted. */
  function Recovered(tools: Tools, page: Page, password: Option<string>): Option<seq<Byte>>
    requires tools.codec.Valid()
  {
    match Decoded(tools.codec, page.mnemonic, page.secretLen)
    case Err(_) => None
    case Ok(s) =>
      if !page.encrypted then Some(s)
      else if password.None? then None
      else match Decrypted(tools.cipher, s, password.value)
           case Ok(secret) => Some(secret)
           case Err(_) => None
  }

  /** A sealed secret fits the page if and only if it is at most 96 bytes. */
  lemma LongestPrintableSecret(tools: Tools, drawn: Fresh, secret: seq<Byte>, password: string)
    requires tools.Valid() && drawn.Valid()
    requires Encrypted(tools.cipher, tools.cost, drawn, secret, password).Ok?
    ensures var blob := Encrypted(tools.cipher, tools.cost, drawn, secret, password).value;
            |SplitWhitespace(Encoded(tools.codec, blob))| <= 108 <==> |secret| <= 96
  {
    SecretRoundTrip(tools.cipher, tools.cost, drawn, secret, password);
    MnemonicLength(tools.codec, Encrypted(tools.cipher, tools.cost, drawn, secret, password).value);
  }

  /** The page of an account has 25 words in the clear and 62 sealed. */
  lemma AccountPageWords(tools: Tools, drawn: Fresh, name: string, bytes: seq<Byte>, password: Option<string>)
    requires tools.Valid() && drawn.Valid()
    requires tools.accountFields(bytes).Some? && BackupPage(tools, drawn, name, bytes, password).Ok?
    ensures var page := BackupPage(tools, drawn, name, bytes, password).value;
            |SplitWhitespace(page.mnemonic)| == if page.encrypted then 62 else 25
  {
    var key := Secret(tools, bytes).value;
    MnemonicLength(tools.codec, key);
    if password.Some? {
      SecretRoundTrip(tools.cipher, tools.cost, drawn, key, password.value);
      MnemonicLength(tools.codec, Encrypted(tools.cipher, tools.cost, drawn, key, password.value).value);
    }
  }

  lemma SecretIsShort(tools: Tools, bytes: seq<Byte>)
    requires tools.codec.Valid() && Secret(tools, bytes).Ok?
    ensures |Secret(tools, bytes).value| <= MAX_PRINTABLE_SECRET_LEN
  {
  }

  /** Every page that is made fits, and carries the secret: it can be read back from the paper. */
  lemma AcceptedPagesFitAndRecover(tools: Tools, drawn: Fresh, name: string, bytes: seq<Byte>, password: Option<string>)
    requires tools.Valid() && drawn.Valid()
    requires BackupPage(tools, drawn, name, bytes, password).Ok?
    ensures var page := BackupPage(tools, drawn, name, bytes, password).value;
            && RendererAccepts(page) && |SplitWhitespace(page.mnemonic)| <= 108
            && Secret(tools, bytes).Ok?
            && Recovered(tools, page, password) == Some(Secret(tools, bytes).value)
  {
    var secret := Secret(tools, bytes).value;
    SecretIsShort(tools, bytes);
    if password.Some? {
      SecretRoundTrip(tools.cipher, tools.cost, drawn, secret, password.value);
      var s := Encrypted(tools.cipher, tools.cost, drawn, secret, password.value).value;
      RoundTrip(tools.codec, s);
      MnemonicLength(tools.codec, s);
    } else {
      RoundTrip(tools.codec, secret);
      MnemonicLength(tools.codec, secret);
    }
  }

  /**
   And a page is made of every secret of at most 96 bytes: in the clear always, sealed unless the cipher
   itself fails. Of contents that are no account, those are the only ones.
   */
  lemma ShortSecretsArePrinted(tools: Tools, drawn: Fresh, name: string, bytes: seq<Byte>, password: Option<string>)
    requires tools.Valid() && drawn.Valid() && tools.accountFields(bytes).None?
    ensures BackupPage(tools, drawn, name, bytes, password).Ok?
       <==> |bytes| <= 96
            && (password.Some? ==> CipherWorks(tools.cipher, tools.cost, drawn, bytes, password.value))
  {
  }

  /** What a page is printed from: the secret itself, or its encryption under the password. */
  ghost predicate PrintedFrom(tools: Tools, drawn: Fresh, secret: seq<Byte>, password: Option<string>,
                              printed: seq<Byte>)
    requires tools.Valid() && drawn.Valid()
  {
    match password
    case None => printed == secret
    case Some(pw) => Encrypted(tools.cipher, tools.cost, drawn, secret, pw) == Ok(printed)
  }

  /** The secret of a file: the key of an account's passphrase, without white space around it, or the bytes. */
  function SecretOf(tools: Tools, bytes: seq<Byte>): Result<seq<Byte>, DecodeError>
    requires tools.codec.Valid()
  {
    match tools.accountFields(bytes)
    case Some((_, passphrase)) => Decoded(tools.codec, Trim(passphrase), 32)
    case None => Ok(bytes)
  }

  /**
   What is on a page: the name, the address of an account and only of one, whether it is encrypted, and
   one and the same printed secret in the QR code and the mnemonic. And each refusal.
   */
  lemma PageIs(tools: Tools, drawn: Fresh, name: string, bytes: seq<Byte>, password: Option<string>)
    requires tools.Valid() && drawn.Valid()
    ensures var fields := tools.accountFields(bytes);
            var secret := SecretOf(tools, bytes);
            match BackupPage(tools, drawn, name, bytes, password)
            case Ok(page) =>
              && page.name == name && page.encrypted == password.Some?
              && page.address == (if fields.Some? then Some(fields.value.0) else None)
              && secret.Ok? && (fields.None? ==> |bytes| <= 96)
              && exists printed :: PrintedFrom(tools, drawn, secret.value, password, printed)
                   && page.secretLen == |printed|
                   && page.qrPayload == tools.base64(printed) && page.mnemonic == Encoded(tools.codec, printed)
            case Err(InvalidPassphrase(reason)) => fields.Some? && secret == Err(reason)
            case Err(TooLong(len)) => fields.None? && len == |bytes| > 96
            case Err(CannotEncrypt(cause)) =>
              && secret.Ok? && (fields.None? ==> |bytes| <= 96) && password.Some?
              && Encrypted(tools.cipher, tools.cost, drawn, secret.value, password.value) == Err(cause)
  {
    var page := BackupPage(tools, drawn, name, bytes, password);
    if page.Ok? {
      var secret := SecretOf(tools, bytes).value;
      var printed := if password.None? then secret
                     else Encrypted(tools.cipher, tools.cost, drawn, secret, password.value).value;
      assert PrintedFrom(tools, drawn, secret, password, printed);
    }
  }

  /** White space around a stored passphrase does not matter, and an account's own passphrase is accepted. */
  lemma AccountSecretIsItsKey(tools: Tools, bytes: seq<Byte>, key: seq<Byte>)
    requires tools.codec.Valid() && |key| == ACCOUNT_KEY_LEN
    requires tools.accountFields(bytes).Some?
    requires SplitWhitespace(tools.accountFields(bytes).value.1) == SplitWhitespace(Encoded(tools.codec, key))
    ensures Secret(tools, bytes) == Ok(key)
  {
    SplitOfTrim(tools.accountFields(bytes).value.1);
    RoundTrip(tools.codec, key);
  }
}
