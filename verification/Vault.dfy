/**
 Sealing key files on a disk that can fail at any step, store something other than what it was given,
 or stop for good. The cipher is a parameter, and nothing is assumed of it.
 */
module Vault {
  import opened Wrappers
  import opened KeyFiles

  type Files = map<Path, Contents>

  /**
   What goes wrong with one disk operation. `partial` are the contents a file passes through while it
   is written, and `stored`, if given, what it ends up with instead of what was asked for.
   */
  datatype Fault = Fault(fails: bool, takesEffect: bool, partial: seq<Contents>, stored: Option<Contents>)

  datatype Error = Io | NoPassword | NoKeyFile | BothForms | WrongPassword | CannotEncrypt | NoRoundTrip | NotAsWritten
                 | PromptFailed | AlreadyExists

  /** What the disk held before, with some other content (or none) at one path. */
  ghost predicate SameExceptAt(before: Files, after: Files, path: Path) {
    forall p :: p != path ==> (p in before <==> p in after) && (p in before ==> before[p] == after[p])
  }

  class Disk {
    var files: Files
    var operations: nat
    const faults: nat -> Fault
    /** Every state the disk has been in; the machine may stop in any of them. */
    ghost var history: seq<Files>

    ghost predicate Valid()
      reads this
    {
      history != [] && history[|history| - 1] == files
    }

    /** Nothing fails, though something else may be stored than was asked for; or nothing goes wrong at all. */
    ghost predicate NeverFails() {
      forall i :: !faults(i).fails
    }

    ghost predicate Reliable() {
      NeverFails() && forall i :: faults(i).stored.None?
    }

    constructor (files: Files, faults: nat -> Fault)
      ensures Valid() && this.files == files && this.faults == faults && history == [files]
    {
      this.files, this.faults, operations, history := files, faults, 0, [files];
    }

    /** A read that succeeds returns what is on the disk. */
    method Read(path: Path) returns (r: Result<Contents, Error>)
      requires Valid()
      modifies this`operations
      ensures if r.Ok? then path in files && r.value == files[path] else r.error.Io?
      ensures NeverFails() && path in files ==> r.Ok?
    {
      var fault := faults(operations);
      operations := operations + 1;
      r := if fault.fails || path !in files then Err(Io) else Ok(files[path]);
    }

    method Set(path: Path, contents: Contents)
      requires Valid()
      modifies this`files, this`history
      ensures Valid() && files == old(files)[path := contents] && history == old(history) + [files]
    {
      files := files[path := contents];
      history := history + [files];
    }

    /** Create a file that does not exist, write it and flush it; any of the three can fail. */
    method WritePrivate(path: Path, bytes: Contents) returns (r: Result<(), Error>)
      requires Valid()
      modifies this
      ensures Valid() && old(history) <= history
      ensures forall i :: |old(history)| <= i < |history| ==> SameExceptAt(old(files), history[i], path)
      ensures files == old(files) || SameExceptAt(old(files), files, path)
      ensures path in old(files) ==> r.Err? && history == old(history)
      ensures r.Ok? ==> path in files
      ensures r.Err? ==> r.error.Io?
      ensures NeverFails() && path !in old(files) ==> r.Ok?
      ensures Reliable() && path !in old(files) ==> files == old(files)[path := bytes]
    {
      var fault := faults(operations);
      operations := operations + 1;
      if fault.fails || path in files {
        return Err(Io);
      }
      Set(path, []);
      r := WriteAll(path, bytes);
      if r.Ok? {
        var sync := faults(operations);
        operations := operations + 1;
        r := if sync.fails then Err(Io) else Ok(());
      }
    }

    method WriteAll(path: Path, bytes: Contents) returns (r: Result<(), Error>)
      requires Valid() && path in files
      modifies this
      ensures Valid() && old(history) <= history
      ensures forall i :: |old(history)| <= i < |history| ==> SameExceptAt(old(files), history[i], path)
      ensures SameExceptAt(old(files), files, path) && path in files
      ensures r.Err? ==> r.error.Io?
      ensures NeverFails() ==> r.Ok?
      ensures Reliable() ==> files == old(files)[path := bytes]
    {
      var write := faults(operations);
      operations := operations + 1;
      for i := 0 to |write.partial|
        invariant Valid() && old(history) <= history
        invariant files[path := bytes] == old(files)[path := bytes] && path in files
        invariant forall j :: |old(history)| <= j < |history| ==> SameExceptAt(old(files), history[j], path)
      {
        Set(path, write.partial[i]);
      }
      Set(path, if write.stored.Some? then write.stored.value else bytes);
      r := if write.fails then Err(Io) else Ok(());
    }

    /** Remove a file; a failure is reported whether or not the file is gone. */
    method Remove(path: Path) returns (r: Result<(), Error>)
      requires Valid()
      modifies this
      ensures Valid() && old(history) <= history
      ensures forall i :: |old(history)| <= i < |history| ==> history[i] == old(files) - {path}
      ensures files == old(files) || files == old(files) - {path}
      ensures r.Ok? ==> path !in files
      ensures r.Err? ==> r.error.Io?
      ensures NeverFails() ==> r.Ok?
    {
      var fault := faults(operations);
      operations := operations + 1;
      if fault.fails && !fault.takesEffect {
        return Err(Io);
      }
      files := files - {path};
      history := history + [files];
      r := if fault.fails then Err(Io) else Ok(());
    }
  }

  /** Password-sealed envelopes; `encrypt` also takes what the random source gave it. */
  datatype Envelopes = Envelopes(
    encrypt: (Contents, string, nat) -> Option<Contents>,
    decrypt: (Contents, string) -> Option<Contents>,
    isEnvelope: Contents -> bool)

  /** The plaintext a key file opens to under a password. */
  function Opens(env: Envelopes, files: Files, file: KeyFile, password: string): Option<Contents> {
    if file.plain in files then
      if env.isEnvelope(files[file.plain]) then env.decrypt(files[file.plain], password)
      else Some(files[file.plain])
    else if file.Sealed() in files then env.decrypt(files[file.Sealed()], password)
    else None
  }

  /** The contents can be turned into an envelope that the password opens to the same plaintext. */
  predicate Sealable(env: Envelopes, bytes: Contents, password: string, drawn: nat) {
    if env.isEnvelope(bytes) then env.decrypt(bytes, password).Some?
    else var e := env.encrypt(bytes, password, drawn); e.Some? && env.decrypt(e.value, password) == Some(bytes)
  }

  /** What is written for some contents: an envelope as it is, and anything else encrypted. */
  function EnvelopeOf(env: Envelopes, bytes: Contents, password: string, drawn: nat): Contents
    requires Sealable(env, bytes, password, drawn)
  {
    if env.isEnvelope(bytes) then bytes else env.encrypt(bytes, password, drawn).value
  }

  /** Why some contents cannot be sealed. */
  function NotSealable(env: Envelopes, bytes: Contents, password: string, drawn: nat): Error {
    if env.isEnvelope(bytes) then WrongPassword
    else
      match env.encrypt(bytes, password, drawn)
      case None => CannotEncrypt
      case Some(e) => if env.decrypt(e, password).None? then WrongPassword else NoRoundTrip
  }

  predicate IsSealed(files: Files, file: KeyFile) {
    file.plain !in files && file.Sealed() in files
  }

  /** The vault's password opens the sealed form. */
  predicate SealedOpens(env: Envelopes, files: Files, file: KeyFile, password: string) {
    file.Sealed() in files && env.decrypt(files[file.Sealed()], password).Some?
  }

  /** In every state since `from`, the key file opens to what it opened to before. */
  ghost predicate NeverLost(env: Envelopes, history: seq<Files>, from: nat, before: Files, file: KeyFile,
                            password: string)
  {
    forall i :: from <= i < |history| ==> Opens(env, history[i], file, password) == Opens(env, before, file, password)
  }

  /** Only the key file's own two names are touched. */
  ghost predicate OnlyTouches(history: seq<Files>, from: nat, before: Files, file: KeyFile) {
    forall i, p :: from <= i < |history| && p != file.plain && p != file.Sealed()
      ==> (p in before <==> p in history[i]) && (p in before ==> before[p] == history[i][p])
  }

  /** Why a sealed file was not opened: nothing was answered, or what was answered does not open it. */
  function NotOpened(answer: Option<string>): Error {
    if answer.None? then PromptFailed else WrongPassword
  }

  datatype Opened = Opened(bytes: Contents, wasSealed: bool)

  class Vault {
    var password: Option<string>

    constructor (password: Option<string>)
      ensures this.password == password
    {
      this.password := password;
    }

    /**
     Open whichever form is there. `answer` is what the user gives if asked. The vault keeps a password
     only once it has opened a file.
     */
    method Open(env: Envelopes, disk: Disk, file: KeyFile, answer: Option<string>) returns (r: Result<Opened, Error>)
      requires disk.Valid()
      modifies this, disk`operations
      ensures password == old(password) || (password == answer && r.Ok? && r.value.wasSealed)
      ensures r.Ok? && !r.value.wasSealed ==> forall p :: Opens(env, disk.files, file, p) == Some(r.value.bytes)
      ensures r.Ok? && r.value.wasSealed ==>
        password.Some? && Opens(env, disk.files, file, password.value) == Some(r.value.bytes)
      ensures old(password).Some? && Opens(env, disk.files, file, old(password).value).Some? ==>
        password == old(password) && (r.Ok? || r.error.Io?)
      ensures answer.Some? && Opens(env, disk.files, file, answer.value).Some? ==> r.Ok? || r.error.Io?
      ensures file.plain !in disk.files && file.Sealed() !in disk.files <==> r == Err(NoKeyFile)
      ensures r.Ok? ==> (r.value.wasSealed <==> file.plain !in disk.files || env.isEnvelope(disk.files[file.plain]))
      ensures r.Err? && !r.error.NoKeyFile? && !r.error.Io? ==> r.error == NotOpened(answer)
      ensures disk.NeverFails() && r.Err? ==> !r.error.Io?
    {
      if file.plain in disk.files {
        var bytes := disk.Read(file.plain);
        if bytes.Err? {
          return Err(bytes.error);
        }
        if env.isEnvelope(bytes.value) {
          r := Decrypt(env, bytes.value, answer);
          return;
        }
        return Ok(Opened(bytes.value, false));
      }
      if file.Sealed() in disk.files {
        var bytes := disk.Read(file.Sealed());
        if bytes.Err? {
          return Err(bytes.error);
        }
        r := Decrypt(env, bytes.value, answer);
        return;
      }
      r := Err(NoKeyFile);
    }

    method Decrypt(env: Envelopes, envelope: Contents, answer: Option<string>) returns (r: Result<Opened, Error>)
      modifies this
      ensures password == old(password) || (password == answer && r.Ok?)
      ensures r.Ok? ==>
        r.value.wasSealed && password.Some? && env.decrypt(envelope, password.value) == Some(r.value.bytes)
      ensures old(password).Some? && env.decrypt(envelope, old(password).value).Some? ==>
        r.Ok? && password == old(password)
      ensures answer.Some? && env.decrypt(envelope, answer.value).Some? ==> r.Ok?
      ensures r.Err? ==> r.error == NotOpened(answer)
    {
      if password.Some? {
        var bytes := env.decrypt(envelope, password.value);
        if bytes.Some? {
          return Ok(Opened(bytes.value, true));
        }
      }
      if answer.None? {
        return Err(PromptFailed);
      }
      var bytes := env.decrypt(envelope, answer.value);
      if bytes.None? {
        return Err(WrongPassword);
      }
      password := answer;
      r := Ok(Opened(bytes.value, true));
    }

    /** Decrypt one sealed file and drop the result; the disk stays as it is. */
    method CheckOpens(env: Envelopes, disk: Disk, sealed: Path) returns (r: Result<(), Error>)
      requires disk.Valid()
      modifies disk`operations
      ensures r.Ok? ==> password.Some? && sealed in disk.files && env.decrypt(disk.files[sealed], password.value).Some?
      ensures password.Some? && sealed in disk.files && env.decrypt(disk.files[sealed], password.value).Some? ==>
        r.Ok? || r.error.Io?
      ensures password.None? <==> r == Err(NoPassword)
      ensures r.Err? ==> r.error.NoPassword? || r.error.Io? || r.error.WrongPassword?
      ensures r == Err(WrongPassword) ==> sealed in disk.files
      ensures disk.NeverFails() && sealed in disk.files && r.Err? ==> !r.error.Io?
    {
      if password.None? {
        return Err(NoPassword);
      }
      var envelope := disk.Read(sealed);
      if envelope.Err? {
        return Err(envelope.error);
      }
      r := if env.decrypt(envelope.value, password.value).Some? then Ok(()) else Err(WrongPassword);
    }

    /** What is written under the sealed name: an envelope the password opens to the same plaintext. */
    method Envelope(env: Envelopes, bytes: Contents, pw: string, drawn: nat) returns (r: Result<Contents, Error>)
      ensures r.Ok? ==>
        env.decrypt(r.value, pw).Some? &&
        env.decrypt(r.value, pw) == (if env.isEnvelope(bytes) then env.decrypt(bytes, pw) else Some(bytes))
      ensures r.Ok? <==> Sealable(env, bytes, pw, drawn)
      ensures r.Ok? ==> r.value == EnvelopeOf(env, bytes, pw, drawn)
      ensures r.Err? ==> r.error == NotSealable(env, bytes, pw, drawn)
    {
      if env.isEnvelope(bytes) {
        return if env.decrypt(bytes, pw).Some? then Ok(bytes) else Err(WrongPassword);
      }
      var envelope := env.encrypt(bytes, pw, drawn);
      if envelope.None? {
        return Err(CannotEncrypt);
      }
      var reopened := env.decrypt(envelope.value, pw);
      if reopened.None? {
        return Err(WrongPassword);
      }
      r := if reopened.value == bytes then Ok(envelope.value) else Err(NoRoundTrip);
    }

    /**
     Write the sealed form and read it back; what does not read back as written is removed again, as
     well as it can be.
     */
    method WriteSealed(disk: Disk, sealed: Path, envelope: Contents) returns (r: Result<(), Error>)
      requires disk.Valid()
      modifies disk
      ensures disk.Valid() && old(disk.history) <= disk.history
      ensures forall i :: |old(disk.history)| <= i < |disk.history| ==>
        SameExceptAt(old(disk.files), disk.history[i], sealed)
      ensures SameExceptAt(old(disk.files), disk.files, sealed)
      ensures sealed in old(disk.files) ==> r.Err? && disk.history == old(disk.history)
      ensures r.Ok? ==> sealed in disk.files && disk.files[sealed] == envelope
      ensures r.Err? ==> r.error.Io? || r.error.NotAsWritten?
      ensures disk.NeverFails() && sealed !in old(disk.files) ==>
        r.Ok? || (r.error.NotAsWritten? && sealed !in disk.files)
      ensures disk.Reliable() && sealed !in old(disk.files) ==> r.Ok?
    {
      r := disk.WritePrivate(sealed, envelope);
      if r.Err? {
        return;
      }
      var readBack := disk.Read(sealed);
      if readBack.Err? {
        return Err(readBack.error);
      }
      if readBack.value != envelope {
        var _ := disk.Remove(sealed);
        return Err(NotAsWritten);
      }
    }

    /**
     Seal a key file and delete its plaintext. Whatever fails, and wherever the machine stops, the key
     file opens under the vault's password to what it opened to before.
     */
    method Seal(env: Envelopes, disk: Disk, file: KeyFile, drawn: nat) returns (r: Result<bool, Error>)
      requires disk.Valid()
      modifies disk
      ensures disk.Valid() && old(disk.history) <= disk.history
      ensures password.None? ==> r == Err(NoPassword) && disk.history == old(disk.history)
      ensures password.Some? ==>
        NeverLost(env, disk.history, |old(disk.history)|, old(disk.files), file, password.value)
      ensures OnlyTouches(disk.history, |old(disk.history)|, old(disk.files), file)
      ensures forall i :: |old(disk.history)| <= i < |disk.history| && IsSealed(disk.history[i], file) ==>
        password.Some? && SealedOpens(env, disk.history[i], file, password.value)
      ensures r.Ok? ==> IsSealed(disk.files, file) && (r.value <==> file.plain in old(disk.files))
      ensures r.Ok? && !r.value ==> disk.history == old(disk.history)
      ensures password.Some? ==> (r == Ok(false) <==> IsSealed(old(disk.files), file))
      ensures password.Some? ==>
        (r == Err(NoKeyFile) <==> file.plain !in old(disk.files) && file.Sealed() !in old(disk.files))
      ensures password.Some? ==>
        (r == Err(BothForms) <==> file.plain in old(disk.files) && file.Sealed() in old(disk.files))
      ensures r == Ok(true) ==>
        && Sealable(env, old(disk.files)[file.plain], password.value, drawn)
        && disk.files == old(disk.files)[file.Sealed() := EnvelopeOf(env, old(disk.files)[file.plain], password.value,
                                                                     drawn)] - {file.plain}
      ensures disk.NeverFails() && r == Err(NotAsWritten) ==> disk.files == old(disk.files)
      ensures password.Some? && disk.Reliable()
              && file.plain in old(disk.files) && file.Sealed() !in old(disk.files)
              && !Sealable(env, old(disk.files)[file.plain], password.value, drawn) ==>
        && r == Err(NotSealable(env, old(disk.files)[file.plain], password.value, drawn))
        && disk.history == old(disk.history)
      ensures password.Some? && disk.Reliable()
              && file.plain in old(disk.files) && file.Sealed() !in old(disk.files) ==>
        (r == Ok(true) <==> Sealable(env, old(disk.files)[file.plain], password.value, drawn))
      ensures |disk.history| > |old(disk.history)| ==>
        file.plain in old(disk.files) && file.Sealed() !in old(disk.files)
    {
      if password.None? {
        return Err(NoPassword);
      }
      var pw := password.value;
      assert file.plain != file.Sealed() by { assert |file.plain| < |file.Sealed()|; }
      if file.plain !in disk.files {
        return if file.Sealed() in disk.files then Ok(false) else Err(NoKeyFile);
      }
      if file.Sealed() in disk.files {
        return Err(BothForms);
      }
      var bytes := disk.Read(file.plain);
      if bytes.Err? {
        return Err(bytes.error);
      }
      var envelope := Envelope(env, bytes.value, pw, drawn);
      if envelope.Err? {
        return Err(envelope.error);
      }
      var written := WriteSealed(disk, file.Sealed(), envelope.value);
      if written.Err? {
        return Err(written.error);
      }
      var removed := disk.Remove(file.plain);
      if removed.Err? {
        return Err(removed.error);
      }
      r := Ok(true);
    }

    /**
     Create a key file in its sealed form only. No file that was there
     changes, and a success leaves a sealed file that opens to the bytes.
     */
    method SealNew(env: Envelopes, disk: Disk, file: KeyFile, bytes: Contents, drawn: nat)
      returns (r: Result<Path, Error>)
      requires disk.Valid()
      modifies disk
      ensures disk.Valid() && old(disk.history) <= disk.history
      ensures forall i :: |old(disk.history)| <= i < |disk.history| ==>
        SameExceptAt(old(disk.files), disk.history[i], file.Sealed())
      ensures password.None? ==> r == Err(NoPassword)
      ensures password.Some? ==>
        (r == Err(AlreadyExists) <==> file.plain in old(disk.files) || file.Sealed() in old(disk.files))
      ensures password.None? || file.plain in old(disk.files) || file.Sealed() in old(disk.files) ==>
        r.Err? && disk.history == old(disk.history)
      ensures r.Ok? ==>
        && env.encrypt(bytes, password.value, drawn).Some?
        && disk.files == old(disk.files)[file.Sealed() := env.encrypt(bytes, password.value, drawn).value]
      ensures disk.NeverFails() && r == Err(NotAsWritten) ==> disk.files == old(disk.files)
      ensures r.Ok? ==>
        && password.Some? && r.value == file.Sealed() && IsSealed(disk.files, file)
        && Opens(env, disk.files, file, password.value) == Some(bytes)
      ensures password.Some? && disk.Reliable()
              && file.plain !in old(disk.files) && file.Sealed() !in old(disk.files) ==>
        var e := env.encrypt(bytes, password.value, drawn);
        r.Ok? <==> e.Some? && env.decrypt(e.value, password.value) == Some(bytes)
    {
      if password.None? {
        return Err(NoPassword);
      }
      assert file.plain != file.Sealed() by { assert |file.plain| < |file.Sealed()|; }
      if file.plain in disk.files || file.Sealed() in disk.files {
        return Err(AlreadyExists);
      }
      var envelope := env.encrypt(bytes, password.value, drawn);
      if envelope.None? {
        return Err(CannotEncrypt);
      }
      var reopened := env.decrypt(envelope.value, password.value);
      if reopened.None? {
        return Err(WrongPassword);
      }
      if reopened.value != bytes {
        return Err(NoRoundTrip);
      }
      var written := WriteSealed(disk, file.Sealed(), envelope.value);
      if written.Err? {
        return Err(written.error);
      }
      r := Ok(file.Sealed());
    }
  }
}
