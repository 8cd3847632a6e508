/**
 The `seal` command over a directory tree: check that the password opens everything sealed already,
 then seal the rest one by one, stopping at the first failure.
 */
module SealCommand {
  import opened Wrappers
  import opened KeyFiles
  import opened Vault

  /** Nothing was unsealed, a check failed, a seal failed after `sealed` others, or all were done. */
  datatype Outcome = NothingToDo | CheckFailed(error: Error) | Stopped(error: Error, sealed: nat) | Done(sealed: nat)

  /** Every key file that is on disk only in sealed form opens under the password. */
  ghost predicate OnePassword(env: Envelopes, files: Files, keyFiles: seq<KeyFile>, password: string) {
    forall f :: f in keyFiles && IsSealed(files, f) ==> SealedOpens(env, files, f, password)
  }

  /** Every key file opens under the password to what it opened to before. */
  ghost predicate AllKept(env: Envelopes, before: Files, files: Files, keyFiles: seq<KeyFile>, password: string) {
    forall f :: f in keyFiles ==> Opens(env, files, f, password) == Opens(env, before, f, password)
  }

  /** Both, in every state of the disk since `from`. */
  ghost predicate Safe(env: Envelopes, history: seq<Files>, from: nat, before: Files, keyFiles: seq<KeyFile>,
                       password: string)
  {
    forall i :: from <= i < |history| ==>
      AllKept(env, before, history[i], keyFiles, password) && OnePassword(env, history[i], keyFiles, password)
  }

  predicate WellNamed(keyFiles: seq<KeyFile>) {
    forall f :: f in keyFiles ==> ProperlyNamed(f)
  }

  /** Sealing one key file leaves the others as they are. */
  lemma OthersAreUntouched(history: seq<Files>, from: nat, before: Files, f: KeyFile, g: KeyFile, i: nat)
    requires OnlyTouches(history, from, before, f) && from <= i < |history|
    requires f != g && ProperlyNamed(f) && ProperlyNamed(g)
    ensures g.plain in history[i] <==> g.plain in before
    ensures g.Sealed() in history[i] <==> g.Sealed() in before
    ensures g.plain in before ==> history[i][g.plain] == before[g.plain]
    ensures g.Sealed() in before ==> history[i][g.Sealed()] == before[g.Sealed()]
  {
    NamesAreApart(f, g);
  }

  /** Sealing one key file keeps the whole tree safe. */
  lemma SealKeepsTreeSafe(env: Envelopes, history: seq<Files>, from: nat, start: Files, before: Files,
                          keyFiles: seq<KeyFile>, f: KeyFile, password: string)
    requires WellNamed(keyFiles) && f in keyFiles
    requires AllKept(env, start, before, keyFiles, password) && OnePassword(env, before, keyFiles, password)
    requires NeverLost(env, history, from, before, f, password) && OnlyTouches(history, from, before, f)
    requires forall i :: from <= i < |history| && IsSealed(history[i], f) ==> SealedOpens(env, history[i], f, password)
    ensures Safe(env, history, from, start, keyFiles, password)
  {
    forall i, g | from <= i < |history| && g in keyFiles
      ensures Opens(env, history[i], g, password) == Opens(env, start, g, password)
      ensures IsSealed(history[i], g) ==> SealedOpens(env, history[i], g, password)
    {
      if g != f {
        OthersAreUntouched(history, from, before, f, g, i);
      }
    }
  }

  /** What was sealed before one more key file is sealed is sealed after it, and so is that one. */
  lemma MoreAreSealed(history: seq<Files>, from: nat, before: Files, files: Files, done: seq<KeyFile>, f: KeyFile)
    requires WellNamed(done) && ProperlyNamed(f) && OnlyTouches(history, from, before, f)
    requires if |history| > from then history[|history| - 1] == files else files == before
    requires forall g :: g in done ==> IsSealed(before, g)
    requires IsSealed(files, f)
    ensures forall g :: g in done + [f] ==> IsSealed(files, g)
  {
    forall g | g in done && g != f ensures IsSealed(files, g) {
      if |history| > from {
        OthersAreUntouched(history, from, before, f, g, |history| - 1);
      }
    }
  }

  /** A key file that is sealed, or whose plaintext alone is there and can be sealed whatever is drawn. */
  ghost predicate SealsFine(env: Envelopes, files: Files, f: KeyFile, password: string, drawn: nat -> nat) {
    IsSealed(files, f)
    || (f.plain in files && f.Sealed() !in files && forall i :: Sealable(env, files[f.plain], password, drawn(i)))
  }

  ghost predicate AllSealFine(env: Envelopes, files: Files, keyFiles: seq<KeyFile>, password: string,
                              drawn: nat -> nat)
  {
    forall f :: f in keyFiles ==> SealsFine(env, files, f, password, drawn)
  }

  /** Sealing one key file does not make another harder to seal. */
  lemma RestSealsFine(env: Envelopes, history: seq<Files>, from: nat, before: Files, files: Files, f: KeyFile,
                      rest: seq<KeyFile>, password: string, drawn: nat -> nat)
    requires WellNamed(rest) && ProperlyNamed(f) && OnlyTouches(history, from, before, f)
    requires if |history| > from then history[|history| - 1] == files else files == before
    requires AllSealFine(env, before, rest, password, drawn) && IsSealed(files, f)
    ensures AllSealFine(env, files, rest, password, drawn)
  {
    forall g | g in rest && g != f ensures SealsFine(env, files, g, password, drawn) {
      assert SealsFine(env, before, g, password, drawn);
      if |history| > from {
        OthersAreUntouched(history, from, before, f, g, |history| - 1);
      }
    }
  }

  /** The password opens the reference file, if one is given, and every sealed key file. */
  ghost predicate ChecksPass(env: Envelopes, files: Files, keyFiles: seq<KeyFile>, password: string,
                             reference: Option<Path>)
  {
    && OnePassword(env, files, keyFiles, password)
    && (reference.Some? ==>
      reference.value in files && env.decrypt(files[reference.value], password).Some?)
  }

  ghost predicate Distinct(keyFiles: seq<KeyFile>) {
    forall i, j :: 0 <= i < j < |keyFiles| ==> keyFiles[i] != keyFiles[j]
  }

  method CheckAll(env: Envelopes, disk: Disk, vault: Vault, keyFiles: seq<KeyFile>, reference: Option<Path>)
    returns (r: Result<(), Error>)
    requires disk.Valid() && vault.password.Some?
    modifies disk`operations
    ensures r.Ok? ==> ChecksPass(env, disk.files, keyFiles, vault.password.value, reference)
    ensures disk.Reliable() && ChecksPass(env, disk.files, keyFiles, vault.password.value, reference) ==> r.Ok?
  {
    if reference.Some? {
      r := vault.CheckOpens(env, disk, reference.value);
      if r.Err? {
        return;
      }
    }
    for i := 0 to |keyFiles|
      invariant OnePassword(env, disk.files, keyFiles[..i], vault.password.value)
    {
      if IsSealed(disk.files, keyFiles[i]) {
        r := vault.CheckOpens(env, disk, keyFiles[i].Sealed());
        if r.Err? {
          return;
        }
      }
      assert keyFiles[..i + 1] == keyFiles[..i] + [keyFiles[i]];
    }
    assert keyFiles[..|keyFiles|] == keyFiles;
    r := Ok(());
  }

  /**
   Run the command on the key files that were found, in any order. Nothing is written before every
   check has passed. After that, in every state the disk goes through, whatever fails and wherever it
   stops, no key is lost and the tree is under one password.
   */
  method Seal(env: Envelopes, disk: Disk, keyFiles: seq<KeyFile>, password: string, reference: Option<Path>,
              drawn: nat -> nat)
    returns (outcome: Outcome)
    requires disk.Valid() && WellNamed(keyFiles)
    modifies disk
    ensures disk.Valid() && old(disk.history) <= disk.history
    ensures outcome.NothingToDo? || outcome.CheckFailed? ==> disk.history == old(disk.history)
    ensures Safe(env, disk.history, |old(disk.history)|, old(disk.files), keyFiles, password)
    ensures outcome.Stopped? || outcome.Done? ==> ChecksPass(env, old(disk.files), keyFiles, password, reference)
    ensures outcome.Done? || outcome.NothingToDo? ==> AllSealed(disk.files, keyFiles)
    ensures outcome.NothingToDo? <==> AllSealed(old(disk.files), keyFiles)
    ensures disk.Reliable() && !AllSealed(old(disk.files), keyFiles) ==>
      (outcome.CheckFailed? <==> !ChecksPass(env, old(disk.files), keyFiles, password, reference))
    ensures Distinct(keyFiles) ==> Counts(outcome, Unsealed(old(disk.files), keyFiles), disk.files)
    ensures disk.Reliable() && AllSealFine(env, old(disk.files), keyFiles, password, drawn)
            && ChecksPass(env, old(disk.files), keyFiles, password, reference)
      ==> outcome.Done? || outcome.NothingToDo?
  {
    var unsealed := Unsealed(disk.files, keyFiles);
    if unsealed == [] {
      forall f | f in keyFiles ensures IsSealed(disk.files, f) {
        UnsealedAre(disk.files, keyFiles, f);
      }
      return NothingToDo;
    }
    UnsealedAre(disk.files, keyFiles, unsealed[0]);
    if Distinct(keyFiles) {
      UnsealedAreDistinct(disk.files, keyFiles);
    }
    var vault := new Vault(Some(password));
    var checked := CheckAll(env, disk, vault, keyFiles, reference);
    if checked.Err? {
      return CheckFailed(checked.error);
    }
    outcome := SealEach(env, disk, vault, keyFiles, unsealed, drawn);
  }

  /** The number it reports: of the files that were not sealed, that many were sealed, and all of them if it is done. */
  ghost predicate Counts(outcome: Outcome, unsealed: seq<KeyFile>, files: Files) {
    match outcome
    case NothingToDo => true
    case CheckFailed(_) => true
    case Stopped(_, sealed) => sealed < |unsealed| && AllSealed(files, unsealed[..sealed])
    case Done(sealed) => sealed == |unsealed|
  }

  function Unsealed(files: Files, keyFiles: seq<KeyFile>): seq<KeyFile> {
    if keyFiles == [] then []
    else (if IsSealed(files, keyFiles[0]) then [] else [keyFiles[0]]) + Unsealed(files, keyFiles[1..])
  }

  lemma {:induction false} UnsealedAre(files: Files, keyFiles: seq<KeyFile>, f: KeyFile)
    ensures f in Unsealed(files, keyFiles) <==> f in keyFiles && !IsSealed(files, f)
  {
    if keyFiles != [] {
      UnsealedAre(files, keyFiles[1..], f);
      assert keyFiles == [keyFiles[0]] + keyFiles[1..];
    }
  }

  lemma {:induction false} UnsealedAreDistinct(files: Files, keyFiles: seq<KeyFile>)
    requires Distinct(keyFiles)
    ensures Distinct(Unsealed(files, keyFiles))
  {
    if keyFiles != [] {
      var rest := keyFiles[1..];
      assert forall i :: 0 <= i < |rest| ==> rest[i] == keyFiles[i + 1];
      UnsealedAreDistinct(files, rest);
      UnsealedAre(files, rest, keyFiles[0]);
      assert keyFiles[0] !in rest;
    }
  }

  /** The tree is safe in every state since `from`, and now. */
  ghost predicate TreeSafe(env: Envelopes, disk: Disk, from: nat, start: Files, keyFiles: seq<KeyFile>,
                           password: string)
    reads disk
  {
    && disk.Valid()
    && Safe(env, disk.history, from, start, keyFiles, password)
    && AllKept(env, start, disk.files, keyFiles, password) && OnePassword(env, disk.files, keyFiles, password)
  }

  ghost predicate AllSealed(files: Files, keyFiles: seq<KeyFile>) {
    forall f :: f in keyFiles ==> IsSealed(files, f)
  }

  lemma SafeExtends(env: Envelopes, earlier: seq<Files>, history: seq<Files>, from: nat, start: Files,
                    keyFiles: seq<KeyFile>, password: string)
    requires earlier <= history
    requires Safe(env, earlier, from, start, keyFiles, password)
    requires Safe(env, history, |earlier|, start, keyFiles, password)
    ensures Safe(env, history, from, start, keyFiles, password)
  {
    forall i | from <= i < |history|
      ensures AllKept(env, start, history[i], keyFiles, password) && OnePassword(env, history[i], keyFiles, password)
    {
      if i < |earlier| {
        assert history[i] == earlier[i];
      }
    }
  }

  /** Sealing one key file does not seal or unseal another. */
  lemma OthersStay(history: seq<Files>, from: nat, before: Files, files: Files, f: KeyFile, rest: seq<KeyFile>)
    requires WellNamed(rest) && ProperlyNamed(f) && OnlyTouches(history, from, before, f)
    requires if |history| > from then history[|history| - 1] == files else files == before
    ensures forall g :: g in rest && g != f ==> (IsSealed(files, g) <==> IsSealed(before, g))
  {
    forall g | g in rest && g != f ensures IsSealed(files, g) <==> IsSealed(before, g) {
      if |history| > from {
        OthersAreUntouched(history, from, before, f, g, |history| - 1);
      }
    }
  }

  /** Seal one of the key files; the ones in `done` stay sealed. */
  method SealOne(env: Envelopes, disk: Disk, vault: Vault, f: KeyFile, i: nat, ghost keyFiles: seq<KeyFile>,
                 ghost from: nat, ghost start: Files, ghost done: seq<KeyFile>, ghost rest: seq<KeyFile>,
                 draws: nat -> nat)
    returns (r: Result<bool, Error>)
    requires vault.password.Some? && WellNamed(keyFiles) && WellNamed(done) && f in keyFiles
    requires TreeSafe(env, disk, from, start, keyFiles, vault.password.value)
    requires AllSealed(disk.files, done) && WellNamed(rest)
    modifies disk
    ensures TreeSafe(env, disk, from, start, keyFiles, vault.password.value)
    ensures old(disk.history) <= disk.history
    ensures r.Ok? ==> AllSealed(disk.files, done + [f]) && (r.value <==> !IsSealed(old(disk.files), f))
    ensures forall g :: g in rest && g != f ==> (IsSealed(disk.files, g) <==> IsSealed(old(disk.files), g))
    ensures r.Ok? && AllSealFine(env, old(disk.files), rest, vault.password.value, draws) ==>
      AllSealFine(env, disk.files, rest, vault.password.value, draws)
    ensures disk.Reliable() && SealsFine(env, old(disk.files), f, vault.password.value, draws) ==> r.Ok?
  {
    ghost var before, earlier := disk.files, disk.history;
    r := vault.Seal(env, disk, f, draws(i));
    SealKeepsTreeSafe(env, disk.history, |earlier|, start, before, keyFiles, f, vault.password.value);
    SafeExtends(env, earlier, disk.history, from, start, keyFiles, vault.password.value);
    OthersStay(disk.history, |earlier|, before, disk.files, f, rest);
    if r.Ok? {
      MoreAreSealed(disk.history, |earlier|, before, disk.files, done, f);
      if AllSealFine(env, before, rest, vault.password.value, draws) {
        RestSealsFine(env, disk.history, |earlier|, before, disk.files, f, rest, vault.password.value, draws);
      }
    }
  }

  /** Every key file is sealed already or still to be sealed. */
  ghost predicate Covers(done: seq<KeyFile>, rest: seq<KeyFile>, keyFiles: seq<KeyFile>) {
    forall f :: f in keyFiles ==> f in done || f in rest
  }

  lemma CoversNext(done: seq<KeyFile>, unsealed: seq<KeyFile>, i: nat, keyFiles: seq<KeyFile>)
    requires i < |unsealed| && Covers(done, unsealed[i..], keyFiles)
    ensures Covers(done + [unsealed[i]], unsealed[i + 1..], keyFiles)
  {
    assert unsealed[i..] == [unsealed[i]] + unsealed[i + 1..];
  }

  lemma AllCovered(files: Files, done: seq<KeyFile>, rest: seq<KeyFile>, keyFiles: seq<KeyFile>)
    requires Covers(done, rest, keyFiles) && rest == [] && AllSealed(files, done)
    ensures AllSealed(files, keyFiles)
  {
  }

  /** The first `i` of them are sealed, and the others are not. */
  ghost predicate Progress(unsealed: seq<KeyFile>, files: Files, i: nat)
    requires i <= |unsealed|
  {
    && AllSealed(files, unsealed[..i])
    && forall j :: i <= j < |unsealed| ==> !IsSealed(files, unsealed[j])
  }

  ghost predicate OthersSame(unsealed: seq<KeyFile>, before: Files, files: Files, f: KeyFile) {
    forall j :: 0 <= j < |unsealed| && unsealed[j] != f ==>
      (IsSealed(files, unsealed[j]) <==> IsSealed(before, unsealed[j]))
  }

  lemma NoneSealedYet(files: Files, keyFiles: seq<KeyFile>)
    ensures Progress(Unsealed(files, keyFiles), files, 0)
  {
    var unsealed := Unsealed(files, keyFiles);
    forall j | 0 <= j < |unsealed| ensures !IsSealed(files, unsealed[j]) {
      UnsealedAre(files, keyFiles, unsealed[j]);
    }
  }

  lemma UnsealedStay(start: Files, keyFiles: seq<KeyFile>, unsealed: seq<KeyFile>, before: Files, files: Files,
                     f: KeyFile)
    requires unsealed == Unsealed(start, keyFiles)
    requires forall g :: g in keyFiles && g != f ==> (IsSealed(files, g) <==> IsSealed(before, g))
    ensures OthersSame(unsealed, before, files, f)
  {
    forall j | 0 <= j < |unsealed| ensures unsealed[j] in keyFiles {
      UnsealedAre(start, keyFiles, unsealed[j]);
    }
  }

  lemma ProgressStays(unsealed: seq<KeyFile>, before: Files, files: Files, i: nat)
    requires Distinct(unsealed) && i < |unsealed| && Progress(unsealed, before, i)
    requires OthersSame(unsealed, before, files, unsealed[i])
    ensures AllSealed(files, unsealed[..i])
  {
    forall f | f in unsealed[..i] ensures IsSealed(files, f) {
      var j :| 0 <= j < i && unsealed[j] == f;
      assert unsealed[j] != unsealed[i];
    }
  }

  lemma ProgressNext(unsealed: seq<KeyFile>, before: Files, files: Files, i: nat)
    requires Distinct(unsealed) && i < |unsealed| && Progress(unsealed, before, i)
    requires OthersSame(unsealed, before, files, unsealed[i]) && IsSealed(files, unsealed[i])
    ensures Progress(unsealed, files, i + 1)
  {
    ProgressStays(unsealed, before, files, i);
    assert unsealed[..i + 1] == unsealed[..i] + [unsealed[i]];
  }

  method SealEach(env: Envelopes, disk: Disk, vault: Vault, keyFiles: seq<KeyFile>, unsealed: seq<KeyFile>,
                  drawn: nat -> nat)
    returns (outcome: Outcome)
    requires disk.Valid() && WellNamed(keyFiles) && vault.password.Some?
    requires unsealed == Unsealed(disk.files, keyFiles)
    requires OnePassword(env, disk.files, keyFiles, vault.password.value)
    modifies disk
    ensures disk.Valid() && old(disk.history) <= disk.history
    ensures Safe(env, disk.history, |old(disk.history)|, old(disk.files), keyFiles, vault.password.value)
    ensures outcome.Stopped? || outcome.Done?
    ensures outcome.Done? ==> AllSealed(disk.files, keyFiles)
    ensures disk.Reliable() && AllSealFine(env, old(disk.files), keyFiles, vault.password.value, drawn) ==>
      outcome.Done?
    ensures Distinct(unsealed) ==> Counts(outcome, unsealed, disk.files)
  {
    ghost var start, from := disk.files, |disk.history|;
    var sealed := 0;
    NoneSealedYet(start, keyFiles);
    ghost var done := AlreadySealed(start, keyFiles);
    for i := 0 to |unsealed|
      invariant old(disk.history) <= disk.history
      invariant TreeSafe(env, disk, from, start, keyFiles, vault.password.value)
      invariant WellNamed(done) && AllSealed(disk.files, done)
      invariant Covers(done, unsealed[i..], keyFiles)
      invariant AllSealFine(env, start, keyFiles, vault.password.value, drawn) ==>
        AllSealFine(env, disk.files, keyFiles, vault.password.value, drawn)
      invariant Distinct(unsealed) ==> sealed == i && Progress(unsealed, disk.files, i)
    {
      ghost var before := disk.files;
      UnsealedAre(start, keyFiles, unsealed[i]);
      var r := SealOne(env, disk, vault, unsealed[i], i, keyFiles, from, start, done, keyFiles, drawn);
      if Distinct(unsealed) {
        UnsealedStay(start, keyFiles, unsealed, before, disk.files, unsealed[i]);
        ProgressStays(unsealed, before, disk.files, i);
      }
      if r.Err? {
        return Stopped(r.error, sealed);
      }
      CoversNext(done, unsealed, i, keyFiles);
      if Distinct(unsealed) {
        ProgressNext(unsealed, before, disk.files, i);
      }
      done := done + [unsealed[i]];
      if r.value {
        sealed := sealed + 1;
      }
    }
    AllCovered(disk.files, done, unsealed[|unsealed|..], keyFiles);
    outcome := Done(sealed);
  }

  ghost function AlreadySealed(files: Files, keyFiles: seq<KeyFile>): (done: seq<KeyFile>)
    ensures forall f :: f in done <==> f in keyFiles && IsSealed(files, f)
    ensures forall f :: f in keyFiles ==> f in done || f in Unsealed(files, keyFiles)
  {
    if keyFiles == [] then []
    else (if IsSealed(files, keyFiles[0]) then [keyFiles[0]] else []) + AlreadySealed(files, keyFiles[1..])
  }
}
