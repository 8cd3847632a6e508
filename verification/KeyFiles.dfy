/** Key files and their two names: the plaintext path, and the same path with the sealed suffix. */
module KeyFiles {
  import opened Wrappers
  import opened Bits

  type Path = string
  type Contents = seq<Byte>

  const SEALED_SUFFIX := ".enc"
  const KEY_FILE_EXTENSIONS := {"json", "key"}

  predicate EndsWith(s: string, suffix: string) {
    |s| >= |suffix| && s[|s| - |suffix|..] == suffix
  }

  function StripSealed(s: string): string {
    if EndsWith(s, SEALED_SUFFIX) then s[..|s| - |SEALED_SUFFIX|] else s
  }

  /** A key file; its identity is the plaintext path. */
  datatype KeyFile = KeyFile(plain: Path)
  {
    function Sealed(): Path { plain + SEALED_SUFFIX }
  }

  /** The key file at a path given in either form. */
  function At(path: Path): KeyFile { KeyFile(StripSealed(path)) }

  function LastDot(name: string): Option<nat> {
    if name == "" then None
    else if name[|name| - 1] == '.' then Some(|name| - 1)
    else LastDot(name[..|name| - 1])
  }

  /** What follows the last dot, unless the name has none or only starts with it. */
  function Extension(name: string): (e: Option<string>)
    ensures e.Some? ==> EndsWith(name, e.value)
  {
    match LastDot(name)
    case None => None
    case Some(i) => if i == 0 || i >= |name| then None else Some(name[i + 1..])
  }

  /** The name, without the sealed suffix if it has it, has one of the extensions. */
  predicate IsKeyFileName(name: string) {
    var e := Extension(StripSealed(name));
    e.Some? && e.value in KEY_FILE_EXTENSIONS
  }

  /** One entry of a directory; listing a directory that is not readable fails. */
  datatype DirEntry = File(name: string) | Dir(name: string, readable: bool, entries: seq<DirEntry>)

  function Below(dir: Path, name: string): Path { dir + "/" + name }

  /** What a listing finds, one level deep or any number; nothing if a directory to be listed is not readable. */
  function Found(dir: Path, entries: seq<DirEntry>, recursive: bool): Option<set<KeyFile>>
    decreases entries
  {
    if entries == [] then Some({}) else
      var before := Found(dir, entries[..|entries| - 1], recursive);
      var last := FoundAt(dir, entries[|entries| - 1], recursive);
      if before.None? || last.None? then None else Some(before.value + last.value)
  }

  function FoundAt(dir: Path, entry: DirEntry, recursive: bool): Option<set<KeyFile>>
    decreases entry
  {
    match entry
    case File(name) => Some(if IsKeyFileName(name) then {At(Below(dir, name))} else {})
    case Dir(name, readable, entries) =>
      if !recursive then Some({}) else if !readable then None else Found(Below(dir, name), entries, recursive)
  }

  /** What is found from the root on; a set, so both forms of one key file are one element. */
  method Discover(root: DirEntry, recursive: bool) returns (found: Option<set<KeyFile>>)
    requires root.Dir?
    ensures found == if root.readable then Found(root.name, root.entries, recursive) else None
  {
    found := Collect(root.name, root.readable, root.entries, recursive, {});
    assert forall added: set<KeyFile> :: {} + added == added;
  }

  /** Add the key files of a directory to the ones found so far. */
  method Collect(dir: Path, readable: bool, entries: seq<DirEntry>, recursive: bool, found: set<KeyFile>)
    returns (found': Option<set<KeyFile>>)
    ensures var added := Found(dir, entries, recursive);
            found' == if !readable || added.None? then None else Some(found + added.value)
    decreases entries
  {
    if !readable {
      return None;
    }
    var collected := found;
    for i := 0 to |entries|
      invariant Found(dir, entries[..i], recursive).Some?
      invariant collected == found + Found(dir, entries[..i], recursive).value
    {
      var here := CollectEntry(dir, entries[i], recursive, collected);
      FoundNext(dir, entries, recursive, i);
      if here.None? {
        UnreadableStays(dir, entries, recursive, i + 1);
        return None;
      }
      collected := here.value;
    }
    assert entries[..|entries|] == entries;
    found' := Some(collected);
  }

  /** A directory is entered, and a key file added; other entries are passed over. */
  method CollectEntry(dir: Path, entry: DirEntry, recursive: bool, found: set<KeyFile>)
    returns (found': Option<set<KeyFile>>)
    ensures var added := FoundAt(dir, entry, recursive);
            found' == if added.None? then None else Some(found + added.value)
    decreases entry
  {
    assert found + {} == found;
    found' := Some(found);
    match entry {
      case Dir(name, readable, entries) =>
        if recursive {
          found' := Collect(Below(dir, name), readable, entries, recursive, found);
        }
      case File(name) =>
        if IsKeyFileName(name) {
          found' := Some(found + {At(Below(dir, name))});
        }
    }
  }

  lemma FoundNext(dir: Path, entries: seq<DirEntry>, recursive: bool, i: nat)
    requires i < |entries|
    ensures var before := Found(dir, entries[..i], recursive);
            var here := FoundAt(dir, entries[i], recursive);
            Found(dir, entries[..i + 1], recursive)
            == if before.None? || here.None? then None else Some(before.value + here.value)
  {
    assert entries[..i + 1][..i] == entries[..i];
  }

  lemma {:induction false} UnreadableStays(dir: Path, entries: seq<DirEntry>, recursive: bool, n: nat)
    requires n <= |entries| && Found(dir, entries[..n], recursive).None?
    ensures Found(dir, entries, recursive).None?
    decreases |entries|
  {
    if n < |entries| {
      assert entries[..|entries| - 1][..n] == entries[..n];
      UnreadableStays(dir, entries[..|entries| - 1], recursive, n);
    } else {
      assert entries[..n] == entries;
    }
  }

  /** A key file is named by a file of a directory, or when `recursive` of one beneath it at any depth. */
  ghost predicate Names(dir: Path, entries: seq<DirEntry>, recursive: bool, f: KeyFile)
    decreases entries
  {
    exists i :: 0 <= i < |entries| && NamedBy(dir, entries[i], recursive, f)
  }

  ghost predicate NamedBy(dir: Path, entry: DirEntry, recursive: bool, f: KeyFile)
    decreases entry
  {
    match entry
    case File(name) => IsKeyFileName(name) && f == At(Below(dir, name))
    case Dir(name, _, entries) => recursive && Names(Below(dir, name), entries, recursive, f)
  }

  /** Every directory to be listed, at any depth, is readable. */
  ghost predicate Readable(entries: seq<DirEntry>) {
    forall i :: 0 <= i < |entries| ==> ReadableAt(entries[i])
  }

  ghost predicate ReadableAt(entry: DirEntry) {
    match entry
    case File(_) => true
    case Dir(_, readable, entries) => readable && Readable(entries)
  }

  /** Discovery succeeds if and only if what it has to list is readable, and finds exactly the named key files. */
  lemma {:induction false} FoundIsNamed(dir: Path, entries: seq<DirEntry>, recursive: bool)
    ensures Found(dir, entries, recursive).Some? <==> recursive ==> Readable(entries)
    ensures Found(dir, entries, recursive).Some? ==>
      forall f :: f in Found(dir, entries, recursive).value <==> Names(dir, entries, recursive, f)
    decreases entries
  {
    if entries != [] {
      var before, last := entries[..|entries| - 1], entries[|entries| - 1];
      FoundIsNamed(dir, before, recursive);
      NamedByLast(dir, entries, recursive);
      if last.Dir? {
        FoundIsNamed(Below(dir, last.name), last.entries, recursive);
      }
    }
  }

  lemma NamedByLast(dir: Path, entries: seq<DirEntry>, recursive: bool)
    requires entries != []
    ensures var before, last := entries[..|entries| - 1], entries[|entries| - 1];
            && (forall f :: Names(dir, entries, recursive, f)
                  <==> Names(dir, before, recursive, f) || NamedBy(dir, last, recursive, f))
            && (Readable(entries) <==> Readable(before) && ReadableAt(last))
  {
    var before := entries[..|entries| - 1];
    assert forall i :: 0 <= i < |before| ==> before[i] == entries[i];
  }

  /** No key file's plaintext name looks like a sealed one. */
  predicate ProperlyNamed(file: KeyFile) { !EndsWith(file.plain, SEALED_SUFFIX) }

  lemma SuffixIsInName(dir: Path, name: string, suffix: string)
    requires '/' !in suffix
    ensures EndsWith(dir + "/" + name, suffix) <==> EndsWith(name, suffix)
  {
    var path := dir + "/" + name;
    assert path[|dir|] == '/' && path[|dir| + 1..] == name;
    if |name| >= |suffix| {
      assert path[|path| - |suffix|..] == name[|name| - |suffix|..];
    } else if |path| >= |suffix| {
      var tail := path[|path| - |suffix|..];
      assert tail[|dir| - (|path| - |suffix|)] == '/';
    }
  }

  lemma LastOfSuffix(s: string, suffix: string)
    requires EndsWith(s, suffix) && suffix != ""
    ensures s[|s| - 1] == suffix[|suffix| - 1]
  {
  }

  /** Stripping the suffix from a path is stripping it from the file name. */
  lemma StripOfPath(dir: Path, name: string)
    ensures StripSealed(dir + "/" + name) == dir + "/" + StripSealed(name)
  {
    SuffixIsInName(dir, name, SEALED_SUFFIX);
  }

  lemma KeyFileNameIsProper(name: string)
    requires IsKeyFileName(name)
    ensures !EndsWith(StripSealed(name), SEALED_SUFFIX)
  {
    var stripped := StripSealed(name);
    var ext := Extension(stripped).value;
    LastOfSuffix(stripped, ext);
    if EndsWith(stripped, SEALED_SUFFIX) {
      LastOfSuffix(stripped, SEALED_SUFFIX);
    }
  }

  /** A name with something before its last dot has what follows that dot as its extension. */
  lemma ExtensionAfter(stem: string, ext: string)
    requires stem != "" && '.' !in ext
    ensures Extension(stem + "." + ext) == Some(ext)
  {
    LastDotAfter(stem, ext);
    assert (stem + "." + ext)[|stem| + 1..] == ext;
  }

  lemma {:induction false} LastDotAfter(stem: string, ext: string)
    requires '.' !in ext
    ensures LastDot(stem + "." + ext) == Some(|stem|)
    decreases |ext|
  {
    var s := stem + "." + ext;
    if ext != "" {
      var shorter := ext[..|ext| - 1];
      assert s[..|s| - 1] == stem + "." + shorter;
      assert s[|s| - 1] == ext[|ext| - 1];
      LastDotAfter(stem, shorter);
    }
  }

  lemma {:induction false} LastDotIs(name: string)
    ensures match LastDot(name)
            case None => true
            case Some(i) => i < |name| && name[i] == '.'
  {
    if name != "" && name[|name| - 1] != '.' {
      LastDotIs(name[..|name| - 1]);
    }
  }

  /** `stem.json` or `stem.key`, for a stem that is not empty, with `.enc` after it or not. */
  ghost predicate IsNamed(stem: string, ext: string, name: string) {
    && stem != "" && (ext == "json" || ext == "key")
    && (name == stem + "." + ext || name == stem + "." + ext + ".enc")
  }

  /** Those are the names of key files, and no others. */
  lemma KeyFileNames(name: string)
    ensures IsKeyFileName(name) <==> exists stem, ext :: IsNamed(stem, ext, name)
  {
    if IsKeyFileName(name) {
      var stem := StemOf(name);
    }
    if stem, ext :| IsNamed(stem, ext, name) {
      NamedByStem(stem, ext, name);
    }
  }

  lemma StemOf(name: string) returns (stem: string)
    requires IsKeyFileName(name)
    ensures IsNamed(stem, Extension(StripSealed(name)).value, name)
  {
    var plain := StripSealed(name);
    var i := LastDot(plain).value;
    LastDotIs(plain);
    stem := plain[..i];
    assert plain == stem + "." + plain[i + 1..];
    assert name == plain || name == plain + ".enc";
  }

  lemma NamedByStem(stem: string, ext: string, name: string)
    requires IsNamed(stem, ext, name)
    ensures IsKeyFileName(name)
  {
    ExtensionAfter(stem, ext);
    var plain := stem + "." + ext;
    LastOfSuffix(plain, ext);
    if EndsWith(plain, SEALED_SUFFIX) {
      LastOfSuffix(plain, SEALED_SUFFIX);
    }
    if name != plain {
      assert name[..|plain|] == plain && name[|plain|..] == ".enc";
    }
  }

  /** Either name of a key file names it, and the sealed one is the plaintext one with `.enc` after it. */
  lemma EitherNameIsIt(f: KeyFile)
    requires ProperlyNamed(f)
    ensures f.Sealed() == f.plain + ".enc" && At(f.plain) == f && At(f.Sealed()) == f
  {
    assert f.Sealed()[..|f.plain|] == f.plain && f.Sealed()[|f.plain|..] == ".enc";
  }

  lemma KeyFileIsProper(dir: Path, name: string)
    requires IsKeyFileName(name)
    ensures ProperlyNamed(At(Below(dir, name)))
  {
    StripOfPath(dir, name);
    KeyFileNameIsProper(name);
    SuffixIsInName(dir, StripSealed(name), SEALED_SUFFIX);
  }

  /** No discovered key file, at any depth, has a plaintext name that looks like a sealed one. */
  lemma {:induction false} FoundAreProperlyNamed(dir: Path, entries: seq<DirEntry>, recursive: bool)
    requires Found(dir, entries, recursive).Some?
    ensures forall f :: f in Found(dir, entries, recursive).value ==> ProperlyNamed(f)
    decreases entries
  {
    if entries != [] {
      FoundAreProperlyNamed(dir, entries[..|entries| - 1], recursive);
      match entries[|entries| - 1]
      case File(name) => if IsKeyFileName(name) { KeyFileIsProper(dir, name); }
      case Dir(name, _, deeper) => if recursive { FoundAreProperlyNamed(Below(dir, name), deeper, recursive); }
    }
  }

  /** The names of two key files never collide. */
  lemma NamesAreApart(f: KeyFile, g: KeyFile)
    requires f != g && ProperlyNamed(f) && ProperlyNamed(g)
    ensures f.plain != g.plain && f.plain != g.Sealed() && f.Sealed() != g.plain && f.Sealed() != g.Sealed()
  {
    assert EndsWith(f.Sealed(), SEALED_SUFFIX) && EndsWith(g.Sealed(), SEALED_SUFFIX);
    assert f.Sealed()[..|f.plain|] == f.plain && g.Sealed()[..|g.plain|] == g.plain;
  }
}
