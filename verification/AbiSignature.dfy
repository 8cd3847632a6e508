/** ARC-4 method signatures: splitting the argument types, and framing the dynamic arguments. */
module AbiSignature {
  import opened Wrappers
  import opened Bits
  import opened Text

  // ----- the splitter

  function FindOpen(s: string): (i: Option<nat>)
    ensures i.Some? ==> i.value < |s| && s[i.value] == '(' && '(' !in s[..i.value]
    ensures i.None? ==> '(' !in s
  {
    if s == "" then None
    else if s[0] == '(' then Some(0)
    else match FindOpen(s[1..])
         case None => None
         case Some(i) => Some(i + 1)
  }

  /** How far it is to the parenthesis that closes the outermost one open. */
  function CloseAt(s: string, depth: int): (i: Option<nat>)
    ensures i.Some? ==> i.value < |s|
  {
    if s == "" then None
    else if s[0] == ')' && depth == 1 then Some(0)
    else match CloseAt(s[1..], if s[0] == '(' then depth + 1 else if s[0] == ')' then depth - 1 else depth)
         case None => None
         case Some(i) => Some(i + 1)
  }

  function Nested(c: char, d: int): int {
    if c == '(' || c == '[' then d + 1 else if c == ')' || c == ']' then d - 1 else d
  }

  /** The comma-separated parts at depth zero, when `part` has been read of the first one. */
  function Parts(part: string, rest: string, d: int): seq<string>
    decreases |rest|
  {
    if rest == "" then [Trim(part)]
    else if rest[0] == ',' && d == 0 then [Trim(part)] + Parts("", rest[1..], 0)
    else Parts(part + [rest[0]], rest[1..], Nested(rest[0], d))
  }

  function ArgTypes(sig: string): Option<seq<string>> {
    match FindOpen(sig)
    case None => None
    case Some(open) =>
      match CloseAt(sig[open + 1..], 1)
      case None => None
      case Some(close) =>
        var inner := sig[open + 1..open + 1 + close];
        if Trim(inner) == "" then Some([]) else Some(Parts("", inner, 0))
  }

  function Later(n: nat, i: Option<nat>): Option<nat> {
    match i case None => None case Some(k) => Some(n + k)
  }

  // ----- what the two scans find, in any text

  /** How many parentheses are open after some text. */
  function Depth(s: string, depth: int): int {
    if s == "" then depth
    else Depth(s[1..], if s[0] == '(' then depth + 1 else if s[0] == ')' then depth - 1 else depth)
  }

  predicate ClosesAt(s: string, depth: int, i: nat)
    requires i < |s|
  {
    s[i] == ')' && Depth(s[..i], depth) == 1
  }

  lemma DepthOfRest(s: string, depth: int, i: nat)
    requires 0 < i < |s|
    ensures var next := if s[0] == '(' then depth + 1 else if s[0] == ')' then depth - 1 else depth;
            ClosesAt(s, depth, i) <==> ClosesAt(s[1..], next, i - 1)
  {
    assert s[..i][1..] == s[1..][..i - 1];
  }

  /** The first scan stops at the first parenthesis that closes the outermost one open, if there is one. */
  lemma {:induction false} CloseAtIs(s: string, depth: int)
    ensures match CloseAt(s, depth)
            case None => forall i: nat :: i < |s| ==> !ClosesAt(s, depth, i)
            case Some(c) => ClosesAt(s, depth, c) && forall i: nat :: i < c ==> !ClosesAt(s, depth, i)
  {
    if s != "" {
      var next := if s[0] == '(' then depth + 1 else if s[0] == ')' then depth - 1 else depth;
      assert Depth(s[..0], depth) == depth;
      CloseAtIs(s[1..], next);
      forall i: nat | 0 < i < |s| ensures ClosesAt(s, depth, i) <==> ClosesAt(s[1..], next, i - 1) {
        DepthOfRest(s, depth, i);
      }
    }
  }

  /** The nesting level after some text, brackets included. */
  function Level(s: string, d: int): int {
    if s == "" then d else Level(s[1..], Nested(s[0], d))
  }

  /** A comma at level zero. */
  predicate CutsAt(s: string, d: int, k: nat)
    requires k < |s|
  {
    s[k] == ',' && Level(s[..k], d) == 0
  }

  lemma LevelOfRest(s: string, d: int, k: nat)
    requires 0 < k < |s|
    ensures CutsAt(s, d, k) <==> CutsAt(s[1..], Nested(s[0], d), k - 1)
  {
    assert s[..k][1..] == s[1..][..k - 1];
  }

  /** The second scan reads on over text without a comma at level zero. */
  lemma {:induction false} ReadsOn(part: string, x: string, rest: string, d: int)
    requires forall k: nat :: k < |x| ==> !CutsAt(x, d, k)
    ensures Parts(part, x + rest, d) == Parts(part + x, rest, Level(x, d))
    decreases |x|
  {
    if x == "" {
      assert x + rest == rest && part + x == part;
    } else {
      assert !CutsAt(x, d, 0) && Level(x[..0], d) == d;
      forall k: nat | k < |x| - 1 ensures !CutsAt(x[1..], Nested(x[0], d), k) {
        LevelOfRest(x, d, k + 1);
      }
      ReadsOn(part + [x[0]], x[1..], rest, Nested(x[0], d));
      assert (x + rest)[1..] == x[1..] + rest && part + [x[0]] + x[1..] == part + x;
    }
  }

  /** Text without a comma at level zero is one part, and each such comma ends a part; parts are trimmed. */
  lemma PartsAre(x: string, rest: string)
    requires forall k: nat :: k < |x| ==> !CutsAt(x, 0, k)
    ensures Parts("", x, 0) == [Trim(x)]
    ensures Level(x, 0) == 0 ==> Parts("", x + "," + rest, 0) == [Trim(x)] + Parts("", rest, 0)
  {
    ReadsOn("", x, "", 0);
    ReadsOn("", x, "," + rest, 0);
    assert x + "" == x && "" + x == x && x + "," + rest == x + ("," + rest) && ("," + rest)[1..] == rest;
  }

  /**
   Which text has an argument list: some parenthesis is open, and one after it closes it. The list is the
   text between the two, and it is empty if that is blank.
   */
  lemma ArgTypesAre(name: string, rest: string)
    requires '(' !in name
    ensures ArgTypes(name) == None
    ensures match ArgTypes(name + "(" + rest)
            case None => forall i: nat :: i < |rest| ==> !ClosesAt(rest, 1, i)
            case Some(types) =>
              exists c: nat :: c < |rest| && ClosesAt(rest, 1, c) && (forall i: nat :: i < c ==> !ClosesAt(rest, 1, i))
                && types == if AllSpace(rest[..c]) then [] else Parts("", rest[..c], 0)
  {
    var sig := name + "(" + rest;
    NoOpen(name);
    FindOpenAfter(name, rest);
    CloseAtIs(rest, 1);
    assert sig[|name| + 1..] == rest;
    if CloseAt(rest, 1).Some? {
      var c := CloseAt(rest, 1).value;
      assert sig[|name| + 1..|name| + 1 + c] == rest[..c];
      TrimOfSpace(rest[..c]);
    }
  }

  lemma {:induction false} NoOpen(name: string)
    requires '(' !in name
    ensures FindOpen(name).None?
  {
  }

  method AbiArgTypes(sig: string) returns (r: Option<seq<string>>)
    ensures r == ArgTypes(sig)
  {
    var open := FindOpen(sig);
    if open.None? {
      return None;
    }
    var close := FindClose(sig, open.value);
    if close.None? {
      return None;
    }
    var inner := sig[open.value + 1..close.value];
    if Trim(inner) == "" {
      return Some([]);
    }
    var parts := SplitTopLevel(inner);
    r := Some(parts);
  }

  /** The scan for the parenthesis that closes the argument list. */
  method FindClose(sig: string, open: nat) returns (close: Option<nat>)
    requires open < |sig| && sig[open] == '('
    ensures close == Later(open + 1, CloseAt(sig[open + 1..], 1))
  {
    var depth := 0;
    var i := open;
    while i < |sig|
      invariant open <= i <= |sig|
      invariant i == open ==> depth == 0
      invariant i > open ==>
        depth >= 1 && CloseAt(sig[open + 1..], 1) == Later(i - (open + 1), CloseAt(sig[i..], depth))
    {
      assert sig[i..][0] == sig[i] && sig[i..][1..] == sig[i + 1..];
      if sig[i] == '(' {
        depth := depth + 1;
      } else if sig[i] == ')' {
        depth := depth - 1;
        if depth == 0 {
          return Some(i);
        }
      }
      i := i + 1;
    }
    close := None;
  }

  method SplitTopLevel(inner: string) returns (out: seq<string>)
    ensures out == Parts("", inner, 0)
  {
    out := [];
    var d, seg := 0, 0;
    for i := 0 to |inner|
      invariant 0 <= seg <= i
      invariant Parts("", inner, 0) == out + Parts(inner[seg..i], inner[i..], d)
    {
      assert inner[i..][0] == inner[i] && inner[i..][1..] == inner[i + 1..];
      assert inner[seg..i] + [inner[i]] == inner[seg..i + 1];
      if inner[i] == '(' || inner[i] == '[' {
        d := d + 1;
      } else if inner[i] == ')' || inner[i] == ']' {
        d := d - 1;
      } else if inner[i] == ',' && d == 0 {
        out := out + [Trim(inner[seg..i])];
        seg := i + 1;
        assert inner[seg..i + 1] == "";
      }
    }
    assert inner[|inner|..] == "";
    out := out + [Trim(inner[seg..])];
    assert inner[seg..|inner|] == inner[seg..];
  }

  // ----- types and how they are printed

  /** A named type, a tuple, or an array of a given length (none for a dynamic one). */
  datatype AbiType = Atom(name: string) | Tuple(items: seq<AbiType>) | Array(element: AbiType, length: string)

  /** Without brackets and commas, and without white space either. */
  predicate IsQuiet(s: string) {
    forall i :: 0 <= i < |s| ==> s[i] !in "()[],"
  }

  predicate IsPlain(s: string) {
    IsQuiet(s) && forall i :: 0 <= i < |s| ==> !IsSpace(s[i])
  }

  predicate WellFormed(t: AbiType) {
    match t
    case Atom(name) => name != "" && IsPlain(name)
    case Tuple(items) => forall i :: 0 <= i < |items| ==> WellFormed(items[i])
    case Array(element, length) => WellFormed(element) && IsPlain(length)
  }

  function Print(t: AbiType): string {
    match t
    case Atom(name) => name
    case Tuple(items) => "(" + PrintAll(items) + ")"
    case Array(element, length) => Print(element) + "[" + length + "]"
  }

  function PrintAll(items: seq<AbiType>): string {
    if items == [] then ""
    else if |items| == 1 then Print(items[0])
    else Print(items[0]) + "," + PrintAll(items[1..])
  }

  function Printed(items: seq<AbiType>): seq<string> {
    if items == [] then [] else [Print(items[0])] + Printed(items[1..])
  }

  function Signature(name: string, args: seq<AbiType>, resultType: string): string {
    name + "(" + PrintAll(args) + ")" + resultType
  }

  // ----- what the two scans make of a printed type

  ghost predicate SkipsAt(s: string, from: int, to: int, rest: string) {
    CloseAt(s + rest, from) == Later(|s|, CloseAt(rest, to))
  }

  /** The first scan passes over `s`, from one depth to another, without closing what it looks for. */
  ghost predicate Skips(s: string, from: int, to: int) {
    forall rest :: SkipsAt(s, from, to, rest)
  }

  lemma SkipsBoth(x: string, y: string, from: int, mid: int, to: int)
    requires Skips(x, from, mid) && Skips(y, mid, to)
    ensures Skips(x + y, from, to)
  {
    forall rest ensures SkipsAt(x + y, from, to, rest) {
      assert SkipsAt(x, from, mid, y + rest) && SkipsAt(y, mid, to, rest);
      assert x + y + rest == x + (y + rest);
    }
  }

  lemma SkipsOne(c: char, depth: int)
    requires c != ')' || depth != 1
    ensures Skips([c], depth, if c == '(' then depth + 1 else if c == ')' then depth - 1 else depth)
  {
    var to := if c == '(' then depth + 1 else if c == ')' then depth - 1 else depth;
    forall rest ensures SkipsAt([c], depth, to, rest) {
      assert ([c] + rest)[1..] == rest;
    }
  }

  lemma {:induction false} SkipsPlain(s: string, depth: int)
    requires IsQuiet(s)
    ensures Skips(s, depth, depth)
  {
    if s == "" {
      forall rest ensures SkipsAt(s, depth, depth, rest) {
        assert s + rest == rest;
      }
    } else {
      SkipsOne(s[0], depth);
      SkipsPlain(s[1..], depth);
      SkipsBoth([s[0]], s[1..], depth, depth, depth);
      assert [s[0]] + s[1..] == s;
    }
  }

  /** A printed type never closes a parenthesis it did not open. */
  lemma {:induction false} SkipsType(t: AbiType, depth: int)
    requires WellFormed(t) && depth >= 1
    ensures Skips(Print(t), depth, depth)
    decreases t, 1
  {
    match t
    case Atom(name) => SkipsPlain(name, depth);
    case Tuple(items) =>
      SkipsTypes(items, depth + 1);
      SkipsTuple(PrintAll(items), depth);
    case Array(element, length) =>
      SkipsType(element, depth);
      SkipsArray(Print(element), length, depth);
  }

  lemma SkipsTuple(items: string, depth: int)
    requires depth >= 1 && Skips(items, depth + 1, depth + 1)
    ensures Skips("(" + items + ")", depth, depth)
  {
    SkipsOne('(', depth);
    SkipsOne(')', depth + 1);
    SkipsBoth("(", items, depth, depth + 1, depth + 1);
    SkipsBoth("(" + items, ")", depth, depth + 1, depth);
  }

  lemma SkipsArray(element: string, length: string, depth: int)
    requires depth >= 1 && Skips(element, depth, depth) && IsPlain(length)
    ensures Skips(element + "[" + length + "]", depth, depth)
  {
    SkipsOne('[', depth);
    SkipsPlain(length, depth);
    SkipsOne(']', depth);
    SkipsBoth(element, "[", depth, depth, depth);
    SkipsBoth(element + "[", length, depth, depth, depth);
    SkipsBoth(element + "[" + length, "]", depth, depth, depth);
  }

  lemma {:induction false} SkipsTypes(items: seq<AbiType>, depth: int)
    requires depth >= 1 && forall i :: 0 <= i < |items| ==> WellFormed(items[i])
    ensures Skips(PrintAll(items), depth, depth)
    decreases items, 0
  {
    if items == [] {
      SkipsPlain("", depth);
    } else {
      SkipsType(items[0], depth);
      if |items| > 1 {
        SkipsOne(',', depth);
        SkipsTypes(items[1..], depth);
        SkipsBoth(Print(items[0]), ",", depth, depth, depth);
        SkipsBoth(Print(items[0]) + ",", PrintAll(items[1..]), depth, depth, depth);
      }
    }
  }

  ghost predicate TakesAt(s: string, from: int, to: int, part: string, rest: string) {
    Parts(part, s + rest, from) == Parts(part + s, rest, to)
  }

  /** The second scan reads `s` into the part it is at, from one depth to another. */
  ghost predicate Takes(s: string, from: int, to: int) {
    forall part, rest :: TakesAt(s, from, to, part, rest)
  }

  lemma TakesBoth(x: string, y: string, from: int, mid: int, to: int)
    requires Takes(x, from, mid) && Takes(y, mid, to)
    ensures Takes(x + y, from, to)
  {
    forall part, rest ensures TakesAt(x + y, from, to, part, rest) {
      assert TakesAt(x, from, mid, part, y + rest) && TakesAt(y, mid, to, part + x, rest);
      assert x + y + rest == x + (y + rest) && part + x + y == part + (x + y);
    }
  }

  lemma TakesOne(c: char, d: int)
    requires c != ',' || d != 0
    ensures Takes([c], d, Nested(c, d))
  {
    forall part, rest ensures TakesAt([c], d, Nested(c, d), part, rest) {
      assert ([c] + rest)[1..] == rest;
    }
  }

  lemma {:induction false} TakesPlain(s: string, d: int)
    requires IsQuiet(s)
    ensures Takes(s, d, d)
  {
    if s == "" {
      forall part, rest ensures TakesAt(s, d, d, part, rest) {
        assert s + rest == rest && part + s == part;
      }
    } else {
      TakesOne(s[0], d);
      TakesPlain(s[1..], d);
      TakesBoth([s[0]], s[1..], d, d, d);
      assert [s[0]] + s[1..] == s;
    }
  }

  /** A printed type has no comma at the depth it starts at, and ends at that depth. */
  lemma {:induction false} TakesType(t: AbiType, d: int)
    requires WellFormed(t) && d >= 0
    ensures Takes(Print(t), d, d)
    decreases t, 1
  {
    match t
    case Atom(name) => TakesPlain(name, d);
    case Tuple(items) =>
      TakesTypes(items, d + 1);
      TakesTuple(PrintAll(items), d);
    case Array(element, length) =>
      TakesType(element, d);
      TakesArray(Print(element), length, d);
  }

  lemma TakesTuple(items: string, d: int)
    requires d >= 0 && Takes(items, d + 1, d + 1)
    ensures Takes("(" + items + ")", d, d)
  {
    TakesOne('(', d);
    TakesOne(')', d + 1);
    TakesBoth("(", items, d, d + 1, d + 1);
    TakesBoth("(" + items, ")", d, d + 1, d);
  }

  lemma TakesArray(element: string, length: string, d: int)
    requires d >= 0 && Takes(element, d, d) && IsPlain(length)
    ensures Takes(element + "[" + length + "]", d, d)
  {
    TakesOne('[', d);
    TakesPlain(length, d + 1);
    TakesOne(']', d + 1);
    TakesBoth(element, "[", d, d, d + 1);
    TakesBoth(element + "[", length, d, d + 1, d + 1);
    TakesBoth(element + "[" + length, "]", d, d + 1, d);
  }

  lemma {:induction false} TakesTypes(items: seq<AbiType>, d: int)
    requires d >= 1 && forall i :: 0 <= i < |items| ==> WellFormed(items[i])
    ensures Takes(PrintAll(items), d, d)
    decreases items, 0
  {
    if items == [] {
      TakesPlain("", d);
    } else {
      TakesType(items[0], d);
      if |items| > 1 {
        TakesOne(',', d);
        TakesTypes(items[1..], d);
        TakesBoth(Print(items[0]), ",", d, d, d);
        TakesBoth(Print(items[0]) + ",", PrintAll(items[1..]), d, d, d);
      }
    }
  }

  lemma {:induction false} PrintHasNoSpace(t: AbiType)
    requires WellFormed(t)
    ensures IsWord(Print(t))
    decreases t, 1
  {
    match t
    case Atom(_) =>
    case Tuple(items) => PrintAllHasNoSpace(items);
    case Array(element, _) => PrintHasNoSpace(element);
  }

  lemma {:induction false} PrintAllHasNoSpace(items: seq<AbiType>)
    requires forall i :: 0 <= i < |items| ==> WellFormed(items[i])
    ensures items == [] || IsWord(PrintAll(items))
    decreases items, 0
  {
    if items != [] {
      PrintHasNoSpace(items[0]);
      PrintAllHasNoSpace(items[1..]);
    }
  }

  lemma TrimOfWord(s: string)
    requires s == "" || IsWord(s)
    ensures Trim(s) == s
  {
  }

  /** At depth zero, the parts of a printed list are the printed types. */
  lemma {:induction false} PartsOfPrintAll(items: seq<AbiType>)
    requires items != [] && forall i :: 0 <= i < |items| ==> WellFormed(items[i])
    ensures Parts("", PrintAll(items), 0) == Printed(items)
  {
    var first := Print(items[0]);
    PrintHasNoSpace(items[0]);
    TrimOfWord(first);
    assert "" + first == first;
    if |items| == 1 {
      assert first + "" == first;
      TakesType(items[0], 0);
      assert TakesAt(first, 0, 0, "", "");
    } else {
      var tail := "," + PrintAll(items[1..]);
      assert PrintAll(items) == first + tail;
      TakesType(items[0], 0);
      assert TakesAt(first, 0, 0, "", tail);
      assert tail[1..] == PrintAll(items[1..]);
      PartsOfPrintAll(items[1..]);
    }
  }

  lemma {:induction false} FindOpenAfter(name: string, rest: string)
    requires '(' !in name
    ensures FindOpen(name + "(" + rest) == Some(|name|)
  {
    var s := name + "(" + rest;
    if name != "" {
      assert s[1..] == name[1..] + "(" + rest;
      FindOpenAfter(name[1..], rest);
    }
  }

  /** Splitting a printed signature gives back exactly its top-level argument types, in order. */
  lemma SplitterInvertsPrinter(name: string, args: seq<AbiType>, resultType: string)
    requires '(' !in name && forall i :: 0 <= i < |args| ==> WellFormed(args[i])
    ensures ArgTypes(Signature(name, args, resultType)) == Some(Printed(args))
  {
    var inner := PrintAll(args);
    ClosesAfter(args, ")" + resultType);
    ArgTypesOf(name, inner, ")" + resultType);
    assert name + "(" + inner + (")" + resultType) == Signature(name, args, resultType);
    PrintAllHasNoSpace(args);
    TrimOfWord(inner);
    if args != [] {
      PartsOfPrintAll(args);
    }
  }

  /** An argument type with white space around it. */
  datatype Spaced = Spaced(before: string, arg: AbiType, after: string)
  {
    predicate Valid() { WellFormed(arg) && AllSpace(before) && AllSpace(after) }

    function Text(): string { before + Print(arg) + after }
  }

  function PrintSpaced(args: seq<Spaced>): string {
    if args == [] then ""
    else if |args| == 1 then args[0].Text()
    else args[0].Text() + "," + PrintSpaced(args[1..])
  }

  function TypesOf(args: seq<Spaced>): seq<AbiType> {
    if args == [] then [] else [args[0].arg] + TypesOf(args[1..])
  }

  lemma TextIsSkipped(p: Spaced)
    requires p.Valid()
    ensures Skips(p.Text(), 1, 1)
  {
    SkipsPlain(p.before, 1);
    SkipsType(p.arg, 1);
    SkipsPlain(p.after, 1);
    SkipsBoth(p.before, Print(p.arg), 1, 1, 1);
    SkipsBoth(p.before + Print(p.arg), p.after, 1, 1, 1);
  }

  lemma TextIsTaken(p: Spaced)
    requires p.Valid()
    ensures Takes(p.Text(), 0, 0)
  {
    TakesPlain(p.before, 0);
    TakesType(p.arg, 0);
    TakesPlain(p.after, 0);
    TakesBoth(p.before, Print(p.arg), 0, 0, 0);
    TakesBoth(p.before + Print(p.arg), p.after, 0, 0, 0);
  }

  lemma TextIsPart(p: Spaced, tail: string)
    requires p.Valid()
    ensures Parts("", p.Text() + tail, 0) == Parts(p.Text(), tail, 0) && Trim(p.Text()) == Print(p.arg)
  {
    TextIsTaken(p);
    assert TakesAt(p.Text(), 0, 0, "", tail);
    assert "" + p.Text() == p.Text();
    PrintHasNoSpace(p.arg);
    TrimOfSpaced(p.before, Print(p.arg), p.after);
  }

  lemma {:induction false} SkipsSpaced(args: seq<Spaced>)
    requires forall i :: 0 <= i < |args| ==> args[i].Valid()
    ensures Skips(PrintSpaced(args), 1, 1)
  {
    if args == [] {
      SkipsPlain("", 1);
    } else {
      TextIsSkipped(args[0]);
      if |args| > 1 {
        SkipsOne(',', 1);
        SkipsSpaced(args[1..]);
        SkipsBoth(args[0].Text(), ",", 1, 1, 1);
        SkipsBoth(args[0].Text() + ",", PrintSpaced(args[1..]), 1, 1, 1);
      }
    }
  }

  lemma {:induction false} PartsOfSpaced(args: seq<Spaced>)
    requires args != [] && forall i :: 0 <= i < |args| ==> args[i].Valid()
    ensures Parts("", PrintSpaced(args), 0) == Printed(TypesOf(args))
  {
    if |args| == 1 {
      OneSpaced(args[0]);
      assert TypesOf(args) == [args[0].arg];
    } else {
      var tail := "," + PrintSpaced(args[1..]);
      TextIsPart(args[0], tail);
      assert PrintSpaced(args) == args[0].Text() + tail && tail[1..] == PrintSpaced(args[1..]);
      PartsOfSpaced(args[1..]);
      assert TypesOf(args)[1..] == TypesOf(args[1..]);
    }
  }

  lemma OneSpaced(p: Spaced)
    requires p.Valid()
    ensures Parts("", p.Text(), 0) == Printed([p.arg])
  {
    TextIsPart(p, "");
    assert p.Text() + "" == p.Text();
    assert Printed([p.arg]) == [Print(p.arg)] + Printed([]);
  }

  lemma SpacedClosesAfter(args: seq<Spaced>, tail: string)
    requires tail != "" && tail[0] == ')' && forall i :: 0 <= i < |args| ==> args[i].Valid()
    ensures CloseAt(PrintSpaced(args) + tail, 1) == Some(|PrintSpaced(args)|)
  {
    SkipsSpaced(args);
    assert SkipsAt(PrintSpaced(args), 1, 1, tail);
  }

  lemma {:induction false} SpacedIsNotBlank(args: seq<Spaced>)
    requires args != [] && forall i :: 0 <= i < |args| ==> args[i].Valid()
    ensures !AllSpace(PrintSpaced(args))
  {
    PrintHasNoSpace(args[0].arg);
    var i := |args[0].before|;
    assert PrintSpaced(args)[i] == Print(args[0].arg)[0];
  }

  /** White space around the arguments does not matter: they are split as if there were none. */
  lemma SplitterDropsSpaces(name: string, args: seq<Spaced>, resultType: string)
    requires '(' !in name && forall i :: 0 <= i < |args| ==> args[i].Valid()
    ensures ArgTypes(name + "(" + PrintSpaced(args) + ")" + resultType) == Some(Printed(TypesOf(args)))
  {
    var inner, tail := PrintSpaced(args), ")" + resultType;
    SpacedClosesAfter(args, tail);
    ArgTypesOf(name, inner, tail);
    PartsOrNone(args);
    assert name + "(" + inner + tail == name + "(" + inner + ")" + resultType;
  }

  lemma PartsOrNone(args: seq<Spaced>)
    requires forall i :: 0 <= i < |args| ==> args[i].Valid()
    ensures var inner := PrintSpaced(args);
            (if Trim(inner) == "" then [] else Parts("", inner, 0)) == Printed(TypesOf(args))
  {
    TrimOfSpace(PrintSpaced(args));
    if args != [] {
      SpacedIsNotBlank(args);
      PartsOfSpaced(args);
    }
  }

  /** What is split is the text between the outermost parentheses. */
  lemma ArgTypesOf(name: string, inner: string, tail: string)
    requires '(' !in name && CloseAt(inner + tail, 1) == Some(|inner|)
    ensures ArgTypes(name + "(" + inner + tail)
         == if Trim(inner) == "" then Some([]) else Some(Parts("", inner, 0))
  {
    var sig := name + "(" + inner + tail;
    assert sig == name + "(" + (inner + tail);
    FindOpenAfter(name, inner + tail);
    assert sig[|name| + 1..] == inner + tail;
    assert sig[|name| + 1..|name| + 1 + |inner|] == inner;
  }

  /** The argument list closes where it was printed to close. */
  lemma ClosesAfter(args: seq<AbiType>, tail: string)
    requires tail != "" && tail[0] == ')' && forall i :: 0 <= i < |args| ==> WellFormed(args[i])
    ensures CloseAt(PrintAll(args) + tail, 1) == Some(|PrintAll(args)|)
  {
    SkipsTypes(args, 1);
    assert SkipsAt(PrintAll(args), 1, 1, tail);
  }

  // ----- framing

  datatype AppArg = Bytes(bytes: seq<Byte>) | Utf8(utf8: seq<Byte>) | Uint(value: nat)
  {
    /** An integer is eight bytes, most significant first. */
    function ToBytes(): seq<Byte> {
      match this
      case Bytes(b) => b
      case Utf8(b) => b
      case Uint(v) => BigEndian(v, 8)
    }
  }

  function BigEndian(v: nat, n: nat): (bytes: seq<Byte>)
    ensures |bytes| == n
  {
    if n == 0 then [] else BigEndian(v / 256, n - 1) + [v % 256]
  }

  function FromBigEndian(bytes: seq<Byte>): nat {
    if bytes == [] then 0 else FromBigEndian(bytes[..|bytes| - 1]) * 256 + bytes[|bytes| - 1]
  }

  datatype FrameError = OverU16(index: nat, length: nat)

  const U16_MAX := 0xFFFF

  predicate IsDynamic(types: Option<seq<string>>, i: nat) {
    types.Some? && i < |types.value| && (types.value[i] == "byte[]" || types.value[i] == "string")
  }

  function FrameOne(types: Option<seq<string>>, i: nat, arg: AppArg): Result<AppArg, FrameError> {
    if IsDynamic(types, i) then
      var raw := arg.ToBytes();
      if |raw| > U16_MAX then Err(OverU16(i, |raw|)) else Ok(Bytes(BigEndian(|raw|, 2) + raw))
    else Ok(arg)
  }

  /** Frame each argument in turn, stopping at the first that cannot be. */
  function FrameAll(types: Option<seq<string>>, args: seq<AppArg>): (r: Result<seq<AppArg>, FrameError>)
    ensures r.Ok? ==> |r.value| == |args|
  {
    if args == [] then Ok([]) else
      var last := |args| - 1;
      match FrameAll(types, args[..last])
      case Err(e) => Err(e)
      case Ok(before) =>
        match FrameOne(types, last, args[last])
        case Err(e) => Err(e)
        case Ok(framed) => Ok(before + [framed])
  }

  function FrameArgs(signature: Option<string>, args: seq<AppArg>): Result<seq<AppArg>, FrameError> {
    FrameAll(match signature case None => None case Some(sig) => ArgTypes(sig), args)
  }

  /** An argument that is too long for its two-byte length. */
  predicate TooLong(types: Option<seq<string>>, args: seq<AppArg>, i: nat) {
    i < |args| && IsDynamic(types, i) && |args[i].ToBytes()| > U16_MAX
  }

  lemma {:induction false} FrameAllIs(types: Option<seq<string>>, args: seq<AppArg>)
    ensures match FrameAll(types, args)
            case Ok(framed) =>
              |framed| == |args| && forall i :: 0 <= i < |args| ==> FrameOne(types, i, args[i]) == Ok(framed[i])
            case Err(e) =>
              && TooLong(types, args, e.index) && e.length == |args[e.index].ToBytes()|
              && forall i :: 0 <= i < e.index ==> !TooLong(types, args, i)
  {
    if args != [] {
      var last := |args| - 1;
      FrameAllIs(types, args[..last]);
      assert forall i: nat :: i < last ==> (TooLong(types, args[..last], i) <==> TooLong(types, args, i));
      if FrameAll(types, args[..last]).Ok? {
        assert forall i :: 0 <= i < last ==> FrameOne(types, i, args[i]).Ok?;
        assert forall i :: 0 <= i < last ==> !TooLong(types, args, i);
      }
    }
  }

  lemma {:induction false} PrintedAt(items: seq<AbiType>, i: nat)
    requires i < |items|
    ensures |Printed(items)| == |items| && Printed(items)[i] == Print(items[i])
  {
    if i > 0 { PrintedAt(items[1..], i - 1); } else if |items| > 1 { PrintedAt(items[1..], 0); }
  }

  /** The last bracket of a printed array opens its length. */
  lemma ArrayPrintsAs(element: AbiType, length: string, before: string)
    requires WellFormed(element) && IsPlain(length) && IsPlain(before)
    ensures Print(Array(element, length)) == before + "[]" <==> Print(element) == before && length == ""
  {
    var s := Print(Array(element, length));
    if s == before + "[]" {
      assert s[|Print(element)|] == '[';
      assert |before| == |Print(element)|;
      assert s[..|before|] == Print(element) && s[..|before|] == before;
    }
  }

  lemma PlainPrint(t: AbiType, name: string)
    requires WellFormed(t) && name != "" && IsPlain(name)
    ensures Print(t) == name <==> t == Atom(name)
  {
    match t
    case Atom(_) =>
    case Tuple(_) => assert Print(t)[0] == '(';
    case Array(_, _) => assert Print(t)[|Print(t)| - 1] == ']';
  }

  lemma PrintsByteArray(t: AbiType)
    requires WellFormed(t)
    ensures Print(t) == "byte[]" <==> t == Array(Atom("byte"), "")
  {
    var bytes := "byte[]";
    assert bytes == "byte" + "[]";
    match t
    case Atom(name) => assert bytes[4] == '[';
    case Tuple(_) => assert Print(t)[0] == '(' && bytes[0] != '(';
    case Array(element, length) =>
      ArrayPrintsAs(element, length, "byte");
      PlainPrint(element, "byte");
  }

  /** The printed types that are framed are the dynamic byte array and the string, and no others. */
  lemma DynamicTypes(t: AbiType)
    requires WellFormed(t)
    ensures Print(t) == "byte[]" <==> t == Array(Atom("byte"), "")
    ensures Print(t) == "string" <==> t == Atom("string")
  {
    PrintsByteArray(t);
    PlainPrint(t, "string");
  }

  /** A length of two bytes, the higher one first, and then the payload. */
  ghost predicate IsFramed(arg: AppArg, payload: seq<Byte>) {
    && arg.Bytes? && |arg.bytes| == 2 + |payload| && arg.bytes[2..] == payload
    && var high: nat, low: nat := arg.bytes[0], arg.bytes[1]; 256 * high + low == |payload|
  }

  lemma TwoBytes(n: nat)
    requires n <= U16_MAX
    ensures BigEndian(n, 2) == [n / 256, n % 256]
  {
    assert BigEndian(n / 256, 1) == BigEndian(n / 256 / 256, 0) + [n / 256 % 256];
    assert n / 256 % 256 == n / 256;
  }

  /** An integer is eight bytes that give it back, the highest one first. */
  lemma {:induction false} BigEndianIs(v: nat, n: nat)
    requires v < Shl(1, 8 * n)
    ensures FromBigEndian(BigEndian(v, n)) == v
  {
    if n > 0 {
      ShlTwice(1, 8 * (n - 1), 8);
      ShlIsTimes(Shl(1, 8 * (n - 1)), 8);
      PowersUsed();
      BigEndianIs(v / 256, n - 1);
      assert BigEndian(v, n)[..n - 1] == BigEndian(v / 256, n - 1);
    }
  }

  /** The bytes of each kind of argument. */
  lemma BytesOfArg(arg: AppArg)
    ensures match arg
            case Bytes(b) => arg.ToBytes() == b
            case Utf8(b) => arg.ToBytes() == b
            case Uint(v) => |arg.ToBytes()| == 8 && (v < Shl(1, 64) ==> FromBigEndian(arg.ToBytes()) == v)
  {
    if arg.Uint? && arg.value < Shl(1, 64) {
      BigEndianIs(arg.value, 8);
    }
  }

  /** Without a signature, or with one that has no argument list, nothing is framed and nothing fails. */
  lemma NothingToFrame(signature: Option<string>, args: seq<AppArg>)
    requires signature.None? || ArgTypes(signature.value).None?
    ensures FrameArgs(signature, args) == Ok(args)
  {
    FrameAllIs(None, args);
    var r := FrameArgs(signature, args);
    assert r == FrameAll(None, args);
    forall i | 0 <= i < |args| ensures r.Ok? && r.value[i] == args[i] {
      assert r.Ok? && FrameOne(None, i, args[i]) == Ok(r.value[i]);
    }
    assert r.Ok? && r.value == args;
  }

  /**
   For a printed signature: the `byte[]` and `string` arguments are framed, so that the first two
   bytes give the length of the rest and the rest is the payload; every other argument, and any beyond
   the signature, is passed through; and it fails if and only if a framed argument is over 65535 bytes.
   */
  lemma FramesExactlyTheDynamicOnes(name: string, types: seq<AbiType>, resultType: string, args: seq<AppArg>)
    requires '(' !in name && forall i :: 0 <= i < |types| ==> WellFormed(types[i])
    ensures var r := FrameArgs(Some(Signature(name, types, resultType)), args);
            && (r.Err? <==> exists i :: 0 <= i < |args| && i < |types| && |args[i].ToBytes()| > 65_535
                              && (types[i] == Array(Atom("byte"), "") || types[i] == Atom("string")))
            && (r.Ok? ==> |r.value| == |args| && forall i :: 0 <= i < |args| ==>
                  if i < |types| && (types[i] == Array(Atom("byte"), "") || types[i] == Atom("string"))
                  then IsFramed(r.value[i], args[i].ToBytes())
                  else r.value[i] == args[i])
  {
    SplitterInvertsPrinter(name, types, resultType);
    var printed := Some(Printed(types));
    assert types == [] ==> printed.value == [];
    if types != [] { PrintedAt(types, 0); }
    forall i | 0 <= i < |types|
      ensures IsDynamic(printed, i) <==> types[i] == Array(Atom("byte"), "") || types[i] == Atom("string")
    {
      PrintedAt(types, i);
      DynamicTypes(types[i]);
    }
    FrameAllIs(printed, args);
    var r := FrameAll(printed, args);
    if r.Ok? {
      forall i | 0 <= i < |args|
        ensures !TooLong(printed, args, i)
        ensures IsDynamic(printed, i) ==> IsFramed(r.value[i], args[i].ToBytes())
      {
        assert FrameOne(printed, i, args[i]) == Ok(r.value[i]);
        if IsDynamic(printed, i) {
          var raw := args[i].ToBytes();
          TwoBytes(|raw|);
          assert r.value[i].bytes == [|raw| / 256, |raw| % 256] + raw;
        }
      }
    }
  }
}
