/** Splitting and joining text at white space. */
module Text {
  predicate IsSpace(c: char) {
    c in " \t\n\r" || c == '\U{0B}' || c == '\U{0C}'
  }

  function WordLength(s: string): (n: nat)
    ensures n <= |s| && (forall i :: 0 <= i < n ==> !IsSpace(s[i])) && (n < |s| ==> IsSpace(s[n]))
  {
    if s == "" || IsSpace(s[0]) then 0 else 1 + WordLength(s[1..])
  }

  /** The maximal runs of other characters. */
  function SplitWhitespace(s: string): seq<string> {
    if s == "" then []
    else if IsSpace(s[0]) then SplitWhitespace(s[1..])
    else [s[..WordLength(s)]] + SplitWhitespace(s[WordLength(s)..])
  }

  function Join(words: seq<string>, separator: string): string {
    if words == [] then ""
    else if |words| == 1 then words[0]
    else words[0] + separator + Join(words[1..], separator)
  }

  function TrimStart(s: string): string {
    if s != "" && IsSpace(s[0]) then TrimStart(s[1..]) else s
  }

  function TrimEnd(s: string): string {
    if s != "" && IsSpace(s[|s| - 1]) then TrimEnd(s[..|s| - 1]) else s
  }

  function Trim(s: string): string { TrimEnd(TrimStart(s)) }

  /** Nonempty and without white space. */
  predicate IsWord(s: string) {
    s != "" && forall i :: 0 <= i < |s| ==> !IsSpace(s[i])
  }

  lemma WordComesFirst(word: string, rest: string)
    requires IsWord(word) && (rest == "" || IsSpace(rest[0]))
    ensures SplitWhitespace(word + rest) == [word] + SplitWhitespace(rest)
  {
    var s := word + rest;
    var n := WordLength(s);
    assert forall i :: 0 <= i < |word| ==> s[i] == word[i];
    assert rest != "" ==> s[|word|] == rest[0];
    assert n == |word|;
    assert s[..n] == word && s[n..] == rest;
  }

  predicate AllSpace(s: string) {
    forall i :: 0 <= i < |s| ==> IsSpace(s[i])
  }

  /** Together with the one above: any white space, of any length, only separates. */
  lemma {:induction false} SpaceIsSkipped(space: string, rest: string)
    requires AllSpace(space)
    ensures SplitWhitespace(space + rest) == SplitWhitespace(rest)
  {
    if space == "" {
      assert space + rest == rest;
    } else {
      assert (space + rest)[1..] == space[1..] + rest;
      SpaceIsSkipped(space[1..], rest);
    }
  }

  lemma {:induction false} SplitOfJoin(words: seq<string>)
    requires forall i :: 0 <= i < |words| ==> IsWord(words[i])
    ensures SplitWhitespace(Join(words, " ")) == words
  {
    if |words| == 1 {
      assert words[0] + "" == words[0];
      WordComesFirst(words[0], "");
    } else if |words| > 1 {
      var rest := " " + Join(words[1..], " ");
      assert Join(words, " ") == words[0] + rest;
      WordComesFirst(words[0], rest);
      assert rest[1..] == Join(words[1..], " ");
      SplitOfJoin(words[1..]);
    }
  }

  /** Every white space is one space character, with other characters on both sides. */
  ghost predicate SinglySpaced(s: string) {
    forall i :: 0 <= i < |s| && IsSpace(s[i]) ==>
      s[i] == ' ' && 0 < i < |s| - 1 && !IsSpace(s[i - 1]) && !IsSpace(s[i + 1])
  }

  lemma {:induction false} JoinIsSinglySpaced(words: seq<string>)
    requires forall i :: 0 <= i < |words| ==> IsWord(words[i])
    ensures SinglySpaced(Join(words, " "))
    ensures words != [] ==> Join(words, " ") != "" && !IsSpace(Join(words, " ")[0])
  {
    if |words| > 1 {
      var first, rest := words[0], Join(words[1..], " ");
      JoinIsSinglySpaced(words[1..]);
      var s := first + " " + rest;
      forall i | 0 <= i < |s| && IsSpace(s[i])
        ensures s[i] == ' ' && 0 < i < |s| - 1 && !IsSpace(s[i - 1]) && !IsSpace(s[i + 1])
      {
        if i > |first| {
          var k := i - |first| - 1;
          assert s[i] == rest[k];
          assert k > 0 && k < |rest| - 1 && s[i - 1] == rest[k - 1] && s[i + 1] == rest[k + 1];
        } else {
          assert i == |first| && s[i + 1] == rest[0];
        }
      }
    }
  }

  /** Splitting does not mind trimming. */
  lemma {:induction false} SplitOfTrimStart(s: string)
    ensures SplitWhitespace(TrimStart(s)) == SplitWhitespace(s)
  {
    if s != "" && IsSpace(s[0]) { SplitOfTrimStart(s[1..]); }
  }

  lemma {:induction false} SplitDropsLastSpace(s: string, space: char)
    requires IsSpace(space)
    ensures SplitWhitespace(s + [space]) == SplitWhitespace(s)
    decreases |s|
  {
    var t := s + [space];
    if s == "" {
      assert t[1..] == "";
    } else if IsSpace(s[0]) {
      assert t[1..] == s[1..] + [space];
      SplitDropsLastSpace(s[1..], space);
    } else {
      var n := WordLength(s);
      assert s == s[..n] + s[n..];
      assert t == s[..n] + (s[n..] + [space]);
      WordComesFirst(s[..n], s[n..] + [space]);
      SplitDropsLastSpace(s[n..], space);
    }
  }

  lemma {:induction false} SplitOfTrimEnd(s: string)
    ensures SplitWhitespace(TrimEnd(s)) == SplitWhitespace(s)
  {
    if s != "" && IsSpace(s[|s| - 1]) {
      var t := s[..|s| - 1];
      SplitDropsLastSpace(t, s[|s| - 1]);
      assert t + [s[|s| - 1]] == s;
      SplitOfTrimEnd(t);
    }
  }

  /** Trimming drops white space at both ends, and all of it. */
  lemma {:induction false} TrimStartIs(s: string)
    ensures |TrimStart(s)| <= |s| && AllSpace(s[..|s| - |TrimStart(s)|]) && s[|s| - |TrimStart(s)|..] == TrimStart(s)
    ensures TrimStart(s) != "" ==> !IsSpace(TrimStart(s)[0])
  {
    if s != "" && IsSpace(s[0]) {
      TrimStartIs(s[1..]);
      var n := |s| - |TrimStart(s)|;
      assert s[..n] == [s[0]] + s[1..][..n - 1] && s[n..] == s[1..][n - 1..];
    } else {
      assert s[0..] == s && s[..0] == "";
    }
  }

  lemma {:induction false} TrimEndIs(s: string)
    ensures |TrimEnd(s)| <= |s| && AllSpace(s[|TrimEnd(s)|..]) && s[..|TrimEnd(s)|] == TrimEnd(s)
    ensures TrimEnd(s) != "" ==> !IsSpace(TrimEnd(s)[|TrimEnd(s)| - 1])
  {
    if s != "" && IsSpace(s[|s| - 1]) {
      var shorter := s[..|s| - 1];
      TrimEndIs(shorter);
      var n := |TrimEnd(s)|;
      assert s[n..] == shorter[n..] + [s[|s| - 1]] && s[..n] == shorter[..n];
    } else {
      assert s[..|s|] == s && s[|s|..] == "";
    }
  }

  lemma {:induction false} TrimStartOfSpaced(space: string, s: string)
    requires AllSpace(space) && (s == "" || !IsSpace(s[0]))
    ensures TrimStart(space + s) == s
  {
    if space == "" {
      assert space + s == s;
    } else {
      assert (space + s)[1..] == space[1..] + s;
      TrimStartOfSpaced(space[1..], s);
    }
  }

  lemma {:induction false} TrimEndOfSpaced(s: string, space: string)
    requires AllSpace(space) && (s == "" || !IsSpace(s[|s| - 1]))
    ensures TrimEnd(s + space) == s
    decreases |space|
  {
    if space == "" {
      assert s + space == s;
    } else {
      var shorter := space[..|space| - 1];
      assert (s + space)[..|s + space| - 1] == s + shorter;
      TrimEndOfSpaced(s, shorter);
    }
  }

  /** Whatever white space is put around text that neither starts nor ends with any, trimming takes off. */
  lemma TrimOfSpaced(before: string, s: string, after: string)
    requires AllSpace(before) && AllSpace(after) && s != "" && !IsSpace(s[0]) && !IsSpace(s[|s| - 1])
    ensures Trim(before + s + after) == s
  {
    assert before + s + after == before + (s + after);
    TrimStartOfSpaced(before, s + after);
    TrimEndOfSpaced(s, after);
  }

  lemma TrimOfSpace(s: string)
    ensures Trim(s) == "" <==> AllSpace(s)
  {
    TrimStartIs(s);
    TrimEndIs(TrimStart(s));
    assert s == s[..|s| - |TrimStart(s)|] + TrimStart(s);
    if AllSpace(s) {
      TrimStartOfSpaced(s, "");
      assert s + "" == s;
    }
  }

  lemma SplitOfTrim(s: string)
    ensures SplitWhitespace(Trim(s)) == SplitWhitespace(s)
  {
    SplitOfTrimStart(s);
    SplitOfTrimEnd(TrimStart(s));
  }
}
