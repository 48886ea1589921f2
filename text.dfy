/** The two string operations the handlers rely on, as Python defines them for `str`:
    `strip()` with no argument, and `split()` with no argument. Both use Python's
    notion of a whitespace character (`str.isspace`). */
module Text {

  import opened Wrappers

  /** Python's `str.isspace` for one character: the Unicode characters of category Zs
      and the bidirectional classes WS, B and S. */
  predicate IsSpace(c: char) {
    c in {'\t', '\n', '\U{0B}', '\U{0C}', '\r', '\U{1C}', '\U{1D}', '\U{1E}', '\U{1F}', ' ',
          '\U{85}', '\U{A0}', '\U{1680}', '\U{2028}', '\U{2029}', '\U{202F}', '\U{205F}', '\U{3000}'}
    || ('\U{2000}' <= c <= '\U{200A}')
  }

  /** No character of `s` is whitespace. */
  predicate NoSpace(s: string) {
    forall k :: 0 <= k < |s| ==> !IsSpace(s[k])
  }

  /** Every character of `s` is whitespace (vacuously so for the empty string). */
  predicate AllSpace(s: string) {
    forall k :: 0 <= k < |s| ==> IsSpace(s[k])
  }

  /** `s` neither starts nor ends with whitespace. */
  predicate Trimmed(s: string) {
    s == [] || (!IsSpace(s[0]) && !IsSpace(s[|s| - 1]))
  }

  /** Drops the leading whitespace (see `TrimStartSpec`). */
  function TrimStart(s: string): (r: string)
    ensures |r| <= |s|
    ensures r == [] || !IsSpace(r[0])
  {
    if |s| > 0 && IsSpace(s[0]) then TrimStart(s[1..]) else s
  }

  /** The result of `TrimStart` is the longest suffix of `s` that does not start with
      whitespace: everything dropped is whitespace. */
  lemma {:induction false} TrimStartSpec(s: string)
    ensures TrimStart(s) == s[|s| - |TrimStart(s)|..]
    ensures forall k :: 0 <= k < |s| - |TrimStart(s)| ==> IsSpace(s[k])
    decreases |s|
  {
    if |s| > 0 && IsSpace(s[0]) {
      TrimStartSpec(s[1..]);
    }
  }

  /** Drops the trailing whitespace (see `TrimEndSpec`). */
  function TrimEnd(s: string): (r: string)
    ensures |r| <= |s|
    ensures r == [] || !IsSpace(r[|r| - 1])
  {
    if |s| > 0 && IsSpace(s[|s| - 1]) then TrimEnd(s[..|s| - 1]) else s
  }

  /** The result of `TrimEnd` is the longest prefix of `s` that does not end with
      whitespace: everything dropped is whitespace. */
  lemma {:induction false} TrimEndSpec(s: string)
    ensures TrimEnd(s) == s[..|TrimEnd(s)|]
    ensures forall k :: |TrimEnd(s)| <= k < |s| ==> IsSpace(s[k])
    decreases |s|
  {
    if |s| > 0 && IsSpace(s[|s| - 1]) {
      var init := s[..|s| - 1];
      TrimEndSpec(init);
      assert TrimEnd(s) == TrimEnd(init);
      assert init[..|TrimEnd(init)|] == s[..|TrimEnd(init)|];
    } else {
      assert s[..|s|] == s;
    }
  }

  /** Python's `s.strip()`: whitespace removed at both ends (see `TrimSpec`). */
  function Trim(s: string): string {
    TrimEnd(TrimStart(s))
  }

  /** The first `n` characters of `s`, when each is whitespace, form a whitespace-only slice. */
  lemma AllSpacePrefix(s: string, n: nat)
    requires n <= |s|
    requires forall k :: 0 <= k < n ==> IsSpace(s[k])
    ensures AllSpace(s[..n])
  {
    forall k | 0 <= k < n ensures IsSpace(s[..n][k]) {
      assert s[..n][k] == s[k];
    }
  }

  /** The characters of `s` from `n` on, when each is whitespace, form a whitespace-only slice. */
  lemma AllSpaceSuffix(s: string, n: nat)
    requires n <= |s|
    requires forall k :: n <= k < |s| ==> IsSpace(s[k])
    ensures AllSpace(s[n..])
  {
    forall k | 0 <= k < |s| - n ensures IsSpace(s[n..][k]) {
      assert s[n..][k] == s[n + k];
    }
  }

  /** The bounds of the slice `Trim(s)` keeps: whitespace only before `i` and from `j` on. */
  lemma TrimBounds(s: string) returns (i: nat, j: nat)
    ensures i <= j <= |s| && Trim(s) == s[i..j]
    ensures AllSpace(s[..i]) && AllSpace(s[j..])
  {
    var t := TrimStart(s);
    var r := TrimEnd(t);
    TrimStartSpec(s);
    TrimEndSpec(t);
    i := |s| - |t|;
    j := i + |r|;
    AllSpacePrefix(s, i);
    AllSpaceSuffix(t, |r|);
    assert t[|r|..] == s[j..];
  }

  /** `Trim(s)` is a slice of `s` with no whitespace at either end, and it is empty
      exactly when `s` consists of whitespace only. */
  lemma TrimSpec(s: string)
    ensures Trimmed(Trim(s))
    ensures exists i, j :: 0 <= i <= j <= |s| && Trim(s) == s[i..j] && AllSpace(s[..i]) && AllSpace(s[j..])
    ensures Trim(s) == [] <==> AllSpace(s)
  {
    var i, j := TrimBounds(s);
    TrimEndSpec(TrimStart(s));
    if Trim(s) != [] {
      assert TrimStart(s)[0] == Trim(s)[0];
      assert !AllSpace(s) by {
        assert s[i] == Trim(s)[0];
      }
    } else {
      assert s == s[..i] + s[j..];
      AllSpaceConcat(s[..i], s[j..]);
    }
  }

  /** Two whitespace-only strings concatenate to a whitespace-only string. */
  lemma AllSpaceConcat(a: string, b: string)
    requires AllSpace(a) && AllSpace(b)
    ensures AllSpace(a + b)
  {
    forall k | 0 <= k < |a + b| ensures IsSpace((a + b)[k]) {
      if k >= |a| {
        assert (a + b)[k] == b[k - |a|];
      }
    }
  }

  /** A string that already has no whitespace at either end is left as it is. */
  lemma TrimmedIsFixed(s: string)
    requires Trimmed(s)
    ensures Trim(s) == s
  {
    assert TrimStart(s) == s;
    assert TrimEnd(s) == s;
  }

  /** Trimming twice is trimming once. */
  lemma TrimIdempotent(s: string)
    ensures Trim(Trim(s)) == Trim(s)
  {
    TrimSpec(s);
    TrimmedIsFixed(Trim(s));
  }

  /** The longest prefix of `s` without whitespace (one word, when `s` starts with one). */
  function TakeWord(s: string): (w: string)
    ensures |w| <= |s|
  {
    if s == [] || IsSpace(s[0]) then [] else [s[0]] + TakeWord(s[1..])
  }

  /** `TakeWord(s)` is a whitespace-free prefix of `s`, followed in `s` by whitespace or
      by nothing. */
  lemma {:induction false} TakeWordSpec(s: string)
    ensures TakeWord(s) == s[..|TakeWord(s)|]
    ensures NoSpace(TakeWord(s))
    ensures |TakeWord(s)| < |s| ==> IsSpace(s[|TakeWord(s)|])
    decreases |s|
  {
    if !(s == [] || IsSpace(s[0])) {
      TakeWordSpec(s[1..]);
    }
  }

  /** Python's `s.split()`: the maximal runs of non-whitespace characters of `s`, in order
      (see `WordsSpec`). */
  function Words(s: string): (ws: seq<string>)
    decreases |s|
  {
    var t := TrimStart(s);
    if t == [] then []
    else
      var w := TakeWord(t);
      [w] + Words(t[|w|..])
  }

  /** `split()` yields no word exactly when `s` is all whitespace; otherwise its first word
      is the run of non-whitespace characters after the leading whitespace. Every word
      it yields is non-empty and free of whitespace. */
  lemma {:induction false} WordsSpec(s: string)
    ensures Words(s) == [] <==> AllSpace(s)
    ensures Words(s) != [] ==> Words(s)[0] == TakeWord(TrimStart(s))
    ensures forall i :: 0 <= i < |Words(s)| ==> Words(s)[i] != [] && NoSpace(Words(s)[i])
    decreases |s|
  {
    var t := TrimStart(s);
    TrimStartSpec(s);
    if t == [] {
      assert AllSpace(s);
    } else {
      assert s[|s| - |t|] == t[0];
      assert !AllSpace(s);
    }
    if t != [] {
      var w := TakeWord(t);
      TakeWordSpec(t);
      WordsSpec(t[|w|..]);
      assert Words(s) == [w] + Words(t[|w|..]);
    }
  }

  /** A word followed by whitespace (or by nothing) is taken whole. */
  lemma {:induction false} TakeWordOf(w: string, rest: string)
    requires NoSpace(w)
    requires rest == [] || IsSpace(rest[0])
    ensures TakeWord(w + rest) == w
  {
    if w == [] {
      assert w + rest == rest;
    } else {
      assert (w + rest)[1..] == w[1..] + rest;
      TakeWordOf(w[1..], rest);
    }
  }

  /** Splitting one word yields that word alone. */
  lemma WordsOfWord(w: string)
    requires w != [] && NoSpace(w)
    ensures Words(w) == [w]
  {
    assert TrimStart(w) == w;
    TakeWordOf(w, []);
    assert w + [] == w;
    assert w[|w|..] == [];
  }

  /** Leading whitespace yields no word. */
  lemma WordsSkipSpace(c: char, s: string)
    requires IsSpace(c)
    ensures Words([c] + s) == Words(s)
  {
    assert ([c] + s)[1..] == s;
    assert TrimStart([c] + s) == TrimStart(s);
  }

  /** Splitting two non-empty words joined by one space gives the two words back. */
  lemma WordsOfPair(a: string, b: string)
    requires a != [] && NoSpace(a)
    requires b != [] && NoSpace(b)
    ensures Words(a + " " + b) == [a, b]
  {
    var s := a + (" " + b);
    assert s == a + " " + b;
    assert TrimStart(s) == s;
    TakeWordOf(a, " " + b);
    assert s[|a|..] == " " + b;
    assert Words(s) == [a] + Words(" " + b);
    WordsSkipSpace(' ', b);
    WordsOfWord(b);
  }

  /** A non-empty word followed by one space splits off as the first word. */
  lemma WordsCons(a: string, rest: string)
    requires a != [] && NoSpace(a)
    ensures Words(a + " " + rest) == [a] + Words(rest)
  {
    var s := a + (" " + rest);
    assert s == a + " " + rest;
    assert TrimStart(s) == s;
    TakeWordOf(a, " " + rest);
    assert s[|a|..] == " " + rest;
    assert Words(s) == [a] + Words(" " + rest);
    assert " " + rest == [' '] + rest;
    WordsSkipSpace(' ', rest);
  }

  /** Splitting three non-empty words joined by single spaces gives the three words back. */
  lemma WordsOfTriple(a: string, b: string, c: string)
    requires a != [] && NoSpace(a)
    requires b != [] && NoSpace(b)
    requires c != [] && NoSpace(c)
    ensures Words(a + " " + b + " " + c) == [a, b, c]
  {
    assert a + " " + b + " " + c == a + " " + (b + " " + c);
    WordsCons(a, b + " " + c);
    WordsOfPair(b, c);
  }

  /** The index of the last space character (`' '`) of `s`, if there is one
      (see `LastSpaceSpec`). */
  function LastSpace(s: string): (k: Option<nat>)
    ensures k.Some? ==> k.value < |s|
  {
    if s == [] then None
    else if s[|s| - 1] == ' ' then Some(|s| - 1)
    else LastSpace(s[..|s| - 1])
  }

  /** `LastSpace` finds a space exactly when there is one, and no space follows it. */
  lemma {:induction false} LastSpaceSpec(s: string)
    ensures LastSpace(s).None? <==> ' ' !in s
    ensures LastSpace(s).Some? ==> s[LastSpace(s).value] == ' '
    ensures LastSpace(s).Some? ==> forall j :: LastSpace(s).value < j < |s| ==> s[j] != ' '
    decreases |s|
  {
    if s != [] && s[|s| - 1] != ' ' {
      var init := s[..|s| - 1];
      LastSpaceSpec(init);
      assert ' ' in s ==> ' ' in init by {
        if ' ' in s { var j :| 0 <= j < |s| && s[j] == ' '; assert init[j] == ' '; }
      }
      assert ' ' in init ==> ' ' in s by {
        if ' ' in init { var j :| 0 <= j < |init| && init[j] == ' '; assert s[j] == ' '; }
      }
    }
  }

  /** Joins `parts` with `sep` between consecutive parts, like Python's `sep.join(parts)`. */
  function Join(sep: string, parts: seq<string>): string
    decreases |parts|
  {
    if parts == [] then ""
    else if |parts| == 1 then parts[0]
    else parts[0] + sep + Join(sep, parts[1..])
  }

  /** Two parts are joined with one separator between them. */
  lemma JoinPair(sep: string, parts: seq<string>)
    requires |parts| == 2
    ensures Join(sep, parts) == parts[0] + sep + parts[1]
  {
    assert Join(sep, parts[1..]) == parts[1];
  }
}
