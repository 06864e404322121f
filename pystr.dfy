/**
 * The Python `str` built-ins that the prompt helpers and the demo script
 * are written with: `startswith`, `replace`, `split`, `join` and `strip`.
 * Each is stated as Python defines it for a non-empty separator or pattern.
 */
module PyStr {

  /** `s.startswith(p)` */
  predicate StartsWith(s: string, p: string) {
    |p| <= |s| && s[..|p|] == p
  }

  /** `p in s`: `p` occurs somewhere in `s` as a contiguous piece. */
  predicate Contains(s: string, p: string)
    decreases |s|
  {
    StartsWith(s, p) || (|s| > 0 && Contains(s[1..], p))
  }

  /** Number of times `c` occurs in `s` (`s.count(c)` for one character). */
  function CountChar(s: string, c: char): nat
    decreases |s|
  {
    if |s| == 0 then 0 else (if s[0] == c then 1 else 0) + CountChar(s[1..], c)
  }

  /**
   * Number of occurrences of `pat` that a left-to-right scan finds without
   * overlap (`s.count(pat)`).
   */
  function Occurrences(s: string, pat: string): nat
    requires |pat| > 0
    decreases |s|
  {
    if |s| == 0 then 0
    else if StartsWith(s, pat) then 1 + Occurrences(s[|pat|..], pat)
    else Occurrences(s[1..], pat)
  }

  /**
   * `s.replace(pat, rep)`: every left-to-right, non-overlapping occurrence
   * of `pat` is replaced by `rep`.
   */
  function Replace(s: string, pat: string, rep: string): string
    requires |pat| > 0
    decreases |s|
  {
    if |s| == 0 then ""
    else if StartsWith(s, pat) then rep + Replace(s[|pat|..], pat, rep)
    else [s[0]] + Replace(s[1..], pat, rep)
  }

  /**
   * `s.split(sep)` with an explicit separator: the pieces between the
   * left-to-right, non-overlapping occurrences of `sep`. There is always at
   * least one piece, and the first piece is a prefix of `s`.
   */
  function Split(s: string, sep: string): (parts: seq<string>)
    requires |sep| > 0
    ensures |parts| >= 1
    ensures StartsWith(s, parts[0])
    decreases |s|
  {
    if |s| == 0 then [""]
    else if StartsWith(s, sep) then [""] + Split(s[|sep|..], sep)
    else
      var rest := Split(s[1..], sep);
      [[s[0]] + rest[0]] + rest[1..]
  }

  /** `sep.join(parts)` */
  function Join(sep: string, parts: seq<string>): string
    decreases |parts|
  {
    if |parts| == 0 then ""
    else if |parts| == 1 then parts[0]
    else parts[0] + sep + Join(sep, parts[1..])
  }

  /** Removes every leading character that is in `cs`. */
  function TrimStart(s: string, cs: set<char>): (r: string)
    ensures |r| <= |s| && r == s[|s| - |r|..]
    ensures forall k :: 0 <= k < |s| - |r| ==> s[k] in cs
    ensures |r| > 0 ==> r[0] !in cs
    decreases |s|
  {
    if |s| > 0 && s[0] in cs then TrimStart(s[1..], cs) else s
  }

  /** Removes every trailing character that is in `cs`. */
  function TrimEnd(s: string, cs: set<char>): (r: string)
    ensures |r| <= |s| && r == s[..|r|]
    ensures forall k :: |r| <= k < |s| ==> s[k] in cs
    ensures |r| > 0 ==> r[|r| - 1] !in cs
    decreases |s|
  {
    if |s| > 0 && s[|s| - 1] in cs then TrimEnd(s[..|s| - 1], cs) else s
  }

  /** `s.strip(chars)`: both ends trimmed of the characters in `cs`. */
  function Strip(s: string, cs: set<char>): string {
    TrimEnd(TrimStart(s, cs), cs)
  }

  /** The characters for which Python's `str.isspace()` holds. */
  predicate IsSpace(c: char) {
    '\t' <= c <= '\r' || '\U{1C}' <= c <= ' ' || c == '\U{85}' || c == '\U{A0}' ||
    c == '\U{1680}' || '\U{2000}' <= c <= '\U{200A}' || c == '\U{2028}' || c == '\U{2029}' ||
    c == '\U{202F}' || c == '\U{205F}' || c == '\U{3000}'
  }

  /** The set `s.strip()` with no argument trims. */
  const Whitespace: set<char> := set c: char | '\t' <= c <= '\U{3000}' && IsSpace(c)

  /** Neither end of `s` is in `cs`: what `Strip` promises of its result. */
  predicate Trimmed(s: string, cs: set<char>) {
    |s| == 0 || (s[0] !in cs && s[|s| - 1] !in cs)
  }

  // ---------------------------------------------------------------------
  // strip

  /** Every character of `s` is in `cs`. */
  predicate AllIn(s: string, cs: set<char>) {
    forall k :: 0 <= k < |s| ==> s[k] in cs
  }

  /** `r` is the piece of `s` at offset `i`, and everything around it is in `cs`. */
  predicate CutFrom(s: string, r: string, cs: set<char>, i: int) {
    0 <= i <= |s| - |r| && r == s[i..i + |r|] && AllIn(s[..i], cs) && AllIn(s[i + |r|..], cs)
  }

  /**
   * `Strip` returns a contiguous piece of `s` whose ends are not in `cs`,
   * and everything it cut off on either side is in `cs`.
   */
  lemma StripSpec(s: string, cs: set<char>)
    ensures Trimmed(Strip(s, cs), cs)
    ensures exists i :: CutFrom(s, Strip(s, cs), cs, i)
  {
    var t := TrimStart(s, cs);
    var r := TrimEnd(t, cs);
    var i := |s| - |t|;
    assert t == s[i..];
    assert r == t[..|r|];
    assert r == s[i..i + |r|];
    forall k | i + |r| <= k < |s| ensures s[k] in cs {
      assert s[k] == t[k - i];
    }
    assert CutFrom(s, r, cs, i);
  }

  /** A trimmed string is its own strip: stripping twice is stripping once. */
  lemma StripTrimmed(s: string, cs: set<char>)
    requires Trimmed(s, cs)
    ensures Strip(s, cs) == s
  {
  }

  lemma StripIdempotent(s: string, cs: set<char>)
    ensures Strip(Strip(s, cs), cs) == Strip(s, cs)
  {
    StripSpec(s, cs);
    StripTrimmed(Strip(s, cs), cs);
  }

  /** Stripping `a + m + b` gives `m` when `a` and `b` are all in `cs` and `m` is trimmed. */
  lemma StripSurrounded(a: string, m: string, b: string, cs: set<char>)
    requires forall k :: 0 <= k < |a| ==> a[k] in cs
    requires forall k :: 0 <= k < |b| ==> b[k] in cs
    requires |m| > 0 && Trimmed(m, cs)
    ensures Strip(a + m + b, cs) == m
  {
    var mb := m + b;
    assert a + m + b == a + mb;
    assert mb[0] == m[0];
    TrimStartPrefix(a, mb, cs);
    TrimEndSuffix(m, b, cs);
  }

  lemma {:induction false} TrimStartPrefix(a: string, t: string, cs: set<char>)
    requires forall k :: 0 <= k < |a| ==> a[k] in cs
    requires |t| > 0 && t[0] !in cs
    ensures TrimStart(a + t, cs) == t
    decreases |a|
  {
    if |a| > 0 {
      assert (a + t)[1..] == a[1..] + t;
      TrimStartPrefix(a[1..], t, cs);
    } else {
      assert a + t == t;
    }
  }

  lemma {:induction false} TrimEndSuffix(t: string, b: string, cs: set<char>)
    requires forall k :: 0 <= k < |b| ==> b[k] in cs
    requires |t| > 0 && t[|t| - 1] !in cs
    ensures TrimEnd(t + b, cs) == t
    decreases |b|
  {
    if |b| > 0 {
      assert (t + b)[..|t + b| - 1] == t + b[..|b| - 1];
      TrimEndSuffix(t, b[..|b| - 1], cs);
    } else {
      assert t + b == t;
    }
  }

  // ---------------------------------------------------------------------
  // replace

  /** With no occurrence of `pat`'s first character, `replace` changes nothing. */
  lemma {:induction false} ReplaceAbsent(s: string, pat: string, rep: string)
    requires |pat| > 0 && pat[0] !in s
    ensures Replace(s, pat, rep) == s
    decreases |s|
  {
    if |s| > 0 {
      assert !StartsWith(s, pat) by { assert s[0] in s; }
      assert s[1..] <= s[1..];
      assert forall c :: c in s[1..] ==> c in s;
      ReplaceAbsent(s[1..], pat, rep);
    }
  }

  /** Each occurrence changes the length by `|rep| - |pat|`. */
  lemma {:induction false} ReplaceLength(s: string, pat: string, rep: string)
    requires |pat| > 0
    ensures |Replace(s, pat, rep)| == |s| + Occurrences(s, pat) * (|rep| - |pat|)
    decreases |s|
  {
    var d := |rep| - |pat|;
    if |s| > 0 {
      if StartsWith(s, pat) {
        var t := s[|pat|..];
        ReplaceLength(t, pat, rep);
        var n := Occurrences(t, pat);
        MulStep(n, d);
        calc {
          |Replace(s, pat, rep)|;
          |rep| + |Replace(t, pat, rep)|;
          |rep| + |t| + n * d;
          |s| + d + n * d;
          |s| + (1 + n) * d;
          |s| + Occurrences(s, pat) * d;
        }
      } else {
        ReplaceLength(s[1..], pat, rep);
        assert |Replace(s, pat, rep)| == 1 + |Replace(s[1..], pat, rep)|;
        assert Occurrences(s, pat) == Occurrences(s[1..], pat);
      }
    }
  }

  lemma MulStep(n: int, d: int)
    ensures (1 + n) * d == d + n * d
  {
  }

  /** Deleting occurrences never makes a string longer. */
  lemma ReplaceNotLonger(s: string, pat: string, rep: string)
    requires |pat| > 0 && |rep| <= |pat|
    ensures |Replace(s, pat, rep)| <= |s|
  {
    ReplaceLength(s, pat, rep);
    assert Occurrences(s, pat) * (|rep| - |pat|) <= 0;
  }

  /**
   * `s.replace(pat, rep) == rep.join(s.split(pat))`: replacement keeps the
   * pieces between occurrences exactly, in order, and puts `rep` between
   * them.
   */
  lemma {:induction false} ReplaceIsJoinOfSplit(s: string, pat: string, rep: string)
    requires |pat| > 0
    ensures Replace(s, pat, rep) == Join(rep, Split(s, pat))
    decreases |s|
  {
    if |s| == 0 {
    } else if StartsWith(s, pat) {
      ReplaceIsJoinOfSplit(s[|pat|..], pat, rep);
      var parts := Split(s[|pat|..], pat);
      assert ([""] + parts)[1..] == parts;
    } else {
      ReplaceIsJoinOfSplit(s[1..], pat, rep);
      var rest := Split(s[1..], pat);
      JoinConsFirst(rep, s[0], rest);
    }
  }

  /** Putting a character in front of the first piece puts it in front of the join. */
  lemma JoinConsFirst(sep: string, c: char, parts: seq<string>)
    requires |parts| >= 1
    ensures Join(sep, [[c] + parts[0]] + parts[1..]) == [c] + Join(sep, parts)
  {
    var q := [[c] + parts[0]] + parts[1..];
    assert q[1..] == parts[1..];
  }

  /** Replacing a pattern by itself is the identity. */
  lemma {:induction false} ReplaceSelf(s: string, pat: string)
    requires |pat| > 0
    ensures Replace(s, pat, pat) == s
    decreases |s|
  {
    if |s| > 0 {
      if StartsWith(s, pat) {
        ReplaceSelf(s[|pat|..], pat);
        assert s == pat + s[|pat|..];
      } else {
        ReplaceSelf(s[1..], pat);
        assert s == [s[0]] + s[1..];
      }
    }
  }

  // ---------------------------------------------------------------------
  // split and join

  /** Joining the pieces of a split with the same separator gives back `s`. */
  lemma SplitJoin(s: string, sep: string)
    requires |sep| > 0
    ensures Join(sep, Split(s, sep)) == s
  {
    ReplaceIsJoinOfSplit(s, sep, sep);
    ReplaceSelf(s, sep);
  }

  /** A split has one more piece than there are occurrences of the separator. */
  lemma {:induction false} SplitCount(s: string, sep: string)
    requires |sep| > 0
    ensures |Split(s, sep)| == 1 + Occurrences(s, sep)
    decreases |s|
  {
    if |s| > 0 {
      if StartsWith(s, sep) {
        SplitCount(s[|sep|..], sep);
      } else {
        SplitCount(s[1..], sep);
      }
    }
  }

  /** For a one-character separator the occurrences are the character's count. */
  lemma {:induction false} OccurrencesOfChar(s: string, c: char)
    ensures Occurrences(s, [c]) == CountChar(s, c)
    decreases |s|
  {
    if |s| > 0 {
      OccurrencesOfChar(s[1..], c);
      assert StartsWith(s, [c]) <==> s[0] == c;
    }
  }

  /** No piece of a split contains the separator. */
  lemma {:induction false} SplitPiecesFree(s: string, sep: string)
    requires |sep| > 0
    ensures forall i :: 0 <= i < |Split(s, sep)| ==> !Contains(Split(s, sep)[i], sep)
    decreases |s|
  {
    var parts := Split(s, sep);
    if |s| == 0 {
      assert !Contains("", sep);
    } else if StartsWith(s, sep) {
      SplitPiecesFree(s[|sep|..], sep);
      assert !Contains("", sep);
      forall i | 0 < i < |parts| ensures !Contains(parts[i], sep) {
        assert parts[i] == Split(s[|sep|..], sep)[i - 1];
      }
    } else {
      var rest := Split(s[1..], sep);
      SplitPiecesFree(s[1..], sep);
      var first := [s[0]] + rest[0];
      assert first[1..] == rest[0];
      assert StartsWith(s, first);
      assert !StartsWith(first, sep);
      assert !Contains(first, sep);
      forall i | 0 < i < |parts| ensures !Contains(parts[i], sep) {
        assert parts[i] == rest[i];
      }
    }
  }

  /** A piece without the separator character, followed by it, is split off whole. */
  lemma {:induction false} SplitFirstPiece(a: string, rest: string, c: char)
    requires c !in a
    ensures Split(a + [c] + rest, [c]) == [a] + Split(rest, [c])
    decreases |a|
  {
    var s := a + [c] + rest;
    if |a| == 0 {
      assert s == [c] + rest;
      assert s[1..] == rest;
    } else {
      assert s[0] == a[0];
      assert !StartsWith(s, [c]);
      assert s[1..] == a[1..] + [c] + rest;
      assert c !in a[1..] by { assert forall x :: x in a[1..] ==> x in a; }
      SplitFirstPiece(a[1..], rest, c);
      assert [a[0]] + a[1..] == a;
    }
  }

  /** A string without the separator character splits into itself alone. */
  lemma {:induction false} SplitWithoutSeparator(s: string, c: char)
    requires c !in s
    ensures Split(s, [c]) == [s]
    decreases |s|
  {
    if |s| > 0 {
      assert !StartsWith(s, [c]) by { assert s[0] in s; }
      assert c !in s[1..] by { assert forall x :: x in s[1..] ==> x in s; }
      SplitWithoutSeparator(s[1..], c);
      assert [s[0]] + s[1..] == s;
    }
  }

  /** A one-character string occurs in `s` exactly when that character does. */
  lemma {:induction false} ContainsChar(s: string, c: char)
    ensures Contains(s, [c]) <==> c in s
    decreases |s|
  {
    if |s| > 0 {
      ContainsChar(s[1..], c);
      assert s == [s[0]] + s[1..];
      assert StartsWith(s, [c]) <==> s[0] == c;
    }
  }
}
