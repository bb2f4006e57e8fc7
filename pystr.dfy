/**
 * The pieces of Python's built-in `str` behaviour that the ingestion and
 * answering code relies on: `str.split()` with no argument, `str.split(sep)`,
 * `sep.join(parts)`, `str.strip()` and `str(n)` for a non-negative int.
 * A Dafny `char` is a Unicode scalar value, so Python strings that hold a
 * lone surrogate (U+D800 to U+DFFF) are outside the model.
 */
module PyStr {

  /** Python's `str.isspace()` on one character: the characters that
      `split()` with no argument splits on and that `strip()` removes. */
  predicate IsSpace(c: char) {
    ('\U{0009}' <= c <= '\U{000D}') || ('\U{001C}' <= c <= '\U{0020}') ||
    c == '\U{0085}' || c == '\U{00A0}' || c == '\U{1680}' ||
    ('\U{2000}' <= c <= '\U{200A}') || c == '\U{2028}' || c == '\U{2029}' ||
    c == '\U{202F}' || c == '\U{205F}' || c == '\U{3000}'
  }

  predicate AllSpace(s: string) {
    forall i :: 0 <= i < |s| ==> IsSpace(s[i])
  }

  predicate NoSpace(s: string) {
    forall i :: 0 <= i < |s| ==> !IsSpace(s[i])
  }

  /** A word, as `split()` produces them: non-empty, without whitespace. */
  predicate IsWord(w: string) {
    |w| > 0 && NoSpace(w)
  }

  predicate AllWords(ws: seq<string>) {
    forall i :: 0 <= i < |ws| ==> IsWord(ws[i])
  }

  // ---------------------------------------------------------------------
  // str.split() with no argument

  /** Length of the run of non-whitespace characters at the front of `s`. */
  function WordLength(s: string): (n: nat)
    ensures n <= |s|
    ensures NoSpace(s[..n])
    ensures n < |s| ==> IsSpace(s[n])
  {
    if s == [] || IsSpace(s[0]) then 0
    else
      var n := 1 + WordLength(s[1..]);
      assert s[..n] == [s[0]] + s[1..][..n - 1];
      n
  }

  /** `s.split()`: the maximal runs of non-whitespace characters, in order. */
  function Words(s: string): (ws: seq<string>)
    ensures AllWords(ws)
    decreases |s|
  {
    if s == [] then []
    else if IsSpace(s[0]) then Words(s[1..])
    else
      var n := WordLength(s);
      [s[..n]] + Words(s[n..])
  }

  lemma {:induction false} WordLengthOfWord(w: string, rest: string)
    requires NoSpace(w)
    requires rest == [] || IsSpace(rest[0])
    ensures WordLength(w + rest) == |w|
  {
    if w != [] {
      assert (w + rest)[1..] == w[1..] + rest;
      WordLengthOfWord(w[1..], rest);
    }
  }

  /** A word followed by nothing or by whitespace is the first word. */
  lemma WordsOfWordThenRest(w: string, rest: string)
    requires IsWord(w)
    requires rest == [] || IsSpace(rest[0])
    ensures Words(w + rest) == [w] + Words(rest)
  {
    WordLengthOfWord(w, rest);
    assert (w + rest)[..|w|] == w;
    assert (w + rest)[|w|..] == rest;
  }

  /** `s.split()` returns `[]` exactly when `s` is empty or all whitespace. */
  lemma {:induction false} WordsEmptyIff(s: string)
    ensures Words(s) == [] <==> AllSpace(s)
    decreases |s|
  {
    if s != [] {
      WordsEmptyIff(s[1..]);
      if IsSpace(s[0]) {
        assert AllSpace(s) <==> AllSpace(s[1..]) by {
          if AllSpace(s[1..]) {
            forall i | 0 <= i < |s| ensures IsSpace(s[i]) {
              if i > 0 { assert s[i] == s[1..][i - 1]; }
            }
          }
        }
      }
    }
  }

  // ---------------------------------------------------------------------
  // sep.join(parts)

  /** `sep.join(parts)`. */
  function Join(sep: string, parts: seq<string>): string
    decreases |parts|
  {
    if |parts| == 0 then ""
    else if |parts| == 1 then parts[0]
    else parts[0] + sep + Join(sep, parts[1..])
  }

  lemma {:induction false} JoinStartsWithFirst(sep: string, parts: seq<string>)
    requires |parts| > 0
    ensures |parts[0]| <= |Join(sep, parts)|
    ensures Join(sep, parts)[..|parts[0]|] == parts[0]
  {
  }

  /** Joining words with single spaces and splitting again gives the words
      back: `" ".join(ws).split() == ws`. */
  lemma {:induction false} WordsOfJoin(ws: seq<string>)
    requires AllWords(ws)
    ensures Words(Join(" ", ws)) == ws
    decreases |ws|
  {
    if |ws| == 1 {
      WordsOfWordThenRest(ws[0], "");
      assert ws[0] + "" == ws[0];
    } else if |ws| > 1 {
      var rest := Join(" ", ws[1..]);
      assert AllWords(ws[1..]) by {
        forall i | 0 <= i < |ws| - 1 ensures IsWord(ws[1..][i]) { assert ws[1..][i] == ws[i + 1]; }
      }
      WordsOfJoin(ws[1..]);
      assert Join(" ", ws) == ws[0] + (" " + rest);
      WordsOfWordThenRest(ws[0], " " + rest);
      assert (" " + rest)[1..] == rest;
      assert ws == [ws[0]] + ws[1..];
    }
  }

  // ---------------------------------------------------------------------
  // Substring search

  predicate StartsWith(s: string, prefix: string) {
    |prefix| <= |s| && s[..|prefix|] == prefix
  }

  predicate EndsWith(s: string, suffix: string) {
    |suffix| <= |s| && s[|s| - |suffix|..] == suffix
  }

  /** `p in s`: some position of `s` starts an occurrence of `p`. */
  predicate Contains(s: string, p: string)
    decreases |s|
  {
    StartsWith(s, p) || (s != [] && Contains(s[1..], p))
  }

  lemma {:induction false} ShortNotContains(s: string, p: string)
    requires |s| < |p|
    ensures !Contains(s, p)
    decreases |s|
  {
    if s != [] { ShortNotContains(s[1..], p); }
  }

  /** `s` occurs in `a + s + b`. */
  lemma {:induction false} ContainsInfix(a: string, s: string, b: string)
    ensures Contains(a + s + b, s)
    decreases |a|
  {
    if a == [] {
      assert (a + s + b)[..|s|] == s;
    } else {
      assert (a + s + b)[1..] == a[1..] + s + b;
      ContainsInfix(a[1..], s, b);
    }
  }

  /** An occurrence in a prefix is an occurrence in the whole string. */
  lemma {:induction false} ContainsExtend(s: string, c: char, p: string)
    requires Contains(s, p)
    ensures Contains(s + [c], p)
    decreases |s|
  {
    if StartsWith(s, p) {
      assert (s + [c])[..|p|] == s[..|p|];
    } else {
      assert (s + [c])[1..] == s[1..] + [c];
      ContainsExtend(s[1..], c, p);
    }
  }

  /** Characters that cannot start `p` cannot hide an occurrence of it. */
  lemma {:induction false} ContainsSkipPrefix(x: string, y: string, p: string)
    requires |p| > 0
    requires forall i :: 0 <= i < |x| ==> x[i] != p[0]
    ensures Contains(x + y, p) <==> Contains(y, p)
    decreases |x|
  {
    if x != [] {
      assert (x + y)[0] == x[0];
      assert (x + y)[1..] == x[1..] + y;
      ContainsSkipPrefix(x[1..], y, p);
    } else {
      assert x + y == y;
    }
  }

  // ---------------------------------------------------------------------
  // str.split(sep)

  /** `s.split(sep)` for a non-empty `sep`: scanning left to right, every
      occurrence of `sep` that does not overlap an earlier one ends a piece. */
  function SplitOn(s: string, sep: string): (pieces: seq<string>)
    requires |sep| > 0
    ensures |pieces| >= 1
    decreases |s|
  {
    if |s| < |sep| then [s]
    else if s[..|sep|] == sep then [""] + SplitOn(s[|sep|..], sep)
    else
      var rest := SplitOn(s[1..], sep);
      [[s[0]] + rest[0]] + rest[1..]
  }

  lemma {:induction false} JoinConsHead(sep: string, c: char, rest: seq<string>)
    requires |rest| >= 1
    ensures Join(sep, [[c] + rest[0]] + rest[1..]) == [c] + Join(sep, rest)
  {
    var ps := [[c] + rest[0]] + rest[1..];
    if |rest| > 1 {
      assert ps[1..] == rest[1..];
    }
  }

  /** `sep.join(s.split(sep)) == s`. */
  lemma {:induction false} JoinSplitOn(s: string, sep: string)
    requires |sep| > 0
    ensures Join(sep, SplitOn(s, sep)) == s
    decreases |s|
  {
    if |s| < |sep| {
    } else if s[..|sep|] == sep {
      var rest := SplitOn(s[|sep|..], sep);
      JoinSplitOn(s[|sep|..], sep);
      assert ([""] + rest)[1..] == rest;
      assert s == s[..|sep|] + s[|sep|..];
    } else {
      var rest := SplitOn(s[1..], sep);
      JoinSplitOn(s[1..], sep);
      JoinConsHead(sep, s[0], rest);
      assert s == [s[0]] + s[1..];
    }
  }

  /** `s.split(sep)[-1]`. */
  function LastPiece(s: string, sep: string): string
    requires |sep| > 0
  {
    var pieces := SplitOn(s, sep);
    pieces[|pieces| - 1]
  }

  lemma {:induction false} NoSeparatorOnePiece(s: string, sep: string)
    requires |sep| > 0
    requires !Contains(s, sep)
    ensures SplitOn(s, sep) == [s]
    decreases |s|
  {
    if |s| >= |sep| {
      assert !StartsWith(s, sep);
      NoSeparatorOnePiece(s[1..], sep);
      assert s == [s[0]] + s[1..];
    }
  }

  lemma LastPieceFront(s: string, sep: string)
    requires |sep| > 0 && StartsWith(s, sep)
    ensures LastPiece(s, sep) == LastPiece(s[|sep|..], sep)
  {
  }

  /** One step of `s.split(sep)[-1]`, read off the definition of the split. */
  lemma LastPieceStep(s: string, sep: string)
    requires |sep| > 0
    ensures |s| < |sep| ==> LastPiece(s, sep) == s
    ensures StartsWith(s, sep) ==> LastPiece(s, sep) == LastPiece(s[|sep|..], sep)
    ensures |s| >= |sep| && !StartsWith(s, sep) ==>
      LastPiece(s, sep) == if |SplitOn(s[1..], sep)| == 1 then s else LastPiece(s[1..], sep)
  {
    if StartsWith(s, sep) {
      LastPieceFront(s, sep);
    } else if |s| >= |sep| {
      LastPieceStepScan(s, sep);
    }
  }

  lemma LastPieceStepScan(s: string, sep: string)
    requires |sep| > 0
    requires |s| >= |sep| && !StartsWith(s, sep)
    ensures LastPiece(s, sep) == if |SplitOn(s[1..], sep)| == 1 then s else LastPiece(s[1..], sep)
  {
    var rest := SplitOn(s[1..], sep);
    var pieces := [[s[0]] + rest[0]] + rest[1..];
    assert SplitOn(s, sep) == pieces;
    if |rest| == 1 {
      JoinSplitOn(s[1..], sep);
      assert rest[0] == s[1..];
      assert s == [s[0]] + s[1..];
    } else {
      assert pieces[|pieces| - 1] == rest[|rest| - 1];
    }
  }

  lemma {:induction false} LastPieceIsSuffix(s: string, sep: string)
    requires |sep| > 0
    ensures EndsWith(s, LastPiece(s, sep))
    decreases |s|
  {
    LastPieceStep(s, sep);
    var piece := LastPiece(s, sep);
    if |s| >= |sep| {
      var t := if StartsWith(s, sep) then s[|sep|..] else s[1..];
      LastPieceIsSuffix(t, sep);
      if piece != s {
        assert piece == LastPiece(t, sep);
        assert s[|s| - |piece|..] == t[|t| - |piece|..];
      }
    }
  }

  lemma {:induction false} LastPieceHasNoSeparator(s: string, sep: string)
    requires |sep| > 0
    ensures !Contains(LastPiece(s, sep), sep)
    decreases |s|
  {
    LastPieceStep(s, sep);
    if |s| < |sep| {
      ShortNotContains(s, sep);
    } else if StartsWith(s, sep) {
      LastPieceHasNoSeparator(s[|sep|..], sep);
    } else {
      var t := s[1..];
      LastPieceHasNoSeparator(t, sep);
      if |SplitOn(t, sep)| == 1 {
        JoinSplitOn(t, sep);
      }
    }
  }

  /** Cutting `k` characters off the end of `p + t` keeps a `sep` that
      ended what was left of `t`, or that ended `p` when all of `t` goes. */
  lemma EndsWithBeforeCut(p: string, t: string, k: nat, sep: string)
    requires k <= |t|
    requires EndsWith(t[..|t| - k], sep) || (k == |t| && EndsWith(p, sep))
    ensures EndsWith((p + t)[..|p + t| - k], sep)
  {
    var x := t[..|t| - k];
    assert (p + t)[..|p + t| - k] == p + x;
    if EndsWith(x, sep) {
      assert (p + x)[|p + x| - |sep|..] == x[|x| - |sep|..];
    } else {
      assert p + x == p;
    }
  }

  /** `EndsWithBeforeCut` for `s` split after its prefix `pre`. */
  lemma CutKeepsSeparator(s: string, sep: string, pre: string, k: nat)
    requires StartsWith(s, pre)
    requires k <= |s| - |pre|
    requires EndsWith(s[|pre|..][..|s| - |pre| - k], sep) || (k == |s| - |pre| && EndsWith(pre, sep))
    ensures EndsWith(s[..|s| - k], sep)
  {
    var t := s[|pre|..];
    assert s == pre + t;
    EndsWithBeforeCut(pre, t, k, sep);
  }

  /** A string holding the separator splits into more than one piece. */
  lemma SeveralPieces(t: string, sep: string)
    requires |sep| > 0
    requires Contains(t, sep)
    ensures |SplitOn(t, sep)| > 1
  {
    LastPieceHasNoSeparator(t, sep);
    if |SplitOn(t, sep)| == 1 {
      JoinSplitOn(t, sep);
      assert false;
    }
  }

  /** Where the separator occurs, the last piece is preceded by it. */
  lemma {:induction false} LastPieceFollowsSeparator(s: string, sep: string)
    requires |sep| > 0
    requires Contains(s, sep)
    ensures |LastPiece(s, sep)| <= |s|
    ensures EndsWith(s[..|s| - |LastPiece(s, sep)|], sep)
    decreases |s|, 1
  {
    if |s| < |sep| {
      ShortNotContains(s, sep);
    } else if StartsWith(s, sep) {
      LastPieceFollowsFront(s, sep);
    } else {
      LastPieceFollowsLater(s, sep);
    }
  }

  /** `LastPieceFollowsSeparator` for a string starting with the separator. */
  lemma {:induction false} LastPieceFollowsFront(s: string, sep: string)
    requires |sep| > 0 && StartsWith(s, sep)
    ensures |LastPiece(s, sep)| <= |s|
    ensures EndsWith(s[..|s| - |LastPiece(s, sep)|], sep)
    decreases |s|, 0
  {
    var t := s[|sep|..];
    LastPieceFront(s, sep);
    LastPieceWholeOrFollows(t, sep);
    CutKeepsSeparator(s, sep, sep, |LastPiece(t, sep)|);
  }

  /** The last piece is the whole string or follows a separator. */
  lemma {:induction false} LastPieceWholeOrFollows(t: string, sep: string)
    requires |sep| > 0
    ensures |LastPiece(t, sep)| <= |t|
    ensures LastPiece(t, sep) == t || EndsWith(t[..|t| - |LastPiece(t, sep)|], sep)
    decreases |t|, 2
  {
    LastPieceIsSuffix(t, sep);
    if Contains(t, sep) {
      LastPieceFollowsSeparator(t, sep);
    } else {
      NoSeparatorOnePiece(t, sep);
    }
  }

  /** `LastPieceFollowsSeparator` for a string holding the separator but not
      starting with it. */
  lemma {:induction false} LastPieceFollowsLater(s: string, sep: string)
    requires |sep| > 0 && |s| >= |sep| && !StartsWith(s, sep)
    requires Contains(s, sep)
    ensures |LastPiece(s, sep)| <= |s|
    ensures EndsWith(s[..|s| - |LastPiece(s, sep)|], sep)
    decreases |s|, 0
  {
    var t := s[1..];
    assert Contains(t, sep);
    LastPieceFollowsSeparator(t, sep);
    SeveralPieces(t, sep);
    LastPieceLater(s, sep);
    CutKeepsSeparator(s, sep, s[..1], |LastPiece(t, sep)|);
  }

  lemma LastPieceLater(s: string, sep: string)
    requires |sep| > 0 && |s| >= |sep| && !StartsWith(s, sep)
    requires |SplitOn(s[1..], sep)| > 1
    ensures LastPiece(s, sep) == LastPiece(s[1..], sep)
  {
    LastPieceStepScan(s, sep);
  }

  /** `s.split(sep)[-1]` is the part of `s` after the last occurrence of
      `sep`: a suffix of `s` holding no occurrence of `sep`, which is all of
      `s` when `sep` does not occur and is preceded by `sep` when it does. */
  lemma LastPieceIsAfterLastSeparator(s: string, sep: string)
    requires |sep| > 0
    ensures EndsWith(s, LastPiece(s, sep))
    ensures !Contains(LastPiece(s, sep), sep)
    ensures !Contains(s, sep) ==> LastPiece(s, sep) == s
    ensures Contains(s, sep) ==> EndsWith(s[..|s| - |LastPiece(s, sep)|], sep)
  {
    LastPieceIsSuffix(s, sep);
    LastPieceHasNoSeparator(s, sep);
    if Contains(s, sep) {
      LastPieceFollowsSeparator(s, sep);
    } else {
      NoSeparatorOnePiece(s, sep);
    }
  }

  /** A separator whose first character occurs nowhere else in it cannot
      overlap itself. */
  predicate Unbordered(sep: string) {
    |sep| > 0 && forall k :: 1 <= k < |sep| ==> sep[k] != sep[0]
  }

  lemma UnborderedNoOverlap(sep: string, s: string, k: nat)
    requires Unbordered(sep)
    requires 0 < k < |sep|
    requires StartsWith(s, sep)
    ensures !StartsWith(s[k..], sep)
  {
    assert s[k] == sep[k];
  }

  /** For such a separator, whatever follows its last occurrence is the last
      piece of the split. */
  lemma {:induction false} LastPieceAfterSeparator(a: string, sep: string, t: string)
    requires Unbordered(sep)
    requires !Contains(t, sep)
    ensures LastPiece(a + sep + t, sep) == t
    decreases |a|
  {
    var s := a + sep + t;
    assert |s| >= |sep|;
    if s[..|sep|] == sep {
      if a == [] {
        assert s[|sep|..] == t;
        NoSeparatorOnePiece(t, sep);
      } else if |a| < |sep| {
        assert s[|a|..][..|sep|] == sep;
        UnborderedNoOverlap(sep, s, |a|);
        assert false;
      } else {
        assert a[..|sep|] == s[..|sep|];
        assert s[|sep|..] == a[|sep|..] + sep + t;
        LastPieceAfterSeparator(a[|sep|..], sep, t);
      }
    } else {
      if a == [] {
        assert false;
      }
      assert s[1..] == a[1..] + sep + t;
      LastPieceAfterSeparator(a[1..], sep, t);
      var rest := SplitOn(s[1..], sep);
      if |rest| == 1 {
        JoinSplitOn(s[1..], sep);
        assert false;
      }
    }
  }

  /** Without the restriction the statement is false: nothing follows the
      last `"aa"` in `"a" + "aa"`, yet `"aaa".split("aa")` is `["", "a"]`,
      because the scan takes the first two characters as the separator. */
  lemma OverlappingSeparatorLastPiece()
    ensures !Contains("", "aa")
    ensures LastPiece("a" + "aa" + "", "aa") == "a"
  {
    assert "a" + "aa" + "" == "aaa";
    assert "aaa"[..2] == "aa" && "aaa"[2..] == "a";
    assert SplitOn("a", "aa") == ["a"];
    assert SplitOn("aaa", "aa") == ["", "a"];
  }

  // ---------------------------------------------------------------------
  // str.strip()

  lemma AllSpaceConcat(a: string, b: string)
    requires AllSpace(a) && AllSpace(b)
    ensures AllSpace(a + b)
  {
    forall i | 0 <= i < |a + b| ensures IsSpace((a + b)[i]) {
      if i >= |a| { assert (a + b)[i] == b[i - |a|]; }
    }
  }

  /** `s.lstrip()`: what follows the leading whitespace of `s`. */
  function LeftStrip(s: string): (r: string)
    ensures EndsWith(s, r)
    ensures AllSpace(s[..|s| - |r|])
    ensures r == [] || !IsSpace(r[0])
    decreases |s|
  {
    if s != [] && IsSpace(s[0]) then
      var r := LeftStrip(s[1..]);
      assert s[|s| - |r|..] == s[1..][|s| - 1 - |r|..];
      assert s[..|s| - |r|] == [s[0]] + s[1..][..|s| - 1 - |r|];
      AllSpaceConcat([s[0]], s[1..][..|s| - 1 - |r|]);
      r
    else s
  }

  /** `s.rstrip()`: what precedes the trailing whitespace of `s`. */
  function RightStrip(s: string): (r: string)
    ensures StartsWith(s, r)
    ensures AllSpace(s[|r|..])
    ensures r == [] || !IsSpace(r[|r| - 1])
    decreases |s|
  {
    if s != [] && IsSpace(s[|s| - 1]) then
      var init := s[..|s| - 1];
      var r := RightStrip(init);
      assert s[|r|..] == init[|r|..] + [s[|s| - 1]];
      AllSpaceConcat(init[|r|..], [s[|s| - 1]]);
      r
    else s
  }

  /** `r` is a slice of `s` with only whitespace before and after it. */
  predicate TrimmedFrom(r: string, s: string) {
    exists i :: (0 <= i <= |s| - |r| && r == s[i..i + |r|] &&
                 AllSpace(s[..i]) && AllSpace(s[i + |r|..]))
  }

  /** Neither end of `s` is whitespace. */
  predicate IsStripped(s: string) {
    s == [] || (!IsSpace(s[0]) && !IsSpace(s[|s| - 1]))
  }

  /** `s.strip()`: the part of `s` between its leading and its trailing
      whitespace, which has no whitespace at either end. */
  function Strip(s: string): (r: string)
    ensures IsStripped(r)
    ensures TrimmedFrom(r, s)
  {
    var l := LeftStrip(s);
    var r := RightStrip(l);
    assert r != [] ==> r[0] == l[0];
    StripSlice(s, l, r);
    r
  }

  /** Whitespace cut off the front and then off the back leaves a slice with
      only whitespace around it. */
  lemma StripSlice(s: string, l: string, r: string)
    requires EndsWith(s, l) && AllSpace(s[..|s| - |l|])
    requires StartsWith(l, r) && AllSpace(l[|r|..])
    ensures TrimmedFrom(r, s)
  {
    var i := |s| - |l|;
    assert l == s[i..];
    assert r == s[i..i + |r|];
    assert s[i + |r|..] == l[|r|..];
  }

  lemma {:induction false} RightStripKeeps(s: string, p: string)
    requires !Contains(s, p)
    ensures !Contains(RightStrip(s), p)
    decreases |s|
  {
    if s != [] && IsSpace(s[|s| - 1]) {
      var init := s[..|s| - 1];
      assert s == init + [s[|s| - 1]];
      if Contains(init, p) { ContainsExtend(init, s[|s| - 1], p); }
      RightStripKeeps(init, p);
    }
  }

  lemma {:induction false} LeftStripKeeps(s: string, p: string)
    requires !Contains(s, p)
    ensures !Contains(LeftStrip(s), p)
    decreases |s|
  {
    if s != [] && IsSpace(s[0]) { LeftStripKeeps(s[1..], p); }
  }

  /** Stripping cannot create an occurrence of `p`. */
  lemma StripKeepsAbsence(s: string, p: string)
    requires !Contains(s, p)
    ensures !Contains(Strip(s), p)
  {
    LeftStripKeeps(s, p);
    RightStripKeeps(LeftStrip(s), p);
  }

  /** Leading whitespace makes no difference to `strip()`. */
  lemma {:induction false} StripSkipsSpace(w: string, s: string)
    requires AllSpace(w)
    ensures Strip(w + s) == Strip(s)
    decreases |w|
  {
    if w != [] {
      assert (w + s)[1..] == w[1..] + s;
      StripSkipsSpace(w[1..], s);
    } else {
      assert w + s == s;
    }
  }

  /** `strip()` leaves a stripped string as it is, so it is idempotent. */
  lemma StripStripped(s: string)
    requires IsStripped(s)
    ensures Strip(s) == s
  {
  }

  // ---------------------------------------------------------------------
  // str(n) for n >= 0

  predicate IsDigit(c: char) {
    '0' <= c <= '9'
  }

  function DigitChar(d: nat): (c: char)
    requires d < 10
    ensures IsDigit(c)
    ensures c as int - '0' as int == d
  {
    ('0' as int + d) as char
  }

  /** `str(n)`: the decimal digits of `n`, most significant first. */
  function NatToString(n: nat): (s: string)
    ensures |s| >= 1
    ensures forall i :: 0 <= i < |s| ==> IsDigit(s[i])
  {
    if n < 10 then [DigitChar(n)] else NatToString(n / 10) + [DigitChar(n % 10)]
  }

  /** The number a string of decimal digits denotes. */
  function DecimalValue(s: string): nat
    requires forall i :: 0 <= i < |s| ==> IsDigit(s[i])
  {
    if s == [] then 0
    else
      assert IsDigit(s[|s| - 1]);
      DecimalValue(s[..|s| - 1]) * 10 + (s[|s| - 1] as int - '0' as int)
  }

  /** Reading back the digits `str(n)` produces gives `n`. */
  lemma {:induction false} DecimalValueOfNatToString(n: nat)
    ensures DecimalValue(NatToString(n)) == n
  {
    if n >= 10 {
      var s := NatToString(n);
      assert s[..|s| - 1] == NatToString(n / 10);
      DecimalValueOfNatToString(n / 10);
    }
  }

  /** Distinct numbers have distinct decimal strings. */
  lemma NatToStringInjective(a: nat, b: nat)
    requires NatToString(a) == NatToString(b)
    ensures a == b
  {
    DecimalValueOfNatToString(a);
    DecimalValueOfNatToString(b);
  }
}
