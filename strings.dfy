/**
  The handful of Python `str` operations the pipeline is built from, stated
  once: whitespace classification, `split(sep)`, `split()`, `sep.join`,
  `strip()`, `replace`, `in`, `startswith`, `lower()` and `capitalize()`.
  Letter and digit classification is ASCII (see README, "Left out");
  whitespace follows CPython's `str.isspace()` exactly.
*/
module Strings {
  import opened Wrappers

  // ---------------------------------------------------------------- characters

  /** CPython's `str.isspace()` for one code point (also what `\s` and `split()` use). */
  predicate IsSpace(c: char) {
    || ('\t' <= c <= '\r')
    || ('\U{1C}' <= c <= '\U{1F}')
    || c == ' '
    || c == '\U{85}'
    || c == '\U{A0}'
    || c == '\U{1680}'
    || ('\U{2000}' <= c <= '\U{200A}')
    || c == '\U{2028}'
    || c == '\U{2029}'
    || c == '\U{202F}'
    || c == '\U{205F}'
    || c == '\U{3000}'
  }

  predicate IsDigit(c: char) { '0' <= c <= '9' }
  predicate IsUpperChar(c: char) { 'A' <= c <= 'Z' }
  predicate IsLowerChar(c: char) { 'a' <= c <= 'z' }
  predicate IsAlnum(c: char) { IsDigit(c) || IsUpperChar(c) || IsLowerChar(c) }

  function ToLowerChar(c: char): (r: char)
    ensures !IsUpperChar(r)
    ensures IsAlnum(r) <==> IsAlnum(c)
    ensures IsSpace(r) <==> IsSpace(c)
  {
    if IsUpperChar(c) then (c as int + 32) as char else c
  }

  function ToUpperChar(c: char): (r: char)
    ensures !IsLowerChar(r)
    ensures IsSpace(r) <==> IsSpace(c)
  {
    if IsLowerChar(c) then (c as int - 32) as char else c
  }

  /** `s.lower()`. */
  function Lower(s: string): (r: string)
    ensures |r| == |s|
    ensures forall i :: 0 <= i < |r| ==> r[i] == ToLowerChar(s[i])
  {
    seq(|s|, i requires 0 <= i < |s| => ToLowerChar(s[i]))
  }

  /** `s.isupper()`: at least one cased character and no lower-case one. */
  predicate IsUpperStr(s: string) {
    && (exists i :: 0 <= i < |s| && IsUpperChar(s[i]))
    && (forall i :: 0 <= i < |s| ==> !IsLowerChar(s[i]))
  }

  /** `p.capitalize()`: first character upper-cased, the rest lower-cased. */
  function Capitalize(p: string): (r: string)
    ensures |r| == |p|
    ensures |p| > 0 ==> r[0] == ToUpperChar(p[0]) && r[1..] == Lower(p[1..])
  {
    if p == [] then [] else [ToUpperChar(p[0])] + Lower(p[1..])
  }

  /** The characters of `s` that satisfy `keep`, in order. */
  function Filter(s: string, keep: char -> bool): (r: string)
    ensures |r| <= |s|
    ensures forall i :: 0 <= i < |r| ==> keep(r[i])
  {
    if s == [] then [] else (if keep(s[0]) then [s[0]] else []) + Filter(s[1..], keep)
  }

  lemma {:induction false} FilterAppend(a: string, b: string, keep: char -> bool)
    ensures Filter(a + b, keep) == Filter(a, keep) + Filter(b, keep)
  {
    if a == [] {
      assert a + b == b;
    } else {
      assert (a + b)[0] == a[0];
      assert (a + b)[1..] == a[1..] + b;
      FilterAppend(a[1..], b, keep);
    }
  }

  lemma {:induction false} FilterAll(s: string, keep: char -> bool)
    requires forall i :: 0 <= i < |s| ==> keep(s[i])
    ensures Filter(s, keep) == s
  {
    if s != [] {
      FilterAll(s[1..], keep);
    }
  }

  // --------------------------------------------------------------- substrings

  /** `pat` occurs in `s` starting at index `j`. */
  predicate OccursAt(s: string, pat: string, j: nat) {
    j + |pat| <= |s| && s[j..j + |pat|] == pat
  }

  /** `s.find(pat)`, as an option: the leftmost occurrence. */
  function IndexOf(s: string, pat: string): (r: Option<nat>)
    ensures r.Some? ==> OccursAt(s, pat, r.value)
    ensures r.Some? ==> forall j: nat :: j < r.value ==> !OccursAt(s, pat, j)
    ensures r.None? ==> forall j: nat :: !OccursAt(s, pat, j)
    decreases |s|
  {
    if |s| < |pat| then None
    else if s[..|pat|] == pat then Some(0)
    else
      match IndexOf(s[1..], pat)
      case None =>
        assert forall j: nat :: OccursAt(s, pat, j) && j > 0 ==> OccursAt(s[1..], pat, j - 1);
        None
      case Some(k) =>
        assert OccursAt(s[1..], pat, k);
        assert forall j: nat :: OccursAt(s, pat, j) && j > 0 ==> OccursAt(s[1..], pat, j - 1);
        Some(k + 1)
  }

  /** Python's `pat in s`. */
  predicate Contains(s: string, pat: string) {
    IndexOf(s, pat).Some?
  }

  lemma {:induction false} ContainsIff(s: string, pat: string)
    ensures Contains(s, pat) <==> exists j: nat :: OccursAt(s, pat, j)
  {
  }

  /** A one-character pattern occurs exactly where that character does. */
  lemma {:induction false} CharFree(s: string, c: char)
    ensures !Contains(s, [c]) <==> forall i :: 0 <= i < |s| ==> s[i] != c
  {
    ContainsIff(s, [c]);
    forall i | 0 <= i < |s| ensures OccursAt(s, [c], i) <==> s[i] == c {
      assert s[i..i + 1] == [s[i]];
    }
  }

  /** `s.startswith(pat)`. */
  predicate StartsWith(s: string, pat: string) {
    |pat| <= |s| && s[..|pat|] == pat
  }

  // ------------------------------------------------------------- split / join

  /** `sep.join(parts)`. */
  function Join(parts: seq<string>, sep: string): string
  {
    if |parts| == 0 then ""
    else if |parts| == 1 then parts[0]
    else parts[0] + sep + Join(parts[1..], sep)
  }

  /** `s.split(sep)` for a non-empty separator: cut at the leftmost
      non-overlapping occurrences, keeping empty pieces. */
  function Split(s: string, sep: string): (parts: seq<string>)
    requires |sep| > 0
    ensures |parts| >= 1
    decreases |s|
  {
    match IndexOf(s, sep)
    case None => [s]
    case Some(i) => [s[..i]] + Split(s[i + |sep|..], sep)
  }

  /** Splitting and re-joining with the same separator gives the string back. */
  lemma {:induction false} JoinSplit(s: string, sep: string)
    requires |sep| > 0
    ensures Join(Split(s, sep), sep) == s
    decreases |s|
  {
    var found := IndexOf(s, sep);
    if found.Some? {
      var i := found.value;
      var rest := s[i + |sep|..];
      JoinSplit(rest, sep);
      var tail := Split(rest, sep);
      assert Split(s, sep) == [s[..i]] + tail;
      JoinCons(s[..i], tail, sep);
      assert s[i..i + |sep|] == sep;
      assert s == s[..i] + s[i..i + |sep|] + rest by {
        assert s == s[..i] + s[i..];
        assert s[i..] == s[i..i + |sep|] + rest;
      }
    } else {
      assert Split(s, sep) == [s];
    }
  }

  lemma {:induction false} JoinCons(head: string, tail: seq<string>, sep: string)
    requires |tail| > 0
    ensures Join([head] + tail, sep) == head + sep + Join(tail, sep)
  {
    assert ([head] + tail)[1..] == tail;
  }

  /** No piece of a split contains the separator. */
  lemma {:induction false} SplitPiecesFree(s: string, sep: string)
    requires |sep| > 0
    ensures forall k :: 0 <= k < |Split(s, sep)| ==> !Contains(Split(s, sep)[k], sep)
    decreases |s|
  {
    match IndexOf(s, sep)
    case None =>
    case Some(i) =>
      var rest := s[i + |sep|..];
      SplitPiecesFree(rest, sep);
      BeforeFirstFree(s, sep, i);
      var parts, tail := Split(s, sep), Split(rest, sep);
      assert parts == [s[..i]] + tail;
      forall k | 0 < k < |parts| ensures !Contains(parts[k], sep) {
        assert parts[k] == tail[k - 1];
      }
  }

  /** Nothing before the leftmost occurrence contains the separator. */
  lemma {:induction false} BeforeFirstFree(s: string, sep: string, i: nat)
    requires |sep| > 0 && IndexOf(s, sep) == Some(i)
    ensures !Contains(s[..i], sep)
  {
    var head := s[..i];
    if Contains(head, sep) {
      var j := IndexOf(head, sep).value;
      assert OccursAt(head, sep, j);
      assert j + |sep| <= i;
      forall k | 0 <= k < |sep| ensures s[j..j + |sep|][k] == sep[k] {
        assert s[j + k] == head[j + k];
      }
      assert s[j..j + |sep|] == sep;
      assert OccursAt(s, sep, j);
      assert false;
    }
  }

  /** Without an occurrence of the separator, splitting gives the whole string. */
  lemma {:induction false} SplitAbsent(s: string, sep: string)
    requires |sep| > 0 && !Contains(s, sep)
    ensures Split(s, sep) == [s]
  {
  }

  /** The first piece of a split is everything before the leftmost occurrence. */
  lemma {:induction false} SplitFirst(s: string, sep: string, i: nat)
    requires |sep| > 0 && IndexOf(s, sep) == Some(i)
    ensures |Split(s, sep)| >= 2
    ensures Split(s, sep)[0] == s[..i]
    ensures Split(s, sep)[1..] == Split(s[i + |sep|..], sep)
  {
    var tail := Split(s[i + |sep|..], sep);
    assert Split(s, sep) == [s[..i]] + tail;
    assert ([s[..i]] + tail)[1..] == tail;
  }

  /** The last element of a non-empty sequence (Python's `xs[-1]`). */
  function Last<T>(xs: seq<T>): T
    requires |xs| > 0
  {
    xs[|xs| - 1]
  }

  /** `s.split(c)[-1]`: the text after the last occurrence of `c`. */
  function LastSegment(s: string, c: char): (r: string)
  {
    Last(Split(s, [c]))
  }

  /** `LastSegment` is a suffix of its input free of `c`, and it is
      preceded by `c` whenever `c` occurs at all. */
  lemma {:induction false} LastSegmentSpec(s: string, c: char)
    ensures |LastSegment(s, c)| <= |s|
    ensures s[|s| - |LastSegment(s, c)|..] == LastSegment(s, c)
    ensures forall i :: 0 <= i < |LastSegment(s, c)| ==> LastSegment(s, c)[i] != c
    ensures (exists i :: 0 <= i < |s| && s[i] == c) ==>
              |LastSegment(s, c)| < |s| && s[|s| - |LastSegment(s, c)| - 1] == c
  {
    var r := LastSegment(s, c);
    LastPieceSpec(s, [c]);
    forall i | 0 <= i < |r| ensures r[i] != c {
      assert !OccursAt(r, [c], i);
      assert r[i..i + 1] == [r[i]];
    }
    if exists i :: 0 <= i < |s| && s[i] == c {
      var i :| 0 <= i < |s| && s[i] == c;
      assert s[i..i + 1] == [c];
      assert OccursAt(s, [c], i);
      LastSegmentPreceded(s, c);
    }
  }

  lemma {:induction false} LastSegmentPreceded(s: string, c: char)
    requires Contains(s, [c])
    ensures |LastSegment(s, c)| < |s| && s[|s| - |LastSegment(s, c)| - 1] == c
    decreases |s|
  {
    var k := IndexOf(s, [c]).value;
    var rest := s[k + 1..];
    LastSegmentAfterFirst(s, c, k);
    var r := LastSegment(rest, c);
    if Contains(rest, [c]) {
      LastSegmentPreceded(rest, c);
      assert s[|s| - |r| - 1] == rest[|rest| - |r| - 1];
    } else {
      SplitAbsent(rest, [c]);
      assert r == rest;
    }
  }

  /** The last segment is found after the first occurrence. */
  lemma {:induction false} LastSegmentAfterFirst(s: string, c: char, k: nat)
    requires IndexOf(s, [c]) == Some(k)
    ensures k < |s| && s[k] == c
    ensures LastSegment(s, c) == LastSegment(s[k + 1..], c)
  {
    SplitFirst(s, [c], k);
    assert OccursAt(s, [c], k);
    assert s[k..k + 1][0] == s[k];
  }

  /** After the only occurrence of `sep`, the last piece is what follows it. */
  lemma {:induction false} LastPieceAfterOnly(a: string, sep: string, d: string)
    requires |sep| > 0
    requires IndexOf(a + sep + d, sep) == Some(|a|) && !Contains(d, sep)
    ensures Last(Split(a + sep + d, sep)) == d
  {
    var link := a + sep + d;
    assert link[|a| + |sep|..] == d;
    SplitFirst(link, sep, |a|);
    SplitAbsent(d, sep);
  }

  /** `s.split(sep)[-1]` is a suffix of `s` free of `sep`. */
  lemma {:induction false} LastPieceSpec(s: string, sep: string)
    requires |sep| > 0
    ensures var r := Last(Split(s, sep));
      |r| <= |s| && s[|s| - |r|..] == r && !Contains(r, sep)
  {
    SplitPiecesFree(s, sep);
    LastPieceSuffix(s, sep);
  }

  lemma {:induction false} LastPieceSuffix(s: string, sep: string)
    requires |sep| > 0
    ensures var r := Last(Split(s, sep)); |r| <= |s| && s[|s| - |r|..] == r
    decreases |s|
  {
    match IndexOf(s, sep)
    case None =>
      assert Split(s, sep) == [s];
    case Some(k) =>
      var rest := s[k + |sep|..];
      LastPieceSuffix(rest, sep);
      LastPieceAfterFirst(s, sep, k);
      var r := Last(Split(rest, sep));
      SuffixOfSuffix(s, k + |sep|, |r|);
  }

  /** The last piece is found after the first occurrence. */
  lemma {:induction false} LastPieceAfterFirst(s: string, sep: string, k: nat)
    requires |sep| > 0 && IndexOf(s, sep) == Some(k)
    ensures k + |sep| <= |s|
    ensures Last(Split(s, sep)) == Last(Split(s[k + |sep|..], sep))
  {
    SplitFirst(s, sep, k);
    assert OccursAt(s, sep, k);
  }

  /** A suffix of a suffix is a suffix. */
  lemma {:induction false} SuffixOfSuffix(s: string, i: nat, n: nat)
    requires i + n <= |s|
    ensures s[|s| - n..] == s[i..][|s| - i - n..]
  {
  }

  /** An occurrence inside a slice is an occurrence in the whole string. */
  lemma {:induction false} ContainsSlice(s: string, i: nat, j: nat, pat: string)
    requires i <= j <= |s|
    requires Contains(s[i..j], pat)
    ensures Contains(s, pat)
  {
    var k := IndexOf(s[i..j], pat).value;
    assert OccursAt(s[i..j], pat, k);
    forall m | 0 <= m < |pat| ensures s[i + k..i + k + |pat|][m] == pat[m] {
      assert s[i + k + m] == s[i..j][k + m];
    }
    assert OccursAt(s, pat, i + k);
  }

  /** Stripping keeps a slice, so it cannot create an occurrence. */
  lemma {:induction false} StripKeepsFree(s: string, pat: string)
    requires !Contains(s, pat)
    ensures !Contains(Strip(s), pat)
    ensures Strip(s) == [] || (!IsSpace(Strip(s)[0]) && !IsSpace(Strip(s)[|Strip(s)| - 1]))
  {
    StripSpec(s);
    var i, j :| 0 <= i <= j <= |s| && Strip(s) == s[i..j];
    if Contains(Strip(s), pat) {
      ContainsSlice(s, i, j, pat);
    }
  }

  /** A separator whose first character occurs nowhere else in it cannot
      overlap itself. */
  predicate LeadUnique(sep: string) {
    |sep| > 0 && forall i :: 0 < i < |sep| ==> sep[i] != sep[0]
  }

  /** No tail of `a` is a proper head of `sep`. */
  predicate NoPartialEnd(a: string, sep: string) {
    forall k :: 0 < k < |sep| && k <= |a| ==> a[|a| - k..] != sep[..k]
  }

  /** After a part free of the separator, the separator's leftmost
      occurrence is the one that follows the part, provided no occurrence can
      straddle the boundary. */
  lemma {:induction false} FirstAfterFree(a: string, sep: string, b: string)
    requires |sep| > 0 && !Contains(a, sep)
    requires LeadUnique(sep) || NoPartialEnd(a, sep)
    ensures IndexOf(a + sep + b, sep) == Some(|a|)
  {
    var s := a + sep + b;
    assert OccursAt(s, sep, |a|) by {
      assert s[|a|..|a| + |sep|] == sep;
    }
    forall j: nat | j < |a| ensures !OccursAt(s, sep, j) {
      if j + |sep| <= |a| {
        assert a[j..j + |sep|] == s[j..j + |sep|];
        assert !OccursAt(a, sep, j) by {
          ContainsIff(a, sep);
        }
      } else {
        var k := |a| - j;
        OccursAtHead(s, sep, j, k + 1);
        assert s[j..j + k + 1] == a[j..] + [sep[0]];
        if LeadUnique(sep) {
          assert sep[k] != sep[0];
        } else {
          assert a[j..] != sep[..k];
          assert sep[..k + 1][..k] == sep[..k];
        }
      }
    }
    FirstOccurrence(s, sep, |a|);
  }

  /** An occurrence fixes the characters it covers. */
  lemma {:induction false} OccursAtHead(s: string, pat: string, j: nat, k: nat)
    requires k <= |pat| && j + k <= |s|
    ensures OccursAt(s, pat, j) ==> s[j..j + k] == pat[..k]
  {
    if OccursAt(s, pat, j) {
      assert s[j..j + k] == s[j..j + |pat|][..k];
    }
  }

  /** Splitting after a free first part: that part, then the pieces of the
      rest. */
  lemma {:induction false} SplitAfterFree(a: string, sep: string, b: string)
    requires |sep| > 0 && !Contains(a, sep)
    requires LeadUnique(sep) || NoPartialEnd(a, sep)
    ensures Split(a + sep + b, sep) == [a] + Split(b, sep)
  {
    var s := a + sep + b;
    FirstAfterFree(a, sep, b);
    assert s[..|a|] == a && s[|a| + |sep|..] == b;
    SplitFirst(s, sep, |a|);
    assert Split(s, sep) == [Split(s, sep)[0]] + Split(s, sep)[1..];
  }

  /** `s.replace(old, new)` for a non-empty `old`: every leftmost
      non-overlapping occurrence replaced. */
  function Replace(s: string, target: string, repl: string): string
    requires |target| > 0
  {
    Join(Split(s, target), repl)
  }

  /** Replacing a pattern that does not occur leaves the string unchanged. */
  lemma {:induction false} ReplaceAbsent(s: string, target: string, repl: string)
    requires |target| > 0 && !Contains(s, target)
    ensures Replace(s, target, repl) == s
  {
  }

  /** A leading occurrence is replaced and the rest is processed on its own. */
  lemma {:induction false} ReplacePrefix(s: string, target: string, repl: string)
    requires |target| > 0 && StartsWith(s, target)
    ensures Replace(s, target, repl) == repl + Replace(s[|target|..], target, repl)
  {
    assert OccursAt(s, target, 0);
    assert IndexOf(s, target) == Some(0);
    var rest := Split(s[|target|..], target);
    assert Split(s, target) == [""] + rest;
  }

  /** A string with a single occurrence of the target has just that one
      replaced. */
  lemma {:induction false} ReplaceOnce(a: string, target: string, b: string, repl: string)
    requires |target| > 0
    requires IndexOf(a + target + b, target) == Some(|a|) && !Contains(b, target)
    ensures Replace(a + target + b, target, repl) == a + repl + b
  {
    var s := a + target + b;
    assert s[|a| + |target|..] == b;
    assert s[..|a|] == a;
    SplitFirst(s, target, |a|);
    SplitAbsent(b, target);
    var parts := [a, b];
    assert Split(s, target) == parts;
    assert parts[1..] == [b];
    assert Join(parts, repl) == a + repl + b;
  }

  // ------------------------------------------------------------------ strip

  function TrimLeft(s: string): (r: string)
    ensures |r| <= |s| && r == s[|s| - |r|..]
    ensures r != [] ==> !IsSpace(r[0])
    ensures forall i :: 0 <= i < |s| - |r| ==> IsSpace(s[i])
  {
    if s != [] && IsSpace(s[0]) then TrimLeft(s[1..]) else s
  }

  function TrimRight(s: string): (r: string)
    ensures |r| <= |s| && r == s[..|r|]
    ensures r != [] ==> !IsSpace(r[|r| - 1])
    ensures forall i :: |r| <= i < |s| ==> IsSpace(s[i])
  {
    if s != [] && IsSpace(s[|s| - 1]) then TrimRight(s[..|s| - 1]) else s
  }

  /** `s.strip()`. */
  function Strip(s: string): string {
    TrimRight(TrimLeft(s))
  }

  /** `strip()` removes exactly the whitespace at both ends: the result is a
      slice of the input, with no whitespace at either end, and only
      whitespace was dropped. */
  lemma {:induction false} StripSpec(s: string)
    ensures exists i, j :: 0 <= i <= j <= |s| && Strip(s) == s[i..j]
                           && (forall k :: 0 <= k < i ==> IsSpace(s[k]))
                           && (forall k :: j <= k < |s| ==> IsSpace(s[k]))
    ensures Strip(s) != [] ==> !IsSpace(Strip(s)[0]) && !IsSpace(Strip(s)[|Strip(s)| - 1])
  {
    var l := TrimLeft(s);
    var i := |s| - |l|;
    var j := i + |Strip(s)|;
    assert Strip(s) == s[i..j];
  }

  // ------------------------------------------------- whitespace words: split()

  /** A maximal run of non-whitespace characters, as `split()` yields it. */
  predicate IsWord(w: string) {
    |w| > 0 && forall i :: 0 <= i < |w| ==> !IsSpace(w[i])
  }

  /** Length of the run of non-whitespace characters that starts `s`. */
  function WordEnd(s: string): (n: nat)
    requires s != [] && !IsSpace(s[0])
    ensures 0 < n <= |s|
    ensures forall i :: 0 <= i < n ==> !IsSpace(s[i])
    ensures n < |s| ==> IsSpace(s[n])
  {
    if |s| == 1 || IsSpace(s[1]) then 1 else 1 + WordEnd(s[1..])
  }

  /** `split()` yields no word exactly when the string is all whitespace. */
  lemma {:induction false} WordsEmpty(s: string)
    ensures Words(s) == [] <==> forall i :: 0 <= i < |s| ==> IsSpace(s[i])
    decreases |s|
  {
    if s != [] && IsSpace(s[0]) {
      WordsEmpty(s[1..]);
      assert forall i :: 0 < i < |s| ==> s[i] == s[1..][i - 1];
    }
  }

  /** `s.split()` with no argument: the maximal runs of non-whitespace. */
  function Words(s: string): (ws: seq<string>)
    ensures forall k :: 0 <= k < |ws| ==> IsWord(ws[k])
    decreases |s|
  {
    if s == [] then []
    else if IsSpace(s[0]) then Words(s[1..])
    else
      var n := WordEnd(s);
      [s[..n]] + Words(s[n..])
  }

  /** `" ".join(s.split())`: whitespace collapsed to single spaces and trimmed. */
  function CollapseSpace(s: string): string {
    Join(Words(s), " ")
  }

  /** No leading or trailing whitespace, and every whitespace character is a
      single ASCII space between two non-whitespace characters. */
  predicate Collapsed(r: string) {
    forall i :: 0 <= i < |r| && IsSpace(r[i]) ==>
      r[i] == ' ' && 0 < i < |r| - 1 && !IsSpace(r[i - 1]) && !IsSpace(r[i + 1])
  }

  lemma {:induction false} JoinWordsCollapsed(ws: seq<string>)
    requires forall k :: 0 <= k < |ws| ==> IsWord(ws[k])
    ensures Collapsed(Join(ws, " "))
    ensures |ws| > 0 ==> |Join(ws, " ")| > 0 && !IsSpace(Join(ws, " ")[0])
    ensures |ws| > 0 ==> !IsSpace(Join(ws, " ")[|Join(ws, " ")| - 1])
  {
    if |ws| > 1 {
      var w, t := ws[0], Join(ws[1..], " ");
      JoinWordsCollapsed(ws[1..]);
      var r := w + " " + t;
      assert Join(ws, " ") == r;
      forall i | 0 <= i < |r| && IsSpace(r[i])
        ensures r[i] == ' ' && 0 < i < |r| - 1 && !IsSpace(r[i - 1]) && !IsSpace(r[i + 1])
      {
        if i == |w| {
          assert r[i - 1] == w[|w| - 1];
          assert r[i + 1] == t[0];
        } else if i > |w| {
          assert r[i] == t[i - |w| - 1];
          if i - |w| - 1 == 0 {
            assert false;
          }
          assert r[i - 1] == t[i - |w| - 2];
          assert r[i + 1] == t[i - |w|];
        }
      }
      assert r[|r| - 1] == t[|t| - 1];
    }
  }

  /** The output of `CollapseSpace` is in collapsed form. */
  lemma {:induction false} CollapseSpaceCollapsed(s: string)
    ensures Collapsed(CollapseSpace(s))
  {
    JoinWordsCollapsed(Words(s));
  }

  lemma {:induction false} WordEndOfJoin(w: string, t: string)
    requires IsWord(w)
    requires t == [] || IsSpace(t[0])
    ensures WordEnd(w + t) == |w|
    decreases |w|
  {
    if |w| > 1 {
      WordEndOfJoin(w[1..], t);
      assert (w + t)[1..] == w[1..] + t;
    }
  }

  /** Splitting a space-joined list of words gives the words back. */
  lemma {:induction false} WordsOfJoin(ws: seq<string>)
    requires forall k :: 0 <= k < |ws| ==> IsWord(ws[k])
    ensures Words(Join(ws, " ")) == ws
  {
    if |ws| == 1 {
      WordEndOfJoin(ws[0], "");
      assert ws[0] + "" == ws[0];
      assert ws[0][|ws[0]|..] == [];
    } else if |ws| > 1 {
      var w, t := ws[0], Join(ws[1..], " ");
      var r := w + " " + t;
      assert Join(ws, " ") == r;
      WordEndOfJoin(w, " " + t);
      assert r == w + (" " + t);
      assert r[..|w|] == w;
      assert r[|w|..] == " " + t;
      assert (" " + t)[1..] == t;
      WordsOfJoin(ws[1..]);
    }
  }

  /** Collapsing whitespace twice is the same as collapsing it once. */
  lemma {:induction false} CollapseSpaceIdempotent(s: string)
    ensures CollapseSpace(CollapseSpace(s)) == CollapseSpace(s)
  {
    WordsOfJoin(Words(s));
  }

  /** The non-whitespace characters of `s`, in order. */
  function Ink(s: string): string {
    Filter(s, c => !IsSpace(c))
  }

  function Concat(ws: seq<string>): string {
    if ws == [] then "" else ws[0] + Concat(ws[1..])
  }

  lemma {:induction false} ConcatSnoc(ws: seq<string>, w: string)
    ensures Concat(ws + [w]) == Concat(ws) + w
  {
    if ws != [] {
      assert (ws + [w])[1..] == ws[1..] + [w];
      ConcatSnoc(ws[1..], w);
    }
  }

  /** Joining one more part appends the separator and the part. */
  lemma {:induction false} JoinSnoc(parts: seq<string>, x: string, sep: string)
    requires |parts| > 0
    ensures Join(parts + [x], sep) == Join(parts, sep) + sep + x
  {
    if |parts| > 1 {
      assert (parts + [x])[1..] == parts[1..] + [x];
      JoinSnoc(parts[1..], x, sep);
    } else {
      assert (parts + [x])[1..] == [x];
    }
  }

  lemma {:induction false} InkOfWords(s: string)
    ensures Ink(s) == Concat(Words(s))
    decreases |s|
  {
    if s != [] {
      if IsSpace(s[0]) {
        InkOfWords(s[1..]);
      } else {
        var n := WordEnd(s);
        assert s == s[..n] + s[n..];
        FilterAppend(s[..n], s[n..], c => !IsSpace(c));
        FilterAll(s[..n], c => !IsSpace(c));
        InkOfWords(s[n..]);
        assert Words(s) == [s[..n]] + Words(s[n..]);
      }
    }
  }

  lemma {:induction false} InkOfJoin(ws: seq<string>)
    requires forall k :: 0 <= k < |ws| ==> IsWord(ws[k])
    ensures Ink(Join(ws, " ")) == Concat(ws)
  {
    if |ws| == 1 {
      FilterAll(ws[0], c => !IsSpace(c));
      assert Concat(ws) == ws[0] + Concat([]);
    } else if |ws| > 1 {
      var w, t := ws[0], Join(ws[1..], " ");
      InkOfJoin(ws[1..]);
      FilterAppend(w, " " + t, c => !IsSpace(c));
      FilterAppend(" ", t, c => !IsSpace(c));
      FilterAll(w, c => !IsSpace(c));
      assert Join(ws, " ") == w + (" " + t);
    }
  }

  /** Collapsing whitespace keeps every other character, in order. */
  lemma {:induction false} CollapseSpaceKeepsInk(s: string)
    ensures Ink(CollapseSpace(s)) == Ink(s)
  {
    InkOfWords(s);
    InkOfJoin(Words(s));
  }

  // ------------------------------------------------------------ more laws

  /** A string with no whitespace at either end is its own `strip()`. */
  lemma {:induction false} StripUnpadded(s: string)
    requires s == [] || (!IsSpace(s[0]) && !IsSpace(s[|s| - 1]))
    ensures Strip(s) == s
  {
  }

  /** For a one-character separator, splitting a join of separator-free
      parts gives the parts back: the inverse of `JoinSplit`. */
  lemma {:induction false} SplitJoin(parts: seq<string>, sep: string)
    requires |sep| == 1 && |parts| > 0
    requires forall k :: 0 <= k < |parts| ==> !Contains(parts[k], sep)
    ensures Split(Join(parts, sep), sep) == parts
    decreases |parts|
  {
    var head := parts[0];
    if |parts| == 1 {
      SplitAbsent(head, sep);
    } else {
      var tail := parts[1..];
      var rest := Join(tail, sep);
      var s := head + sep + rest;
      assert Join(parts, sep) == s;
      SplitJoin(tail, sep);
      SeparatorAfterFreePart(head, sep, rest);
      SplitFirst(s, sep, |head|);
      assert s[|head| + |sep|..] == rest && s[..|head|] == head;
      assert parts == [head] + tail;
    }
  }

  /** After a part free of a one-character separator, the separator's
      leftmost occurrence is the one that follows the part. */
  lemma {:induction false} SeparatorAfterFreePart(head: string, sep: string, rest: string)
    requires |sep| == 1 && !Contains(head, sep)
    ensures IndexOf(head + sep + rest, sep) == Some(|head|)
  {
    var s := head + sep + rest;
    assert OccursAt(s, sep, |head|) by {
      assert s[|head|..|head| + 1] == sep;
    }
    forall j: nat | j < |head| ensures !OccursAt(s, sep, j) {
      if OccursAt(s, sep, j) {
        assert s[j] == sep[0] && s[j] == head[j];
        assert OccursAt(head, sep, j) by {
          assert head[j..j + 1] == sep;
        }
        ContainsIff(head, sep);
        assert false;
      }
    }
    FirstOccurrence(s, sep, |head|);
  }

  /** An occurrence that ends within a prefix is an occurrence in it. */
  lemma {:induction false} OccursInPrefix(s: string, u: string, pat: string, j: nat)
    requires j + |pat| <= |s|
    ensures OccursAt(s + u, pat, j) <==> OccursAt(s, pat, j)
  {
    assert (s + u)[j..j + |pat|] == s[j..j + |pat|];
  }

  /** An occurrence with none before it is the one `IndexOf` finds. */
  lemma {:induction false} FirstOccurrence(s: string, pat: string, i: nat)
    requires OccursAt(s, pat, i)
    requires forall j: nat :: j < i ==> !OccursAt(s, pat, j)
    ensures IndexOf(s, pat) == Some(i)
  {
    var r := IndexOf(s, pat);
    assert r.Some?;
    if r.value < i {
      assert false;
    }
  }

  /** Python's `<=` on strings: lexicographic by code point. */
  predicate StrLe(a: string, b: string) {
    if a == [] then true
    else if b == [] then false
    else if a[0] != b[0] then a[0] < b[0]
    else StrLe(a[1..], b[1..])
  }

  lemma {:induction false} StrLeTotal(a: string, b: string)
    ensures StrLe(a, b) || StrLe(b, a)
  {
    if a != [] && b != [] && a[0] == b[0] {
      StrLeTotal(a[1..], b[1..]);
    }
  }

  lemma {:induction false} StrLeTrans(a: string, b: string, c: string)
    requires StrLe(a, b) && StrLe(b, c)
    ensures StrLe(a, c)
  {
    if a != [] && b != [] && c != [] && a[0] == b[0] && b[0] == c[0] {
      StrLeTrans(a[1..], b[1..], c[1..]);
    }
  }

  lemma {:induction false} StrLeAntisym(a: string, b: string)
    requires StrLe(a, b) && StrLe(b, a)
    ensures a == b
  {
    if a != [] && b != [] {
      StrLeAntisym(a[1..], b[1..]);
      assert a == [a[0]] + a[1..] && b == [b[0]] + b[1..];
    }
  }
}
