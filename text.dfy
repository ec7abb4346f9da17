/**
 * The Python string operations the conversation scripts are built from:
 * `str.lower`, the `in` operator on strings, `str.endswith`, `str.strip()`,
 * `str.split()`, `str.replace(old, "")` and `"\n".join`, together with the
 * whitespace set that `strip()` and `split()` use. `str.split("\n")` is not
 * used by the scripts; it is here only as the inverse of `"\n".join`, to show
 * that the flattened prompt determines the history.
 */
module Text {

  /** The whitespace set that `strip()` and `split()` use (Python's `str.isspace()` on one character). */
  predicate IsSpace(c: char) {
    c == ' ' || ('\U{9}' <= c <= '\U{D}') || ('\U{1C}' <= c <= '\U{1F}')
    || c == '\U{85}' || c == '\U{A0}' || c == '\U{1680}' || ('\U{2000}' <= c <= '\U{200A}')
    || c == '\U{2028}' || c == '\U{2029}' || c == '\U{202F}' || c == '\U{205F}' || c == '\U{3000}'
  }

  predicate AllSpace(s: string) {
    forall k :: 0 <= k < |s| ==> IsSpace(s[k])
  }

  predicate NoSpace(s: string) {
    forall k :: 0 <= k < |s| ==> !IsSpace(s[k])
  }

  /** `str.lower()` restricted to ASCII letters. */
  function LowerChar(c: char): char {
    if 'A' <= c <= 'Z' then (c as int + 32) as char else c
  }

  function Lower(s: string): (r: string)
    ensures |r| == |s|
    ensures forall k :: 0 <= k < |s| ==> r[k] == LowerChar(s[k])
  {
    seq(|s|, k requires 0 <= k < |s| => LowerChar(s[k]))
  }

  /** `p` occurs in `s` starting at index `i`. */
  predicate OccursAt(s: string, p: string, i: int) {
    0 <= i && i + |p| <= |s| && s[i..i + |p|] == p
  }

  /** Python's `p in s` for strings. */
  predicate Contains(s: string, p: string) {
    exists i | 0 <= i <= |s| - |p| :: OccursAt(s, p, i)
  }

  /** Python's `s.endswith(suffix)`. */
  predicate EndsWith(s: string, suffix: string) {
    |suffix| <= |s| && s[|s| - |suffix|..] == suffix
  }

  lemma SuffixOccurs(s: string, suffix: string)
    requires EndsWith(s, suffix)
    ensures OccursAt(s, suffix, |s| - |suffix|)
  {
  }

  /** An occurrence inside an occurrence is an occurrence. */
  lemma OccursWithin(s: string, w: string, p: string, i: int, j: int)
    requires OccursAt(s, w, i) && OccursAt(w, p, j)
    ensures OccursAt(s, p, i + j)
  {
    forall k | 0 <= k < |p|
      ensures s[i + j + k] == p[k]
    {
      assert s[i + j + k] == s[i..i + |w|][j + k] == w[j + k];
      assert w[j + k] == w[j..j + |p|][k];
    }
    assert s[i + j..i + j + |p|] == p;
  }

  /** Lower-casing keeps every occurrence where it was. */
  lemma LowerOccurs(s: string, p: string, i: int)
    requires OccursAt(s, p, i)
    ensures OccursAt(Lower(s), Lower(p), i)
  {
    assert Lower(s)[i..i + |p|] == Lower(p);
  }

  /** A word of `s` whose lower-cased form ends with `suffix` puts `suffix` into the lower-cased `s`. */
  lemma LowerSuffixOccurs(s: string, word: string, suffix: string, i: int)
    requires OccursAt(s, word, i) && EndsWith(Lower(word), suffix)
    ensures Contains(Lower(s), suffix)
  {
    var lowered, lowerWord := Lower(s), Lower(word);
    LowerOccurs(s, word, i);
    SuffixOccurs(lowerWord, suffix);
    OccursWithin(lowered, lowerWord, suffix, i, |lowerWord| - |suffix|);
    assert OccursAt(lowered, suffix, i + |lowerWord| - |suffix|);
  }

  /** Lower-casing keeps every containment. */
  lemma LowerContains(s: string, p: string)
    ensures Contains(s, p) ==> Contains(Lower(s), Lower(p))
  {
    if Contains(s, p) {
      var i :| 0 <= i <= |s| - |p| && OccursAt(s, p, i);
      LowerOccurs(s, p, i);
    }
  }

  /** `p` cannot start where the character differs from its first one. */
  lemma FirstCharMismatch(s: string, p: string, i: int)
    requires p != [] && 0 <= i < |s| && s[i] != p[0]
    ensures !OccursAt(s, p, i)
  {
    if i + |p| <= |s| {
      assert s[i..i + |p|][0] == s[i];
    }
  }

  /** A string none of whose characters starts `p` cannot contain a non-empty `p`. */
  lemma AbsentFirstChar(s: string, p: string)
    requires p != [] && p[0] !in s
    ensures !Contains(s, p)
  {
  }

  // ---------------------------------------------------------------- strip()

  /** `s.lstrip()`. */
  function TrimStart(s: string): (r: string)
    ensures |r| <= |s| && r == s[|s| - |r|..]
    ensures AllSpace(s[..|s| - |r|])
    ensures r == [] || !IsSpace(r[0])
  {
    if s != [] && IsSpace(s[0]) then
      var r := TrimStart(s[1..]);
      assert s[..|s| - |r|] == [s[0]] + s[1..][..|s| - 1 - |r|];
      r
    else s
  }

  /** `s.rstrip()`. */
  function TrimEnd(s: string): (r: string)
    ensures |r| <= |s| && r == s[..|r|]
    ensures AllSpace(s[|r|..])
    ensures r == [] || !IsSpace(r[|r| - 1])
  {
    if s != [] && IsSpace(s[|s| - 1]) then
      var r := TrimEnd(s[..|s| - 1]);
      assert s[|r|..] == s[..|s| - 1][|r|..] + [s[|s| - 1]];
      r
    else s
  }

  /** `s.strip()`: leading and trailing whitespace removed, interior left alone. */
  function Strip(s: string): (r: string)
    ensures |r| <= |s|
    ensures r == [] || (!IsSpace(r[0]) && !IsSpace(r[|r| - 1]))
  {
    TrimEnd(TrimStart(s))
  }

  lemma {:induction false} TrimStartPadded(a: string, t: string)
    requires AllSpace(a) && (t == [] || !IsSpace(t[0]))
    ensures TrimStart(a + t) == t
  {
    if a == [] {
      assert a + t == t;
    } else {
      assert (a + t)[1..] == a[1..] + t;
      TrimStartPadded(a[1..], t);
    }
  }

  lemma {:induction false} TrimEndPadded(t: string, b: string)
    requires AllSpace(b) && (t == [] || !IsSpace(t[|t| - 1]))
    ensures TrimEnd(t + b) == t
  {
    if b == [] {
      assert t + b == t;
    } else {
      assert (t + b)[..|t + b| - 1] == t + b[..|b| - 1];
      TrimEndPadded(t, b[..|b| - 1]);
    }
  }

  /**
   * Reference characterisation of `strip()`: whitespace around a text that
   * neither starts nor ends with whitespace is exactly what is removed.
   */
  lemma StripPadded(a: string, t: string, b: string)
    requires AllSpace(a) && AllSpace(b)
    requires t == [] || (!IsSpace(t[0]) && !IsSpace(t[|t| - 1]))
    ensures Strip(a + t + b) == t
  {
    assert a + t + b == a + (t + b);
    if t == [] {
      assert a + t + b == a + b;
      var r := TrimStart(a + b);
      assert r == [];
    } else {
      TrimStartPadded(a, t + b);
      TrimEndPadded(t, b);
    }
  }

  /** A text with no whitespace at either end is its own `strip()`. */
  lemma StripUnpadded(t: string)
    requires t == [] || (!IsSpace(t[0]) && !IsSpace(t[|t| - 1]))
    ensures Strip(t) == t
  {
    StripPadded([], t, []);
    assert Strip([] + t + []) == t;
    assert [] + t + [] == t;
  }

  lemma StripIdempotent(s: string)
    ensures Strip(Strip(s)) == Strip(s)
  {
    StripUnpadded(Strip(s));
  }

  // ---------------------------------------------------------------- split()

  /** Length of the leading run of non-whitespace characters. */
  function WordEnd(s: string): (n: nat)
    ensures n <= |s| && NoSpace(s[..n])
    ensures n < |s| ==> IsSpace(s[n])
  {
    if s == [] || IsSpace(s[0]) then 0 else 1 + WordEnd(s[1..])
  }

  /** Python's `s.split()` with no separator: the maximal runs of non-whitespace, in order. */
  function Split(s: string): (words: seq<string>)
    ensures forall k :: 0 <= k < |words| ==> words[k] != [] && NoSpace(words[k])
    decreases |s|
  {
    if s == [] then []
    else if IsSpace(s[0]) then Split(s[1..])
    else
      var n := WordEnd(s);
      [s[..n]] + Split(s[n..])
  }

  /** Every word `split()` returns is a piece of the input. */
  lemma {:induction false} SplitWordOccurs(s: string, k: nat)
    requires k < |Split(s)|
    ensures Contains(s, Split(s)[k])
    decreases |s|
  {
    var w := Split(s)[k];
    if IsSpace(s[0]) {
      assert s[1..1 + |s[1..]|] == s[1..];
      SplitWordOccurs(s[1..], k);
      var j :| 0 <= j <= |s[1..]| - |w| && OccursAt(s[1..], w, j);
      OccursWithin(s, s[1..], w, 1, j);
      assert OccursAt(s, w, 1 + j);
    } else {
      var n := WordEnd(s);
      var rest := s[n..];
      assert Split(s) == [s[..n]] + Split(rest);
      if k == 0 {
        assert OccursAt(s, w, 0);
      } else {
        assert s[n..n + |rest|] == rest;
        assert w == Split(rest)[k - 1];
        SplitWordOccurs(rest, k - 1);
        var j :| 0 <= j <= |rest| - |w| && OccursAt(rest, w, j);
        OccursWithin(s, rest, w, n, j);
        assert OccursAt(s, w, n + j);
      }
    }
  }

  /** The non-whitespace characters of `s`, in order. */
  function NonSpaceChars(s: string): string {
    if s == [] then [] else (if IsSpace(s[0]) then [] else [s[0]]) + NonSpaceChars(s[1..])
  }

  function Concat(words: seq<string>): string {
    if words == [] then [] else words[0] + Concat(words[1..])
  }

  lemma {:induction false} NonSpaceCharsAppend(a: string, b: string)
    ensures NonSpaceChars(a + b) == NonSpaceChars(a) + NonSpaceChars(b)
  {
    if a != [] {
      assert (a + b)[1..] == a[1..] + b;
      NonSpaceCharsAppend(a[1..], b);
    } else {
      assert a + b == b;
    }
  }

  lemma {:induction false} NonSpaceCharsOf(s: string)
    ensures AllSpace(s) ==> NonSpaceChars(s) == []
    ensures NoSpace(s) ==> NonSpaceChars(s) == s
  {
    if s != [] {
      NonSpaceCharsOf(s[1..]);
    }
  }

  /**
   * Independent reference for `split()`: gluing the words back together gives
   * exactly the non-whitespace characters of the input, in order.
   */
  lemma {:induction false} SplitKeepsText(s: string)
    ensures Concat(Split(s)) == NonSpaceChars(s)
    decreases |s|
  {
    if s != [] {
      if IsSpace(s[0]) {
        SplitKeepsText(s[1..]);
      } else {
        var n := WordEnd(s);
        var word, rest := s[..n], s[n..];
        assert Split(s) == [word] + Split(rest);
        assert ([word] + Split(rest))[1..] == Split(rest);
        assert s == word + rest;
        NonSpaceCharsAppend(word, rest);
        NonSpaceCharsOf(word);
        SplitKeepsText(rest);
      }
    }
  }

  /** A word is as long as its run of non-whitespace: it stops at whitespace or at the end. */
  lemma {:induction false} WordEndAt(w: string, rest: string)
    requires NoSpace(w) && (rest == [] || IsSpace(rest[0]))
    ensures WordEnd(w + rest) == |w|
  {
    if w != [] {
      assert (w + rest)[0] == w[0];
      assert (w + rest)[1..] == w[1..] + rest;
      WordEndAt(w[1..], rest);
    } else {
      assert w + rest == rest;
    }
  }

  /** Whitespace alone holds no word. */
  lemma {:induction false} SplitBlank(a: string)
    requires AllSpace(a)
    ensures Split(a) == []
    decreases |a|
  {
    if a != [] {
      SplitBlank(a[1..]);
    }
  }

  /**
   * Reference characterisation of `split()`, with SplitBlank: after any
   * whitespace, the first word is the whole run of non-whitespace up to the
   * next whitespace or the end, and splitting goes on from there.
   */
  lemma {:induction false} SplitFirstWord(a: string, w: string, rest: string)
    requires AllSpace(a) && w != [] && NoSpace(w)
    requires rest == [] || IsSpace(rest[0])
    ensures Split(a + w + rest) == [w] + Split(rest)
    decreases |a|
  {
    var s := a + w + rest;
    if a == [] {
      assert s == w + rest;
      assert s[0] == w[0];
      WordEndAt(w, rest);
      assert s[..|w|] == w && s[|w|..] == rest;
    } else {
      assert s[0] == a[0];
      assert s[1..] == a[1..] + w + rest;
      SplitFirstWord(a[1..], w, rest);
    }
  }

  // ----------------------------------------------------------- replace(p, "")

  /**
   * Python's `s.replace(p, "")`: scanning left to right, every non-overlapping
   * occurrence of `p` is removed; an empty `p` leaves `s` unchanged.
   */
  function RemoveAll(s: string, p: string): (r: string)
    ensures |r| <= |s|
    decreases |s|
  {
    if p == [] || |s| < |p| then s
    else if s[..|p|] == p then RemoveAll(s[|p|..], p)
    else [s[0]] + RemoveAll(s[1..], p)
  }

  /** Nothing is removed when `p` does not occur. */
  lemma {:induction false} RemoveAllAbsent(s: string, p: string)
    requires !Contains(s, p)
    ensures RemoveAll(s, p) == s
    decreases |s|
  {
    if p != [] && |s| >= |p| {
      assert !OccursAt(s, p, 0);
      forall i | 0 <= i <= |s[1..]| - |p|
        ensures !OccursAt(s[1..], p, i)
      {
        OccursAfterFirst(s, p, i);
      }
      RemoveAllAbsent(s[1..], p);
      assert s == [s[0]] + s[1..];
    }
  }

  /**
   * The leftmost occurrence is the one removed first: everything before it is
   * kept, and removal resumes right after it.
   */
  lemma {:induction false} RemoveAllLeftmost(s: string, p: string, i: nat)
    requires p != [] && OccursAt(s, p, i)
    requires forall j :: 0 <= j < i ==> !OccursAt(s, p, j)
    ensures RemoveAll(s, p) == s[..i] + RemoveAll(s[i + |p|..], p)
    decreases i
  {
    if i == 0 {
      assert s[..|p|] == p;
    } else {
      var t, k := s[1..], i - 1;
      EarlierMissesAfterFirst(s, p, i);
      OccursAfterFirst(s, p, k);
      RemoveAllLeftmost(t, p, k);
      assert t[k + |p|..] == s[i + |p|..];
      LeftmostStep(s, p, i);
    }
  }

  /** One step of the induction: the first character is kept when the occurrence starts later. */
  lemma LeftmostStep(s: string, p: string, i: nat)
    requires 0 < i && p != [] && OccursAt(s, p, i) && !OccursAt(s, p, 0)
    requires RemoveAll(s[1..], p) == s[1..][..i - 1] + RemoveAll(s[i + |p|..], p)
    ensures RemoveAll(s, p) == s[..i] + RemoveAll(s[i + |p|..], p)
  {
    var t, k := s[1..], i - 1;
    var rest := RemoveAll(s[i + |p|..], p);
    assert [s[0]] + (t[..k] + rest) == ([s[0]] + t[..k]) + rest;
    RemoveAllMiss(s, p);
    SlicesAfterFirst(s, i, |p|);
  }

  /** No occurrence before `i` in `s` means none before `i - 1` in `s[1..]`. */
  lemma EarlierMissesAfterFirst(s: string, p: string, i: nat)
    requires 0 < i <= |s| && forall j :: 0 <= j < i ==> !OccursAt(s, p, j)
    ensures forall j :: 0 <= j < i - 1 ==> !OccursAt(s[1..], p, j)
  {
    forall j | 0 <= j < i - 1
      ensures !OccursAt(s[1..], p, j)
    {
      OccursAfterFirst(s, p, j);
    }
  }

  /** Where `p` does not start at 0, the first character is kept and removal goes on from the next. */
  lemma RemoveAllMiss(s: string, p: string)
    requires p != [] && |p| <= |s| && !OccursAt(s, p, 0)
    ensures RemoveAll(s, p) == [s[0]] + RemoveAll(s[1..], p)
  {
    assert s[..|p|] != p;
  }

  /** Slices of `s[1..]` in terms of slices of `s`. */
  lemma SlicesAfterFirst(s: string, i: nat, n: nat)
    requires 0 < i && i + n <= |s|
    ensures s[1..][i - 1 + n..] == s[i + n..]
    ensures s[..i] == [s[0]] + s[1..][..i - 1]
  {
  }

  /** Occurrences in `s[1..]` are the occurrences in `s`, one place to the left. */
  lemma OccursAfterFirst(s: string, p: string, j: nat)
    requires s != []
    ensures OccursAt(s[1..], p, j) <==> OccursAt(s, p, j + 1)
  {
    if j + |p| <= |s| - 1 {
      assert s[1..][j..j + |p|] == s[j + 1..j + 1 + |p|];
    }
  }

  /** `s.replace(p, "").strip()`: the instruction left once a path is taken out of the input. */
  function Residual(userInput: string, path: string): (r: string)
    ensures |r| <= |userInput|
    ensures r == [] || (!IsSpace(r[0]) && !IsSpace(r[|r| - 1]))
  {
    Strip(RemoveAll(userInput, path))
  }

  // ------------------------------------------------------- "\n".join / split

  /** Python's `"\n".join(lines)`: it starts with the first line. */
  function Join(lines: seq<string>): (s: string)
    ensures lines != [] ==> lines[0] <= s
  {
    if |lines| == 0 then []
    else if |lines| == 1 then lines[0]
    else lines[0] + "\n" + Join(lines[1..])
  }

  /** The joined text ends with the last line. */
  lemma {:induction false} JoinEndsWithLast(lines: seq<string>)
    requires lines != []
    ensures EndsWith(Join(lines), lines[|lines| - 1])
    decreases |lines|
  {
    if |lines| > 1 {
      var rest := lines[1..];
      JoinEndsWithLast(rest);
      var tail := Join(rest);
      var last := rest[|rest| - 1];
      assert Join(lines) == (lines[0] + "\n") + tail;
      assert Join(lines)[|Join(lines)| - |last|..] == tail[|tail| - |last|..];
    }
  }

  lemma {:induction false} JoinSnoc(lines: seq<string>, line: string)
    requires lines != []
    ensures Join(lines + [line]) == Join(lines) + "\n" + line
    decreases |lines|
  {
    if |lines| > 1 {
      assert (lines + [line])[1..] == lines[1..] + [line];
      JoinSnoc(lines[1..], line);
    } else {
      assert lines + [line] == [lines[0], line];
      assert [lines[0], line][1..] == [line];
    }
  }

  /** Length of the leading run of characters other than a newline. */
  function LineEnd(s: string): (n: nat)
    ensures n <= |s| && '\n' !in s[..n]
    ensures n < |s| ==> s[n] == '\n'
  {
    if s == [] || s[0] == '\n' then 0 else 1 + LineEnd(s[1..])
  }

  /** Python's `s.split("\n")`, not used by the scripts: the inverse of `Join` in SplitLinesJoin. */
  function SplitLines(s: string): (lines: seq<string>)
    ensures lines != []
    decreases |s|
  {
    var n := LineEnd(s);
    if n == |s| then [s] else [s[..n]] + SplitLines(s[n + 1..])
  }

  lemma LineEndAt(a: string, b: string)
    requires '\n' !in a
    ensures LineEnd(a + "\n" + b) == |a|
  {
    var s := a + "\n" + b;
    var n := LineEnd(s);
    assert forall k :: 0 <= k < |a| ==> s[k] == a[k] && s[k] != '\n';
    assert s[|a|] == '\n';
    assert n <= |a| ==> n == |a|;
  }

  /** Splitting on newlines undoes joining with newlines when no line holds a newline. */
  lemma {:induction false} SplitLinesJoin(lines: seq<string>)
    requires lines != []
    requires forall k :: 0 <= k < |lines| ==> '\n' !in lines[k]
    ensures SplitLines(Join(lines)) == lines
    decreases |lines|
  {
    if |lines| == 1 {
      assert lines == [lines[0]];
    } else {
      var a, rest := lines[0], Join(lines[1..]);
      var s := a + "\n" + rest;
      assert SplitLines(s) == [a] + SplitLines(rest) by {
        LineEndAt(a, rest);
        assert s[..|a|] == a;
        assert s[|a| + 1..] == rest;
      }
      SplitLinesJoin(lines[1..]);
      assert lines == [a] + lines[1..];
    }
  }
}
