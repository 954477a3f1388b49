/**
 * The JavaScript string operations the site relies on, restricted to what its
 * code uses: `String.prototype.split` on a single character, ASCII
 * `toLowerCase`, the global `/\s+/g` replacement, and `replace` with a string
 * pattern, which rewrites only the first occurrence.
 */
module Text {
  import opened Wrappers

  // ---------------------------------------------------------------------------
  // split / join on one separator character

  /**
   * `s.split(sep)`: always at least one part, no part contains the separator,
   * and the first part is the text before the first separator (all of `s` when
   * there is none).
   */
  function Split(s: string, sep: char): (parts: seq<string>)
    ensures |parts| >= 1
    ensures forall i :: 0 <= i < |parts| ==> sep !in parts[i]
    ensures |parts[0]| <= |s| && parts[0] == s[..|parts[0]|]
    ensures |parts[0]| < |s| ==> s[|parts[0]|] == sep
    decreases |s|
  {
    if s == [] then [[]]
    else
      var rest := Split(s[1..], sep);
      if s[0] == sep then [[]] + rest
      else [[s[0]] + rest[0]] + rest[1..]
  }

  /** `parts.join(sep)`: the inverse of Split. */
  function Join(parts: seq<string>, sep: char): string
    requires |parts| >= 1
    decreases |parts|
  {
    if |parts| == 1 then parts[0] else parts[0] + [sep] + Join(parts[1..], sep)
  }

  /** Splitting loses nothing: joining the parts back gives the original string. */
  lemma {:induction false} JoinSplit(s: string, sep: char)
    ensures Join(Split(s, sep), sep) == s
    decreases |s|
  {
    if s != [] {
      JoinSplit(s[1..], sep);
      var rest := Split(s[1..], sep);
      if s[0] == sep {
        assert ([[]] + rest)[1..] == rest;
      } else if |rest| > 1 {
        var parts := [[s[0]] + rest[0]] + rest[1..];
        assert parts[1..] == rest[1..];
        assert s == [s[0]] + s[1..];
      } else {
        assert s == [s[0]] + s[1..];
      }
    }
  }

  /** Splitting a string whose head has no separator extends the first part only. */
  lemma {:induction false} SplitPrefix(a: string, t: string, sep: char)
    requires sep !in a
    ensures Split(a + t, sep) == [a + Split(t, sep)[0]] + Split(t, sep)[1..]
    decreases |a|
  {
    if a != [] {
      var x := a + t;
      assert x[0] == a[0] && a[0] != sep;
      assert x[1..] == a[1..] + t;
      SplitPrefix(a[1..], t, sep);
      var rest := Split(x[1..], sep);
      assert Split(x, sep) == [[a[0]] + rest[0]] + rest[1..];
      assert rest[0] == a[1..] + Split(t, sep)[0] && rest[1..] == Split(t, sep)[1..];
      assert [a[0]] + (a[1..] + Split(t, sep)[0]) == a + Split(t, sep)[0];
      assert Split(x, sep) == [a + Split(t, sep)[0]] + Split(t, sep)[1..];
    } else {
      var parts := Split(t, sep);
      assert a + t == t && a + parts[0] == parts[0];
      assert [parts[0]] + parts[1..] == parts;
    }
  }

  /** Joining separator-free parts and splitting again gives the parts back. */
  lemma {:induction false} SplitJoin(parts: seq<string>, sep: char)
    requires |parts| >= 1
    requires forall i :: 0 <= i < |parts| ==> sep !in parts[i]
    ensures Split(Join(parts, sep), sep) == parts
    decreases |parts|
  {
    if |parts| == 1 {
      SplitPrefix(parts[0], [], sep);
      assert parts[0] + [] == parts[0];
    } else {
      var tail := Join(parts[1..], sep);
      SplitJoin(parts[1..], sep);
      assert Split([sep] + tail, sep) == [[]] + parts[1..] by {
        assert ([sep] + tail)[1..] == tail;
      }
      assert parts[0] + [sep] + tail == parts[0] + ([sep] + tail);
      SplitPrefix(parts[0], [sep] + tail, sep);
      assert parts[0] + [] == parts[0];
    }
  }

  // ---------------------------------------------------------------------------
  // ASCII case

  predicate IsAsciiUpper(c: char) { 'A' <= c <= 'Z' }

  predicate IsAsciiLower(c: char) { 'a' <= c <= 'z' }

  /** `toLowerCase` on one character, restricted to ASCII letters. */
  function LowerChar(c: char): (r: char)
    ensures !IsAsciiUpper(r)
    ensures IsAsciiUpper(c) ==> IsAsciiLower(r) && r as int == c as int + 32
    ensures !IsAsciiUpper(c) ==> r == c
  {
    if IsAsciiUpper(c) then (c as int + 32) as char else c
  }

  /**
   * `toLowerCase`, restricted to ASCII letters: the length is kept, no
   * upper-case letter remains, and exactly the upper-case letters change,
   * each to its lower-case partner.
   */
  function ToLower(s: string): (r: string)
    ensures |r| == |s|
    ensures forall i :: 0 <= i < |s| ==> !IsAsciiUpper(r[i])
    ensures forall i :: 0 <= i < |s| ==> (r[i] == s[i] <==> !IsAsciiUpper(s[i]))
    ensures forall i :: 0 <= i < |s| && IsAsciiUpper(s[i]) ==> r[i] as int == s[i] as int + 32
  {
    seq(|s|, i requires 0 <= i < |s| => LowerChar(s[i]))
  }

  /** Lower-casing works character by character, so it distributes over concatenation. */
  // ---------------------------------------------------------------------------
  // whitespace runs: `replace(/\s+/g, '-')`

  /** The ASCII members of JavaScript's `\s`: space, tab, line feed, vertical tab, form feed, carriage return. */
  predicate IsSpace(c: char) {
    c == ' ' || c == '\t' || c == '\n' || c == '\U{B}' || c == '\U{C}' || c == '\r'
  }

  predicate NoSpace(s: string) { forall i :: 0 <= i < |s| ==> !IsSpace(s[i]) }

  /**
   * Scans `s` left to right, replacing every maximal whitespace run by a
   * single `-`; `inRun` says whether the text before `s` ended inside a run,
   * in which case leading whitespace of `s` continues that run and emits
   * nothing.
   */
  function Collapse(s: string, inRun: bool): string
  {
    if s == [] then []
    else if IsSpace(s[0]) then (if inRun then "" else "-") + Collapse(s[1..], true)
    else [s[0]] + Collapse(s[1..], false)
  }

  /** `s.replace(/\s+/g, '-')`. */
  function CollapseSpaces(s: string): (r: string)
    ensures NoSpace(r) && |r| <= |s|
  {
    CollapseSpec(s, false);
    Collapse(s, false)
  }

  /** Whether a scan that started in state `inRun` is inside a run after reading `s`. */
  function EndsInRun(s: string, inRun: bool): bool
  {
    if s == [] then inRun else IsSpace(s[|s| - 1])
  }

  /** Collapsing leaves no whitespace, never lengthens, and adds no character other than `-`. */
  lemma {:induction false} CollapseSpec(s: string, inRun: bool)
    ensures NoSpace(Collapse(s, inRun))
    ensures |Collapse(s, inRun)| <= |s|
    ensures forall c :: c in Collapse(s, inRun) ==> c == '-' || c in s
    decreases |s|
  {
    if s != [] {
      CollapseSpec(s[1..], IsSpace(s[0]));
      assert forall c :: c in s[1..] ==> c in s;
    }
  }

  /** A string without whitespace passes through unchanged. */
  lemma {:induction false} CollapseNoSpace(s: string, inRun: bool)
    requires NoSpace(s)
    ensures Collapse(s, inRun) == s
    decreases |s|
  {
    if s != [] {
      CollapseNoSpace(s[1..], false);
      assert s == [s[0]] + s[1..];
    }
  }

  /** Collapsing is idempotent. */
  lemma CollapseSpacesIdempotent(s: string)
    ensures CollapseSpaces(CollapseSpaces(s)) == CollapseSpaces(s)
  {
    CollapseSpec(s, false);
    CollapseNoSpace(CollapseSpaces(s), false);
  }

  /** The scan of a concatenation is the scan of the first part, then the scan of the second resumed in the state the first left. */
  lemma {:induction false} CollapseAppend(a: string, b: string, inRun: bool)
    ensures Collapse(a + b, inRun) == Collapse(a, inRun) + Collapse(b, EndsInRun(a, inRun))
    decreases |a|
  {
    if a == [] {
      assert a + b == b;
    } else {
      assert (a + b)[0] == a[0] && (a + b)[1..] == a[1..] + b;
      CollapseAppend(a[1..], b, IsSpace(a[0]));
      if |a| > 1 {
        assert a[1..][|a| - 2] == a[|a| - 1];
      }
    }
  }

  /** A non-empty run of whitespace emits one `-` when it starts a run and nothing when it continues one. */
  lemma {:induction false} CollapseAllSpace(run: string, inRun: bool)
    requires run != [] && forall i :: 0 <= i < |run| ==> IsSpace(run[i])
    ensures Collapse(run, inRun) == (if inRun then "" else "-")
    ensures EndsInRun(run, inRun)
    decreases |run|
  {
    if |run| > 1 {
      CollapseAllSpace(run[1..], true);
    }
  }

  /**
   * A word, then one whitespace run of any length, then text that does not
   * start with whitespace: the run becomes exactly one `-`.
   */
  lemma CollapseSpacesRun(a: string, run: string, b: string)
    requires NoSpace(a)
    requires run != [] && forall i :: 0 <= i < |run| ==> IsSpace(run[i])
    requires b == [] || !IsSpace(b[0])
    ensures CollapseSpaces(a + run + b) == a + "-" + CollapseSpaces(b)
  {
    CollapseAppend(a + run, b, false);
    CollapseAppend(a, run, false);
    CollapseNoSpace(a, false);
    assert !EndsInRun(a, false);
    CollapseAllSpace(run, false);
    assert EndsInRun(a + run, false) by {
      assert (a + run)[|a + run| - 1] == run[|run| - 1];
    }
    assert Collapse(b, true) == Collapse(b, false);
  }

  /** Two words joined by one space become the two words joined by `-`. */
  lemma CollapseWords(a: string, b: string)
    requires NoSpace(a) && NoSpace(b)
    ensures CollapseSpaces(a + " " + b) == a + "-" + b
  {
    CollapseSpacesRun(a, " ", b);
    CollapseNoSpace(b, false);
  }

  // ---------------------------------------------------------------------------
  // `replace(pattern, replacement)` with a string pattern: first occurrence only

  predicate OccursAt(s: string, pat: string, i: int) {
    0 <= i && i + |pat| <= |s| && s[i..i + |pat|] == pat
  }

  /** `indexOf`: the first position where `pat` occurs in `s`, if any. */
  function IndexOf(s: string, pat: string): (r: Option<nat>)
    ensures r.Some? ==> OccursAt(s, pat, r.value)
    decreases |s|
  {
    if |s| < |pat| then None
    else if s[..|pat|] == pat then Some(0)
    else
      match IndexOf(s[1..], pat)
      case None => None
      case Some(k) =>
        assert s[k + 1..k + 1 + |pat|] == s[1..][k..k + |pat|];
        Some(k + 1)
  }

  /** IndexOf finds the first occurrence, and finds nothing only when there is none. */
  lemma {:induction false} IndexOfSpec(s: string, pat: string)
    ensures IndexOf(s, pat).Some? ==> forall j :: 0 <= j < IndexOf(s, pat).value ==> !OccursAt(s, pat, j)
    ensures IndexOf(s, pat).None? ==> forall j :: !OccursAt(s, pat, j)
    decreases |s|
  {
    if |s| >= |pat| && s[..|pat|] != pat {
      IndexOfSpec(s[1..], pat);
      ShiftOccurrence(s, pat);
      assert !OccursAt(s, pat, 0);
    }
  }

  lemma ShiftOccurrence(s: string, pat: string)
    requires s != []
    ensures forall j {:trigger OccursAt(s, pat, j)} :: j >= 1 ==> (OccursAt(s, pat, j) <==> OccursAt(s[1..], pat, j - 1))
  {
    forall j | 1 <= j && j + |pat| <= |s|
      ensures OccursAt(s, pat, j) <==> OccursAt(s[1..], pat, j - 1)
    {
      var u, v := s[j..j + |pat|], s[1..][j - 1..j - 1 + |pat|];
      assert |u| == |v| && forall k :: 0 <= k < |u| ==> u[k] == v[k];
      assert u == v;
    }
  }

  /** No position matches when the pattern's first character never appears where a match could start. */
  lemma AbsentFirstChar(s: string, pat: string)
    requires pat != []
    requires forall i :: 0 <= i && i + |pat| <= |s| ==> s[i] != pat[0]
    ensures IndexOf(s, pat) == None
  {
    IndexOfSpec(s, pat);
    forall j | 0 <= j && j + |pat| <= |s| ensures !OccursAt(s, pat, j) {
      assert s[j..j + |pat|][0] == s[j];
    }
  }

  /** Text that starts with the pattern is matched at position 0. */
  lemma IndexOfAtStart(pat: string, t: string)
    ensures IndexOf(pat + t, pat) == Some(0)
  {
    assert (pat + t)[..|pat|] == pat;
  }

  /**
   * `s.replace(pat, rep)` with a string pattern: the first occurrence of `pat`
   * becomes `rep`; with no occurrence, `s` is returned unchanged.
   */
  function ReplaceFirst(s: string, pat: string, rep: string): (r: string)
    ensures IndexOf(s, pat).None? ==> r == s
    ensures IndexOf(s, pat).Some? ==>
      var i := IndexOf(s, pat).value;
      |r| == |s| - |pat| + |rep| && r[..i] == s[..i] && r[i..i + |rep|] == rep && r[i + |rep|..] == s[i + |pat|..]
  {
    match IndexOf(s, pat)
    case None => s
    case Some(i) => s[..i] + rep + s[i + |pat|..]
  }
}
