/**
 * The Python string operations the program relies on: substring test (`in`),
 * `str.split` on a one-character separator, `str.lower().strip()` on answers,
 * and the code-point order that `sorted()` uses on namespace names.
 */
module Text {

  // ---------------------------------------------------------------------------
  // Substring test
  // ---------------------------------------------------------------------------

  /** Python's `pat in s`: `pat` occurs as a contiguous piece of `s`. */
  predicate Contains(s: string, pat: string) {
    exists i | 0 <= i <= |s| - |pat| :: OccursAt(s, pat, i)
  }

  /** `pat` starts at position `i` of `s`. */
  predicate OccursAt(s: string, pat: string, i: int) {
    0 <= i <= |s| - |pat| && s[i..i + |pat|] == pat
  }

  /** Whatever contains a non-empty pattern contains the pattern's first character. */
  lemma ContainsHead(s: string, pat: string)
    requires |pat| > 0 && Contains(s, pat)
    ensures pat[0] in s
  {
    var i :| 0 <= i <= |s| - |pat| && OccursAt(s, pat, i);
    assert s[i] == s[i..i + |pat|][0];
  }

  /** A pattern placed between two strings is found. */
  lemma ContainsPlaced(a: string, pat: string, b: string)
    ensures Contains(a + pat + b, pat)
  {
    var s := a + pat + b;
    assert s[|a|..|a| + |pat|] == pat;
    assert OccursAt(s, pat, |a|);
  }

  // ---------------------------------------------------------------------------
  // str.split(d) and its inverse d.join(...)
  // ---------------------------------------------------------------------------

  /**
   * Python's `s.split(d)` for a one-character separator: the pieces between
   * separators, so there is always one more piece than there are separators
   * (`"".split("_") == [""]`), and no piece contains the separator.
   */
  function Split(s: string, d: char): (parts: seq<string>)
    ensures |parts| >= 1
  {
    if s == [] then [[]]
    else
      assert s == [s[0]] + s[1..];
      var rest := Split(s[1..], d);
      if s[0] == d then [[]] + rest
      else [[s[0]] + rest[0]] + rest[1..]
  }

  /** Python's `d.join(parts)`. */
  function Join(parts: seq<string>, d: char): string {
    if parts == [] then []
    else if |parts| == 1 then parts[0]
    else parts[0] + [d] + Join(parts[1..], d)
  }

  /** A string holding the separator splits into at least two pieces. */
  lemma {:induction false} SplitAtSeparator(s: string, d: char)
    requires d in s
    ensures |Split(s, d)| >= 2
  {
    assert s == [s[0]] + s[1..];
    if s[0] != d {
      SplitAtSeparator(s[1..], d);
    }
  }

  /** Joining a piece in front of at least one more piece puts a separator between them. */
  lemma JoinCons(p: string, rest: seq<string>, d: char)
    requires rest != []
    ensures Join([p] + rest, d) == p + [d] + Join(rest, d)
  {
    assert ([p] + rest)[1..] == rest;
  }

  /** One step of `JoinSplit`: the round trip for `s` follows from the one for its tail. */
  lemma JoinSplitStep(s: string, d: char)
    requires s != [] && Join(Split(s[1..], d), d) == s[1..]
    ensures Join(Split(s, d), d) == s
  {
    var rest := Split(s[1..], d);
    assert s == [s[0]] + s[1..];
    if s[0] == d {
      assert Split(s, d) == [[]] + rest;
      JoinCons([], rest, d);
    } else {
      assert Split(s, d) == [[s[0]] + rest[0]] + rest[1..];
      JoinSplitGlue(s[0], rest, d);
    }
  }

  /** Gluing a character to the first piece puts it in front of the join. */
  lemma JoinSplitGlue(c: char, rest: seq<string>, d: char)
    requires rest != []
    ensures Join([[c] + rest[0]] + rest[1..], d) == [c] + Join(rest, d)
  {
    if |rest| == 1 {
      assert [[c] + rest[0]] + rest[1..] == [[c] + rest[0]];
    } else {
      assert rest == [rest[0]] + rest[1..];
      JoinCons(rest[0], rest[1..], d);
      JoinCons([c] + rest[0], rest[1..], d);
    }
  }

  /** Joining the pieces of a split gives back the original string. */
  lemma {:induction false} JoinSplit(s: string, d: char)
    ensures Join(Split(s, d), d) == s
  {
    if s != [] {
      JoinSplit(s[1..], d);
      JoinSplitStep(s, d);
    }
  }

  /** A string without the separator splits into itself alone. */
  lemma {:induction false} SplitNoSeparator(a: string, d: char)
    requires d !in a
    ensures Split(a, d) == [a]
  {
    if a != [] {
      assert d !in a[1..];
      SplitNoSeparator(a[1..], d);
      assert [a[0]] + a[1..] == a;
    }
  }

  /** A separator-free token followed by the separator is split off as the first piece. */
  lemma {:induction false} SplitLeadingToken(a: string, d: char, r: string)
    requires d !in a
    ensures Split(a + [d] + r, d) == [a] + Split(r, d)
  {
    var s := a + [d] + r;
    if a == [] {
      assert s[1..] == r;
    } else {
      assert s[1..] == a[1..] + [d] + r;
      SplitLeadingToken(a[1..], d, r);
      assert [a[0]] + a[1..] == a;
    }
  }

  /** Splitting a join of separator-free pieces gives back the pieces. */
  lemma {:induction false} SplitJoin(parts: seq<string>, d: char)
    requires |parts| >= 1
    requires forall k | 0 <= k < |parts| :: d !in parts[k]
    ensures Split(Join(parts, d), d) == parts
  {
    if |parts| == 1 {
      SplitNoSeparator(parts[0], d);
    } else {
      SplitJoin(parts[1..], d);
      SplitLeadingToken(parts[0], d, Join(parts[1..], d));
      assert [parts[0]] + parts[1..] == parts;
    }
  }

  // ---------------------------------------------------------------------------
  // str.lower() and str.strip()
  // ---------------------------------------------------------------------------

  /** The characters Python's `str.strip()` removes (those for which `isspace()` holds). */
  predicate IsSpace(c: char) {
    c == ' ' || '\t' <= c <= '\r' || '\U{1C}' <= c <= '\U{1F}' || c == '\U{85}' || c == '\U{A0}'
    || c == '\U{1680}' || '\U{2000}' <= c <= '\U{200A}' || c == '\U{2028}' || c == '\U{2029}'
    || c == '\U{202F}' || c == '\U{205F}' || c == '\U{3000}'
  }

  /** Lower-casing of one character (ASCII letters only). */
  function LowerChar(c: char): char {
    if 'A' <= c <= 'Z' then (c as int - 'A' as int + 'a' as int) as char else c
  }

  /** Python's `s.lower()`, character by character. */
  function Lower(s: string): (r: string)
    ensures |r| == |s|
    ensures forall i | 0 <= i < |s| :: r[i] == LowerChar(s[i])
  {
    if s == [] then [] else [LowerChar(s[0])] + Lower(s[1..])
  }

  /** Drops leading white space. */
  function StripLeft(s: string): string {
    if s != [] && IsSpace(s[0]) then StripLeft(s[1..]) else s
  }

  /** Drops trailing white space. */
  function StripRight(s: string): string {
    if s != [] && IsSpace(s[|s| - 1]) then StripRight(s[..|s| - 1]) else s
  }

  /** Python's `s.strip()`. */
  function Strip(s: string): string {
    StripRight(StripLeft(s))
  }

  /** Python's `s.lower().strip()`, applied to every answer the operator types. */
  function Normalize(s: string): string {
    Strip(Lower(s))
  }

  /** `StripLeft` removes exactly a run of leading white space. */
  lemma {:induction false} StripLeftDrops(s: string) returns (k: nat)
    ensures k <= |s| && StripLeft(s) == s[k..]
    ensures forall i | 0 <= i < k :: IsSpace(s[i])
    ensures k < |s| ==> !IsSpace(s[k])
  {
    if s != [] && IsSpace(s[0]) {
      var k' := StripLeftDrops(s[1..]);
      k := k' + 1;
      assert s[1..][k'..] == s[k..];
    } else {
      k := 0;
    }
  }

  /** `StripRight` removes exactly a run of trailing white space. */
  lemma {:induction false} StripRightKeeps(s: string) returns (m: nat)
    ensures m <= |s| && StripRight(s) == s[..m]
    ensures forall i | m <= i < |s| :: IsSpace(s[i])
    ensures 0 < m ==> !IsSpace(s[m - 1])
  {
    if s != [] && IsSpace(s[|s| - 1]) {
      m := StripRightKeeps(s[..|s| - 1]);
      assert s[..|s| - 1][..m] == s[..m];
    } else {
      m := |s|;
    }
  }

  /** Leading white space in front of a non-space is removed by `StripLeft`. */
  lemma {:induction false} StripLeftPadding(ws: string, t: string)
    requires forall i | 0 <= i < |ws| :: IsSpace(ws[i])
    requires t != [] && !IsSpace(t[0])
    ensures StripLeft(ws + t) == t
  {
    if ws == [] {
      assert ws + t == t;
    } else {
      assert (ws + t)[1..] == ws[1..] + t;
      StripLeftPadding(ws[1..], t);
    }
  }

  /** Trailing white space after a non-space is removed by `StripRight`. */
  lemma {:induction false} StripRightPadding(t: string, ws: string)
    requires forall i | 0 <= i < |ws| :: IsSpace(ws[i])
    requires t != [] && !IsSpace(t[|t| - 1])
    ensures StripRight(t + ws) == t
  {
    if ws == [] {
      assert t + ws == t;
    } else {
      assert (t + ws)[..|t + ws| - 1] == t + ws[..|ws| - 1];
      StripRightPadding(t, ws[..|ws| - 1]);
    }
  }

  /**
   * An answer normalises to one character exactly when it is that character
   * (in either case) with only white space around it: the "if" direction.
   */
  lemma NormalizePadded(ws1: string, c: char, ws2: string)
    requires forall i | 0 <= i < |ws1| :: IsSpace(ws1[i])
    requires forall i | 0 <= i < |ws2| :: IsSpace(ws2[i])
    requires !IsSpace(c)
    ensures Normalize(ws1 + [c] + ws2) == [LowerChar(c)]
  {
    var s := ws1 + [c] + ws2;
    var low := Lower(s);
    var l1, l2 := low[..|ws1|], low[|ws1| + 1..];
    assert low == l1 + [LowerChar(c)] + l2;
    assert forall i | 0 <= i < |l1| :: IsSpace(l1[i]) by {
      forall i | 0 <= i < |l1| ensures IsSpace(l1[i]) {
        assert l1[i] == LowerChar(s[i]) && s[i] == ws1[i];
      }
    }
    assert forall i | 0 <= i < |l2| :: IsSpace(l2[i]) by {
      forall i | 0 <= i < |l2| ensures IsSpace(l2[i]) {
        assert l2[i] == LowerChar(s[|ws1| + 1 + i]) && s[|ws1| + 1 + i] == ws2[i];
      }
    }
    assert l1 + [LowerChar(c)] + l2 == l1 + ([LowerChar(c)] + l2);
    StripLeftPadding(l1, [LowerChar(c)] + l2);
    StripRightPadding([LowerChar(c)], l2);
  }

  /** The "only if" direction: a one-character answer is one non-space character among spaces. */
  lemma NormalizeSingle(s: string, x: char)
    requires Normalize(s) == [x]
    ensures exists i | 0 <= i < |s| ::
              LowerChar(s[i]) == x && (forall j | 0 <= j < |s| && j != i :: IsSpace(s[j]))
  {
    var low := Lower(s);
    var k := StripLeftDrops(low);
    var m := StripRightKeeps(low[k..]);
    assert low[k..][..m] == [x];
    assert low[k] == x;
    forall j | 0 <= j < |s| && j != k ensures IsSpace(s[j]) {
      if j < k {
        assert IsSpace(low[j]);
      } else {
        assert IsSpace(low[k..][j - k]);
      }
    }
  }

  // ---------------------------------------------------------------------------
  // The order `sorted()` puts strings in, and sorted insertion
  // ---------------------------------------------------------------------------

  /** Python's `a < b` on strings: lexicographic by code point, a proper prefix first. */
  predicate StrLess(a: string, b: string) {
    if a == [] then b != []
    else b != [] && (a[0] < b[0] || (a[0] == b[0] && StrLess(a[1..], b[1..])))
  }

  lemma {:induction false} StrLessIrreflexive(a: string)
    ensures !StrLess(a, a)
  {
    if a != [] {
      StrLessIrreflexive(a[1..]);
    }
  }

  lemma {:induction false} StrLessTransitive(a: string, b: string, c: string)
    requires StrLess(a, b) && StrLess(b, c)
    ensures StrLess(a, c)
  {
    if a != [] && a[0] == b[0] && b[0] == c[0] {
      StrLessTransitive(a[1..], b[1..], c[1..]);
    }
  }

  lemma {:induction false} StrLessTotal(a: string, b: string)
    requires a != b
    ensures StrLess(a, b) || StrLess(b, a)
  {
    if a != [] && b != [] && a[0] == b[0] {
      assert a == [a[0]] + a[1..] && b == [b[0]] + b[1..];
      StrLessTotal(a[1..], b[1..]);
    }
  }

  lemma {:induction false} StrLessAsymmetric(a: string, b: string)
    requires StrLess(a, b)
    ensures !StrLess(b, a)
  {
    if a != [] && a[0] == b[0] {
      StrLessAsymmetric(a[1..], b[1..]);
    }
  }

  /** Strictly ascending, hence without repetitions. */
  predicate StrictlySorted(xs: seq<string>) {
    forall i, j | 0 <= i < j < |xs| :: StrLess(xs[i], xs[j])
  }

  /** Inserts a new string at its place in a strictly ascending sequence. */
  function InsertSorted(xs: seq<string>, x: string): (r: seq<string>)
    requires StrictlySorted(xs) && x !in xs
    ensures StrictlySorted(r)
    ensures |r| == |xs| + 1
    ensures forall y :: y in r <==> y in xs || y == x
  {
    if xs == [] then [x]
    else if StrLess(x, xs[0]) then
      assert forall k | 0 <= k < |xs| :: StrLess(x, xs[k]) by {
        forall k | 0 < k < |xs| ensures StrLess(x, xs[k]) {
          StrLessTransitive(x, xs[0], xs[k]);
        }
      }
      [x] + xs
    else
      StrLessTotal(x, xs[0]);
      var tail := InsertSorted(xs[1..], x);
      assert forall y :: y in xs <==> y == xs[0] || y in xs[1..] by {
        assert xs == [xs[0]] + xs[1..];
      }
      assert forall k | 0 <= k < |tail| :: StrLess(xs[0], tail[k]) by {
        forall k | 0 <= k < |tail| ensures StrLess(xs[0], tail[k]) {
          if tail[k] != x {
            assert tail[k] in xs[1..];
            var p :| 0 <= p < |xs| - 1 && xs[1..][p] == tail[k];
            assert xs[p + 1] == tail[k];
          }
        }
      }
      [xs[0]] + tail
  }

  /** Two strictly ascending sequences with the same elements are the same sequence. */
  lemma {:induction false} SortedUnique(a: seq<string>, b: seq<string>)
    requires StrictlySorted(a) && StrictlySorted(b)
    requires forall y :: y in a <==> y in b
    ensures a == b
  {
    if a == [] || b == [] {
      FirstIsElement(a);
      FirstIsElement(b);
    } else {
      assert a[0] in b;
      assert b[0] in a;
      var i :| 0 <= i < |b| && b[i] == a[0];
      var j :| 0 <= j < |a| && a[j] == b[0];
      if i != 0 {
        StrLessIrreflexive(a[0]);
        assert j != 0;
        assert StrLess(b[0], a[0]) && StrLess(a[0], b[0]);
        StrLessAsymmetric(a[0], b[0]);
      }
      forall y ensures y in a[1..] <==> y in b[1..] {
        if y in a[1..] {
          var p :| 1 <= p < |a| && a[p] == y;
          assert StrLess(a[0], y);
          StrLessIrreflexive(y);
          assert y in b;
        }
        if y in b[1..] {
          var p :| 1 <= p < |b| && b[p] == y;
          assert StrLess(b[0], y);
          StrLessIrreflexive(y);
          assert y in a;
        }
      }
      SortedUnique(a[1..], b[1..]);
      assert a == [a[0]] + a[1..] && b == [b[0]] + b[1..];
    }
  }

  /** The first element of a non-empty sequence is one of its elements. */
  lemma FirstIsElement(xs: seq<string>)
    ensures xs != [] ==> xs[0] in xs
  {
  }
}
