/**
 * The handful of Ruby `String` and `Array` operations the two plugins rely on,
 * with the semantics of the Ruby versions of their time: ASCII-only `downcase`,
 * line-anchored regular expressions (`$` is the end of a line, not of the
 * string), `split("\n")` dropping trailing empty fields, `strip`, `sort` by
 * character codes and `uniq` keeping first occurrences.
 */
module RubyText {

  // ---------------------------------------------------------------------------
  // downcase (ASCII only)
  // ---------------------------------------------------------------------------

  predicate IsUpper(c: char) { 'A' <= c <= 'Z' }

  function DowncaseChar(c: char): char {
    if IsUpper(c) then (c as int + 32) as char else c
  }

  /** `String#downcase`: every ASCII upper-case letter replaced by its lower case. */
  function Downcase(s: string): (r: string)
    ensures |r| == |s|
    ensures forall i :: 0 <= i < |r| ==> r[i] == DowncaseChar(s[i])
    ensures forall i :: 0 <= i < |r| ==> !IsUpper(r[i])
  {
    seq(|s|, i requires 0 <= i < |s| => DowncaseChar(s[i]))
  }

  lemma DowncaseIdempotent(s: string)
    ensures Downcase(Downcase(s)) == Downcase(s)
  {
  }

  lemma DowncasePrefix(p: string, s: string)
    requires p <= s
    ensures Downcase(p) <= Downcase(s)
  {
  }

  // ---------------------------------------------------------------------------
  // gsub(/c.*$/, ''): on every line, delete from the first `c` to the line's end
  // ---------------------------------------------------------------------------

  /** Drops characters up to (not including) the next line feed. */
  function SkipToLineEnd(s: string): (r: string)
    ensures |r| <= |s| && r == s[|s| - |r|..]
    ensures r == [] || r[0] == '\n'
    ensures forall k :: 0 <= k < |s| - |r| ==> s[k] != '\n'
  {
    if s == [] || s[0] == '\n' then s else SkipToLineEnd(s[1..])
  }

  /**
   * `s.gsub(/c.*$/, '')` for a character `c` that is neither a line feed nor a
   * regular-expression metacharacter: `.` does not cross a line feed and `$`
   * matches before one, so each line is cut at its first `c`.
   */
  function CutAtEachLine(s: string, c: char): (r: string)
    requires c != '\n'
    ensures c !in r
    ensures forall x :: x in r ==> x in s
    decreases |s|
  {
    if s == [] then []
    else if s[0] == c then CutAtEachLine(SkipToLineEnd(s[1..]), c)
    else [s[0]] + CutAtEachLine(s[1..], c)
  }

  /** Nothing to cut: the string is returned unchanged. */
  lemma {:induction false} CutAbsent(s: string, c: char)
    requires c != '\n' && c !in s
    ensures CutAtEachLine(s, c) == s
    decreases |s|
  {
    if s != [] {
      CutAbsent(s[1..], c);
    }
  }

  /** On a single line, the cut keeps exactly the part before the first `c`. */
  lemma {:induction false} CutSingleLine(s: string, c: char)
    requires c != '\n' && '\n' !in s
    ensures CutAtEachLine(s, c) <= s
    ensures var r := CutAtEachLine(s, c); |r| == |s| || s[|r|] == c
    decreases |s|
  {
    if s != [] && s[0] != c {
      CutSingleLine(s[1..], c);
      assert CutAtEachLine(s, c) == [s[0]] + CutAtEachLine(s[1..], c);
      assert s == [s[0]] + s[1..];
    } else if s != [] {
      assert SkipToLineEnd(s[1..]) == [];
      assert CutAtEachLine(s, c) == [];
    }
  }

  // ---------------------------------------------------------------------------
  // split("\n")
  // ---------------------------------------------------------------------------

  /** The fields between line feeds: one more field than there are line feeds. */
  function Fields(s: string): (r: seq<string>)
    ensures |r| >= 1
    ensures forall i :: 0 <= i < |r| ==> '\n' !in r[i]
    decreases |s|
  {
    if s == [] then [""]
    else
      var rest := Fields(s[1..]);
      if s[0] == '\n' then [""] + rest else [[s[0]] + rest[0]] + rest[1..]
  }

  /** The inverse of `Fields`: the fields joined with line feeds. */
  function JoinLines(fs: seq<string>): string
    requires |fs| >= 1
  {
    if |fs| == 1 then fs[0] else fs[0] + "\n" + JoinLines(fs[1..])
  }

  lemma {:induction false} JoinFields(s: string)
    ensures JoinLines(Fields(s)) == s
    decreases |s|
  {
    if s != [] {
      JoinFields(s[1..]);
      var rest := Fields(s[1..]);
      if s[0] != '\n' {
        var fs := Fields(s);
        assert fs[1..] == rest[1..];
        if |rest| == 1 {
          assert JoinLines(fs) == [s[0]] + rest[0];
        } else {
          assert JoinLines(fs) == [s[0]] + rest[0] + "\n" + JoinLines(rest[1..]);
        }
      }
    }
  }

  function DropTrailingEmpty(fs: seq<string>): (r: seq<string>)
    ensures r <= fs
    ensures r == [] || r[|r| - 1] != ""
    ensures forall i :: |r| <= i < |fs| ==> fs[i] == ""
  {
    if fs != [] && fs[|fs| - 1] == "" then DropTrailingEmpty(fs[..|fs| - 1]) else fs
  }

  /** `s.split("\n")`: the fields, with trailing empty fields suppressed. */
  function SplitLines(s: string): (r: seq<string>)
    ensures forall i :: 0 <= i < |r| ==> '\n' !in r[i]
    ensures r == [] || r[|r| - 1] != ""
  {
    DropTrailingEmpty(Fields(s))
  }

  /** No line is lost: joining the lines and the dropped empty fields gives `s` back. */
  lemma SplitLinesLosesOnlyEmptyFields(s: string)
    ensures SplitLines(s) <= Fields(s)
    ensures forall i :: |SplitLines(s)| <= i < |Fields(s)| ==> Fields(s)[i] == ""
    ensures JoinLines(Fields(s)) == s
  {
    JoinFields(s);
  }

  // ---------------------------------------------------------------------------
  // strip
  // ---------------------------------------------------------------------------

  /** ASCII white space: space, tab, line feed, vertical tab, form feed, carriage return. */
  predicate IsSpace(c: char) {
    c == ' ' || c == '\t' || c == '\n' || c == '\U{0B}' || c == '\U{0C}' || c == '\r'
  }

  /** `lstrip`: drops leading white space. */
  function TrimLeft(s: string): (r: string)
    ensures |r| <= |s| && r == s[|s| - |r|..]
    ensures forall k :: 0 <= k < |s| - |r| ==> IsSpace(s[k])
    ensures r == [] || !IsSpace(r[0])
    ensures forall x :: x in r ==> x in s
  {
    if s != [] && IsSpace(s[0]) then
      var r := TrimLeft(s[1..]);
      assert r == s[|s| - |r|..];
      assert forall k :: 1 <= k < |s| - |r| ==> s[k] == s[1..][k - 1];
      r
    else s
  }

  /** `rstrip`: drops trailing white space and trailing NUL characters. */
  function TrimRight(s: string): (r: string)
    ensures r <= s
    ensures forall k :: |r| <= k < |s| ==> IsSpace(s[k]) || s[k] == '\0'
    ensures r == [] || !(IsSpace(r[|r| - 1]) || r[|r| - 1] == '\0')
    ensures forall x :: x in r ==> x in s
  {
    if s != [] && (IsSpace(s[|s| - 1]) || s[|s| - 1] == '\0') then TrimRight(s[..|s| - 1]) else s
  }

  /**
   * `r` is `s[i..j]`, everything before `i` is white space, and everything
   * from `j` on is white space or NUL.
   */
  predicate StripSlice(s: string, r: string, i: int, j: int) {
    && 0 <= i <= j <= |s| && r == s[i..j]
    && (forall k :: 0 <= k < i ==> IsSpace(s[k]))
    && (forall k :: j <= k < |s| ==> IsSpace(s[k]) || s[k] == '\0')
  }

  /**
   * `strip`: the slice of `s` left after dropping leading white space and
   * trailing white space or NUL characters.
   */
  function Strip(s: string): (r: string)
    ensures r == [] || (!IsSpace(r[0]) && !(IsSpace(r[|r| - 1]) || r[|r| - 1] == '\0'))
    ensures forall x :: x in r ==> x in s
    ensures exists i, j :: StripSlice(s, r, i, j)
  {
    var l := TrimLeft(s);
    var r := TrimRight(l);
    TrimmedSlice(s, l, r);
    assert StripSlice(s, r, |s| - |l|, |s| - |l| + |r|);
    r
  }

  /** The bounds of the slice `strip` keeps, with what lies outside them. */
  lemma StripBounds(s: string) returns (i: int, j: int)
    ensures StripSlice(s, Strip(s), i, j)
  {
    i, j :| StripSlice(s, Strip(s), i, j);
  }

  /** Trimming the front and then the back leaves the slice between them. */
  lemma TrimmedSlice(s: string, l: string, r: string)
    requires |l| <= |s| && l == s[|s| - |l|..]
    requires forall k :: 0 <= k < |s| - |l| ==> IsSpace(s[k])
    requires r <= l
    requires forall k :: |r| <= k < |l| ==> IsSpace(l[k]) || l[k] == '\0'
    ensures StripSlice(s, r, |s| - |l|, |s| - |l| + |r|)
  {
    var i, j := |s| - |l|, |s| - |l| + |r|;
    assert r == s[i..j];
    forall k | j <= k < |s| ensures IsSpace(s[k]) || s[k] == '\0' {
      assert s[k] == l[k - i];
    }
  }

  // ---------------------------------------------------------------------------
  // sort (String#<=> compares character codes) and uniq
  // ---------------------------------------------------------------------------

  /** `a <= b` in Ruby's lexicographic string order. */
  predicate LessEq(a: string, b: string)
    decreases |a|
  {
    a == [] || (b != [] && (a[0] < b[0] || (a[0] == b[0] && LessEq(a[1..], b[1..]))))
  }

  lemma {:induction false} LessEqTotal(a: string, b: string)
    ensures LessEq(a, b) || LessEq(b, a)
    decreases |a|
  {
    if a != [] && b != [] && a[0] == b[0] {
      LessEqTotal(a[1..], b[1..]);
    }
  }

  lemma {:induction false} LessEqTransitive(a: string, b: string, c: string)
    requires LessEq(a, b) && LessEq(b, c)
    ensures LessEq(a, c)
    decreases |a|
  {
    if a != [] && a[0] == b[0] && b[0] == c[0] {
      LessEqTransitive(a[1..], b[1..], c[1..]);
    }
  }

  lemma {:induction false} LessEqAntisymmetric(a: string, b: string)
    requires LessEq(a, b) && LessEq(b, a)
    ensures a == b
    decreases |a|
  {
    if a != [] {
      LessEqAntisymmetric(a[1..], b[1..]);
    }
  }

  predicate Sorted(s: seq<string>) {
    forall i, j :: 0 <= i < j < |s| ==> LessEq(s[i], s[j])
  }

  /** Inserts `x` into a sorted sequence, before the first element it precedes. */
  function Insert(x: string, s: seq<string>): (r: seq<string>)
    requires Sorted(s)
    ensures Sorted(r)
    ensures multiset(r) == multiset(s) + multiset{x}
  {
    if s == [] then [x]
    else if LessEq(x, s[0]) then
      InsertFront(x, s);
      [x] + s
    else
      var t := Insert(x, s[1..]);
      assert s == [s[0]] + s[1..];
      InsertBehind(x, s, t);
      [s[0]] + t
  }

  lemma InsertFront(x: string, s: seq<string>)
    requires Sorted(s) && s != [] && LessEq(x, s[0])
    ensures Sorted([x] + s)
  {
    forall j | 0 < j < |s| ensures LessEq(x, s[j]) { LessEqTransitive(x, s[0], s[j]); }
  }

  lemma InsertBehind(x: string, s: seq<string>, t: seq<string>)
    requires Sorted(s) && s != [] && !LessEq(x, s[0])
    requires Sorted(t) && multiset(t) == multiset(s[1..]) + multiset{x}
    ensures Sorted([s[0]] + t)
  {
    LessEqTotal(x, s[0]);
    forall j | 0 <= j < |t| ensures LessEq(s[0], t[j]) {
      assert t[j] in multiset(t);
      if t[j] != x {
        assert t[j] in multiset(s[1..]);
        var k :| 0 <= k < |s[1..]| && s[1..][k] == t[j];
        assert s[k + 1] == t[j];
      }
    }
  }

  /** `Array#sort` on strings (stable insertion sort; equal strings are identical). */
  function SortStrings(s: seq<string>): (r: seq<string>)
    ensures Sorted(r)
    ensures multiset(r) == multiset(s)
  {
    if s == [] then []
    else
      assert s == [s[0]] + s[1..];
      Insert(s[0], SortStrings(s[1..]))
  }

  predicate NoDuplicates<T(==)>(s: seq<T>) {
    forall i, j :: 0 <= i < j < |s| ==> s[i] != s[j]
  }

  /** `Array#uniq`: keeps the first occurrence of every element, in order. */
  function Uniq(s: seq<string>): (r: seq<string>)
    ensures forall x :: x in r <==> x in s
    ensures NoDuplicates(r)
    ensures |r| <= |s|
  {
    if s == [] then []
    else
      var u := Uniq(s[..|s| - 1]);
      assert forall x :: x in s <==> x in s[..|s| - 1] || x == s[|s| - 1];
      if s[|s| - 1] in u then u else u + [s[|s| - 1]]
  }

  /**
   * `sort.uniq` yields strictly ascending strings: sorted, and no string is
   * at or below one that comes before it.
   */
  lemma {:induction false} UniqOfSorted(s: seq<string>)
    requires Sorted(s)
    ensures Sorted(Uniq(s))
    ensures forall i, j :: 0 <= i < j < |Uniq(s)| ==> !LessEq(Uniq(s)[j], Uniq(s)[i])
    decreases |s|
  {
    if s != [] {
      var p := s[..|s| - 1];
      assert Sorted(p);
      UniqOfSorted(p);
      var u := Uniq(p);
      var last := s[|s| - 1];
      if last !in u {
        forall i | 0 <= i < |u| ensures LessEq(u[i], last) {
          assert u[i] in p;
          var k :| 0 <= k < |p| && p[k] == u[i];
        }
        assert Uniq(s) == u + [last];
      }
    }
    var u := Uniq(s);
    forall i, j | 0 <= i < j < |u| ensures !LessEq(u[j], u[i]) {
      if LessEq(u[j], u[i]) {
        LessEqAntisymmetric(u[i], u[j]);
      }
    }
  }
}
