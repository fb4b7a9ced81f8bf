/** The part of JavaScript's `String.prototype` that the prompt loader uses
    (`startsWith`, `endsWith`, `indexOf`, `split`, `join`, `trim`) and the
    order in which `Array.prototype.sort` arranges strings by default,
    over Dafny strings (sequences of Unicode scalar values). */
module JsString {

  /** `s.startsWith(p)` */
  predicate StartsWith(s: string, p: string) {
    |p| <= |s| && s[..|p|] == p
  }

  /** `s.endsWith(p)` */
  predicate EndsWith(s: string, p: string) {
    |p| <= |s| && s[|s| - |p|..] == p
  }

  /** `startsWith` holds exactly when `p` matches the characters at the
      start of `s` one by one. */
  lemma StartsWithMatches(s: string, p: string)
    ensures StartsWith(s, p) <==> |p| <= |s| && forall k :: 0 <= k < |p| ==> s[k] == p[k]
  {
    if |p| <= |s| && forall k :: 0 <= k < |p| ==> s[k] == p[k] {
      assert s[..|p|] == p;
    }
  }

  /** `endsWith` holds exactly when `p` matches the last characters of `s`
      one by one. */
  lemma EndsWithMatches(s: string, p: string)
    ensures EndsWith(s, p) <==> |p| <= |s| && forall k :: 0 <= k < |p| ==> s[|s| - |p| + k] == p[k]
  {
    if |p| <= |s| && forall k :: 0 <= k < |p| ==> s[|s| - |p| + k] == p[k] {
      assert s[|s| - |p|..] == p;
    }
  }

  /** `d` occurs in `s` starting at position `i`. */
  predicate OccursAt(s: string, d: string, i: nat) {
    i + |d| <= |s| && s[i..i + |d|] == d
  }

  /** `s.indexOf(d, from)`: the first position at or after `from` where `d`
      occurs, or -1 when there is none. A position it returns leaves room for
      `d` before the end of `s`. */
  function IndexOf(s: string, d: string, from: nat): (r: int)
    requires from <= |s|
    ensures r == -1 || (from <= r && r + |d| <= |s|)
    decreases |s| - from
  {
    if from + |d| > |s| then -1
    else if s[from..from + |d|] == d then from
    else IndexOf(s, d, from + 1)
  }

  /** `indexOf` returns a position where `d` occurs, or -1. */
  lemma {:induction false} IndexOfOccurs(s: string, d: string, from: nat)
    requires from <= |s|
    ensures IndexOf(s, d, from) == -1 || OccursAt(s, d, IndexOf(s, d, from))
    decreases |s| - from
  {
    if from + |d| <= |s| && s[from..from + |d|] != d {
      IndexOfOccurs(s, d, from + 1);
    }
  }

  /** `indexOf` finds the first occurrence: `d` occurs nowhere from `from`
      up to the position it returns, nor anywhere from `from` when it
      returns -1. */
  lemma {:induction false} IndexOfFindsFirst(s: string, d: string, from: nat, k: nat)
    requires from <= k <= |s|
    requires IndexOf(s, d, from) == -1 || k < IndexOf(s, d, from)
    ensures !OccursAt(s, d, k)
    decreases |s| - from
  {
    if from < k {
      IndexOfFindsFirst(s, d, from + 1, k);
    }
  }

  /** `d` occurs nowhere in `t`. */
  predicate Free(t: string, d: string) {
    forall k :: 0 <= k <= |t| ==> !OccursAt(t, d, k)
  }

  /** `s.split(d)` for a non-empty separator `d`: the pieces of `s` between
      successive non-overlapping occurrences of `d`, found from the left.
      (The standard's special case for the empty string, which returns
      `[""]`, is the same as the general case here.) There is always at
      least one piece. */
  function Split(s: string, d: string): (parts: seq<string>)
    requires |d| > 0
    ensures |parts| >= 1
  {
    SplitFrom(s, d, 0)
  }

  /** The piece that starts at `i` runs up to the first occurrence of `d`
      at or after `i`, so it holds no occurrence of `d` itself. */
  lemma PieceIsFree(s: string, d: string, i: nat)
    requires |d| > 0 && i <= |s|
    ensures var j := IndexOf(s, d, i);
      Free(if j == -1 then s[i..] else s[i..j], d)
  {
    var j := IndexOf(s, d, i);
    var end := if j == -1 then |s| else j;
    var piece := s[i..end];
    assert piece == if j == -1 then s[i..] else s[i..j];
    forall k | 0 <= k <= |piece| && OccursAt(piece, d, k) ensures false {
      OccursInside(s, d, i, end, k);
      IndexOfFindsFirst(s, d, i, i + k);
    }
  }

  /** An occurrence inside `s[i..end]` is an occurrence in `s`. */
  lemma OccursInside(s: string, d: string, i: nat, end: nat, k: nat)
    requires i <= end <= |s| && OccursAt(s[i..end], d, k)
    ensures OccursAt(s, d, i + k) && i + k + |d| <= end
  {
    var t := s[i..end];
    forall m | 0 <= m < |d| ensures s[i + k + m] == d[m] {
      assert t[k..k + |d|][m] == t[k + m] == s[i + k + m];
    }
    assert s[i + k..i + k + |d|] == d;
  }

  /** The pieces of `s[i..]`, as the splitting loop produces them once it
      has reached position `i`. */
  function SplitFrom(s: string, d: string, i: nat): (parts: seq<string>)
    requires |d| > 0 && i <= |s|
    ensures |parts| >= 1
    decreases |s| - i
  {
    var j := IndexOf(s, d, i);
    if j == -1 then [s[i..]] else [s[i..j]] + SplitFrom(s, d, j + |d|)
  }

  /** No piece of a split holds the separator. */
  lemma {:induction false} SplitFromPiecesFree(s: string, d: string, i: nat)
    requires |d| > 0 && i <= |s|
    ensures forall k :: 0 <= k < |SplitFrom(s, d, i)| ==> Free(SplitFrom(s, d, i)[k], d)
    decreases |s| - i
  {
    var j := IndexOf(s, d, i);
    PieceIsFree(s, d, i);
    if j != -1 {
      var rest := SplitFrom(s, d, j + |d|);
      SplitFromPiecesFree(s, d, j + |d|);
      SplitFromStep(s, d, i);
      var parts := [s[i..j]] + rest;
      forall k | 0 <= k < |parts| ensures Free(parts[k], d) {
        if k > 0 {
          assert parts[k] == rest[k - 1];
        }
      }
    }
  }

  /** `s.split(d)` never yields a piece that holds `d`. */
  lemma SplitPiecesFree(s: string, d: string)
    requires |d| > 0
    ensures forall k :: 0 <= k < |Split(s, d)| ==> Free(Split(s, d)[k], d)
  {
    SplitFromPiecesFree(s, d, 0);
  }

  /** The total length of the pieces. */
  function TotalLength(parts: seq<string>): nat
  {
    if parts == [] then 0 else |parts[0]| + TotalLength(parts[1..])
  }

  /** `parts.join(d)` */
  function Join(parts: seq<string>, d: string): (s: string)
  {
    if |parts| == 0 then ""
    else if |parts| == 1 then parts[0]
    else parts[0] + d + Join(parts[1..], d)
  }

  /** `join` puts the pieces in order with one `d` between each two: the
      text is as long as the pieces and the separators together, starts
      with the first piece and, when there is a second, has `d` right after
      the first. */
  lemma {:induction false} JoinShape(parts: seq<string>, d: string)
    ensures parts == [] ==> Join(parts, d) == ""
    ensures parts != [] ==> |Join(parts, d)| == TotalLength(parts) + (|parts| - 1) * |d|
    ensures parts != [] ==> StartsWith(Join(parts, d), parts[0])
    ensures |parts| >= 2 ==> OccursAt(Join(parts, d), d, |parts[0]|)
  {
    if |parts| >= 2 {
      JoinShape(parts[1..], d);
      var s := Join(parts, d);
      assert s == parts[0] + d + Join(parts[1..], d);
      assert s[..|parts[0]|] == parts[0];
      assert s[|parts[0]|..|parts[0]| + |d|] == d;
    }
  }

  lemma JoinCons(first: string, rest: seq<string>, d: string)
    requires rest != []
    ensures Join([first] + rest, d) == first + d + Join(rest, d)
  {
    assert ([first] + rest)[1..] == rest;
  }

  /** Joining the pieces with the separator they were split on gives back the
      text they were split from. */
  lemma {:induction false} JoinSplitFrom(s: string, d: string, i: nat)
    requires |d| > 0 && i <= |s|
    ensures Join(SplitFrom(s, d, i), d) == s[i..]
    decreases |s| - i
  {
    var j := IndexOf(s, d, i);
    IndexOfOccurs(s, d, i);
    if j != -1 {
      var next := j + |d|;
      var rest := SplitFrom(s, d, next);
      SplitFromStep(s, d, i);
      JoinSplitFrom(s, d, next);
      JoinCons(s[i..j], rest, d);
      assert s[j..next] == d;
      assert s[i..] == s[i..j] + s[j..next] + s[next..];
    }
  }

  /** `s.split(d).join(d) == s` */
  lemma JoinSplit(s: string, d: string)
    requires |d| > 0
    ensures Join(Split(s, d), d) == s
  {
    JoinSplitFrom(s, d, 0);
  }

  /** A text that starts with `d` splits into an empty first piece followed
      by the pieces of the rest. */
  lemma SplitLeadingSeparator(s: string, d: string)
    requires |d| > 0 && StartsWith(s, d)
    ensures Split(s, d) == [""] + SplitFrom(s, d, |d|)
  {
    assert OccursAt(s, d, 0);
  }

  /** For a text that starts with `d`: splitting on `d` gives at least three
      pieces exactly when `d` occurs a second time; the first piece is then
      empty, the second is the text between the two occurrences (which holds
      no occurrence of `d`), and the pieces from the third on, joined with
      `d`, are exactly the text after the second occurrence. */
  lemma SplitFrontMatter(s: string, d: string)
    requires |d| > 0 && StartsWith(s, d)
    ensures Split(s, d)[0] == ""
    ensures |Split(s, d)| >= 3 <==> IndexOf(s, d, |d|) != -1
    ensures IndexOf(s, d, |d|) != -1 ==>
      var second := IndexOf(s, d, |d|);
      && Split(s, d)[1] == s[|d|..second]
      && Join(Split(s, d)[2..], d) == s[second + |d|..]
  {
    SplitLeadingSeparator(s, d);
    if IndexOf(s, d, |d|) == -1 {
      SplitWithoutSecond(s, d);
    } else {
      SplitWithSecond(s, d);
    }
  }

  /** Without a second `d`, the text splits into two pieces. */
  lemma SplitWithoutSecond(s: string, d: string)
    requires |d| > 0 && StartsWith(s, d) && IndexOf(s, d, |d|) == -1
    ensures Split(s, d) == ["", s[|d|..]]
  {
    SplitLeadingSeparator(s, d);
  }

  /** With a second `d`, the pieces after the first two rebuild the text
      after it. */
  lemma SplitWithSecond(s: string, d: string)
    requires |d| > 0 && StartsWith(s, d) && IndexOf(s, d, |d|) != -1
    ensures var second := IndexOf(s, d, |d|);
      && Split(s, d) == ["", s[|d|..second]] + SplitFrom(s, d, second + |d|)
      && Join(Split(s, d)[2..], d) == s[second + |d|..]
  {
    var second := IndexOf(s, d, |d|);
    var rest := SplitFrom(s, d, second + |d|);
    SplitPieces(s, d, second, rest);
    var parts := ["", s[|d|..second]] + rest;
    assert parts[2..] == rest;
    JoinSplitFrom(s, d, second + |d|);
  }

  lemma SplitPieces(s: string, d: string, second: int, rest: seq<string>)
    requires |d| > 0 && StartsWith(s, d) && second == IndexOf(s, d, |d|) != -1
    requires rest == SplitFrom(s, d, second + |d|)
    ensures Split(s, d) == ["", s[|d|..second]] + rest
  {
    SplitLeadingSeparator(s, d);
    SplitFromStep(s, d, |d|);
    ConsTwo("", s[|d|..second], rest);
  }

  lemma ConsTwo<T>(x: T, y: T, rest: seq<T>)
    ensures [x] + ([y] + rest) == [x, y] + rest
  {
  }

  /** Splitting from `i` when `d` occurs again: the piece up to that
      occurrence, then the pieces after it. */
  lemma SplitFromStep(s: string, d: string, i: nat)
    requires |d| > 0 && i <= |s| && IndexOf(s, d, i) != -1
    ensures var j := IndexOf(s, d, i);
      i <= j && SplitFrom(s, d, i) == [s[i..j]] + SplitFrom(s, d, j + |d|)
  {
  }


  /** The ECMAScript WhiteSpace code points: tab, vertical tab, form feed,
      the byte order mark, and the space separators of Unicode category Zs
      (space, no-break space, ogham space mark, en quad through hair space,
      narrow no-break space, medium mathematical space, ideographic space). */
  const WhiteSpaceChars: set<char> := {
    '\t', '\U{B}', '\U{C}', '\U{FEFF}',
    ' ', '\U{A0}', '\U{1680}',
    '\U{2000}', '\U{2001}', '\U{2002}', '\U{2003}', '\U{2004}', '\U{2005}',
    '\U{2006}', '\U{2007}', '\U{2008}', '\U{2009}', '\U{200A}',
    '\U{202F}', '\U{205F}', '\U{3000}'}

  /** The ECMAScript LineTerminator code points: line feed, carriage return,
      line separator and paragraph separator. */
  const LineTerminatorChars: set<char> := {'\n', '\r', '\U{2028}', '\U{2029}'}

  /** The characters `String.prototype.trim` removes, tested by ranges as an
      engine would. */
  predicate IsTrimmable(c: char) {
    || c == '\t' || c == '\U{B}' || c == '\U{C}' || c == ' ' || c == '\U{A0}' || c == '\U{FEFF}'
    || c == '\U{1680}' || ('\U{2000}' <= c <= '\U{200A}') || c == '\U{202F}' || c == '\U{205F}'
    || c == '\U{3000}'
    || c == '\n' || c == '\r' || c == '\U{2028}' || c == '\U{2029}'
  }

  /** The range test accepts exactly the WhiteSpace and LineTerminator code
      points. */
  lemma TrimmableChars(c: char)
    ensures IsTrimmable(c) <==> c in WhiteSpaceChars || c in LineTerminatorChars
  {
  }

  /** `s` neither begins nor ends with a trimmable character. */
  predicate Trimmed(s: string) {
    s == [] || (!IsTrimmable(s[0]) && !IsTrimmable(s[|s| - 1]))
  }

  /** How many trimmable characters `s` begins with. */
  function LeadingTrimmable(s: string): (n: nat)
    ensures n <= |s|
    ensures forall k :: 0 <= k < n ==> IsTrimmable(s[k])
    ensures n == |s| || !IsTrimmable(s[n])
  {
    if s != [] && IsTrimmable(s[0]) then
      var n := 1 + LeadingTrimmable(s[1..]);
      assert forall k :: 1 <= k < n ==> s[k] == s[1..][k - 1];
      n
    else 0
  }

  /** How many trimmable characters `s` ends with. */
  function TrailingTrimmable(s: string): (n: nat)
    ensures n <= |s|
    ensures forall k :: |s| - n <= k < |s| ==> IsTrimmable(s[k])
    ensures n == |s| || !IsTrimmable(s[|s| - n - 1])
  {
    if s != [] && IsTrimmable(s[|s| - 1]) then
      var n := 1 + TrailingTrimmable(s[..|s| - 1]);
      assert forall k :: 0 <= k < |s| - 1 ==> s[k] == s[..|s| - 1][k];
      n
    else 0
  }

  /** `s.trim()`: the part of `s` between its leading and its trailing run
      of trimmable characters. */
  function Trim(s: string): (r: string)
    ensures Trimmed(r)
    ensures var i := LeadingTrimmable(s);
      && i + |r| <= |s| && r == s[i..i + |r|]
      && (forall k :: 0 <= k < i ==> IsTrimmable(s[k]))
      && (forall k :: i + |r| <= k < |s| ==> IsTrimmable(s[k]))
  {
    var i := LeadingTrimmable(s);
    var n := TrailingTrimmable(s);
    if n == |s| then [] else s[i..|s| - n]
  }

  /** Trim is fixed by any split of `s` into a trimmable prefix, a trimmed
      middle and a trimmable suffix: the middle is what `trim` returns. */
  lemma TrimUnique(prefix: string, middle: string, suffix: string)
    requires forall k :: 0 <= k < |prefix| ==> IsTrimmable(prefix[k])
    requires forall k :: 0 <= k < |suffix| ==> IsTrimmable(suffix[k])
    requires Trimmed(middle)
    ensures Trim(prefix + middle + suffix) == middle
  {
    var s := prefix + middle + suffix;
    var r := Trim(s);
    var i := LeadingTrimmable(s);
    assert forall k :: 0 <= k < |prefix| ==> s[k] == prefix[k];
    assert forall k :: |prefix| + |middle| <= k < |s| ==> s[k] == suffix[k - |prefix| - |middle|];
    if middle != [] {
      assert s[|prefix|] == middle[0];
      assert s[|prefix| + |middle| - 1] == middle[|middle| - 1];
      assert i == |prefix|;
      assert i + |r| == |prefix| + |middle|;
      assert s[|prefix|..|prefix| + |middle|] == middle;
    }
  }

  /** The UTF-16 code units of one character, as JavaScript stores it. */
  function CodeUnits(c: char): (u: seq<int>)
  {
    var n := c as int;
    if n < 0x1_0000 then [n]
    else [0xD800 + (n - 0x1_0000) / 0x400, 0xDC00 + (n - 0x1_0000) % 0x400]
  }

  /** The UTF-16 code units of a string. */
  function Utf16(s: string): (u: seq<int>)
  {
    if s == [] then [] else CodeUnits(s[0]) + Utf16(s[1..])
  }

  /** Strict lexicographic order of code unit sequences: a proper prefix comes
      first, otherwise the first differing unit decides. */
  predicate LexLess(x: seq<int>, y: seq<int>)
  {
    y != [] && (x == [] || x[0] < y[0] || (x[0] == y[0] && LexLess(x[1..], y[1..])))
  }

  /** The order in which `Array.prototype.sort` without a comparator puts
      strings: by their UTF-16 code units (which differs from code point
      order for characters above U+FFFF against U+E000..U+FFFF). */
  predicate CodeUnitLess(a: string, b: string)
  {
    LexLess(Utf16(a), Utf16(b))
  }

  lemma {:induction false} LexLessIrreflexive(x: seq<int>)
    ensures !LexLess(x, x)
  {
    if x != [] {
      LexLessIrreflexive(x[1..]);
    }
  }

  lemma {:induction false} LexLessTransitive(x: seq<int>, y: seq<int>, z: seq<int>)
    requires LexLess(x, y) && LexLess(y, z)
    ensures LexLess(x, z)
  {
    if x != [] && x[0] == y[0] && y[0] == z[0] {
      LexLessTransitive(x[1..], y[1..], z[1..]);
    }
  }

  lemma {:induction false} LexLessTotal(x: seq<int>, y: seq<int>)
    requires x != y
    ensures LexLess(x, y) || LexLess(y, x)
  {
    if x != [] && y != [] && x[0] == y[0] {
      assert x == [x[0]] + x[1..] && y == [y[0]] + y[1..];
      LexLessTotal(x[1..], y[1..]);
    }
  }

  /** The first code unit of a character tells how many units it has: a
      character encoded as one unit is never a surrogate. */
  lemma CodeUnitsPrefixFree(c: char, d: char, x: seq<int>, y: seq<int>)
    requires CodeUnits(c) + x == CodeUnits(d) + y
    ensures c == d && x == y
  {
    var u, v := CodeUnits(c), CodeUnits(d);
    assert u[0] == (u + x)[0] == (v + y)[0] == v[0];
    assert |u| == |v|;
    if |u| == 2 {
      assert u[1] == (u + x)[1] == (v + y)[1] == v[1];
    }
    assert u == (u + x)[..|u|] == (v + y)[..|v|] == v;
    assert x == (u + x)[|u|..] == (v + y)[|v|..] == y;
  }

  /** Distinct strings have distinct UTF-16 encodings. */
  lemma {:induction false} Utf16Injective(a: string, b: string)
    requires Utf16(a) == Utf16(b)
    ensures a == b
  {
    if a != [] && b != [] {
      CodeUnitsPrefixFree(a[0], b[0], Utf16(a[1..]), Utf16(b[1..]));
      Utf16Injective(a[1..], b[1..]);
      assert a == [a[0]] + a[1..] && b == [b[0]] + b[1..];
    }
  }

  /** `CodeUnitLess` is a strict total order on strings. */
  lemma CodeUnitLessIrreflexive(a: string)
    ensures !CodeUnitLess(a, a)
  {
    LexLessIrreflexive(Utf16(a));
  }

  lemma CodeUnitLessTransitive(a: string, b: string, c: string)
    requires CodeUnitLess(a, b) && CodeUnitLess(b, c)
    ensures CodeUnitLess(a, c)
  {
    LexLessTransitive(Utf16(a), Utf16(b), Utf16(c));
  }

  lemma CodeUnitLessTotal(a: string, b: string)
    requires a != b
    ensures CodeUnitLess(a, b) || CodeUnitLess(b, a)
  {
    if Utf16(a) == Utf16(b) {
      Utf16Injective(a, b);
    }
    LexLessTotal(Utf16(a), Utf16(b));
  }
}
