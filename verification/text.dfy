/**
 * The JavaScript string primitives the program relies on, stated over
 * `seq<char>`: whitespace and `trim`, ASCII lower-casing, `indexOf`,
 * `lastIndexOf`, `split`, `join`, `slice`, `replaceAll`, number formatting
 * and the code-point order used by `Array.prototype.sort`.
 */
module Text {
  import opened Wrappers

  // ---------------------------------------------------------------------
  // Character classes
  // ---------------------------------------------------------------------

  /** The characters matched by `\s` and removed by `trim`: the ECMAScript
      WhiteSpace and LineTerminator code points. */
  predicate IsSpace(c: char) {
    var n := c as int;
    n == 0x09 || n == 0x0A || n == 0x0B || n == 0x0C || n == 0x0D || n == 0x20
    || n == 0xA0 || n == 0x1680 || (0x2000 <= n <= 0x200A) || n == 0x2028
    || n == 0x2029 || n == 0x202F || n == 0x205F || n == 0x3000 || n == 0xFEFF
  }

  predicate IsAsciiUpper(c: char) { 'A' <= c <= 'Z' }
  predicate IsAsciiLower(c: char) { 'a' <= c <= 'z' }
  predicate IsDigit(c: char) { '0' <= c <= '9' }

  predicate NoSpace(s: string) {
    forall i :: 0 <= i < |s| ==> !IsSpace(s[i])
  }

  // ---------------------------------------------------------------------
  // Prefixes, suffixes and occurrences
  // ---------------------------------------------------------------------

  predicate StartsWith(s: string, p: string) {
    |p| <= |s| && s[..|p|] == p
  }

  predicate EndsWith(s: string, p: string) {
    |p| <= |s| && s[|s| - |p|..] == p
  }

  /** `p` occurs in `s` starting at index `i`. */
  predicate HasAt(s: string, i: nat, p: string) {
    i + |p| <= |s| && s[i..i + |p|] == p
  }

  /** `s.includes(p)`. */
  predicate Occurs(s: string, p: string) {
    exists i :: 0 <= i <= |s| && HasAt(s, i, p)
  }

  /** `s.slice(1)`: everything but the first character ("" stays ""). */
  function Drop1(s: string): (r: string)
    ensures |s| > 0 ==> r == s[1..]
    ensures |s| == 0 ==> r == ""
  {
    if |s| == 0 then "" else s[1..]
  }

  /** `s.slice(0, n)`: at most the first `n` characters. */
  function Prefix(s: string, n: nat): (r: string)
    ensures |r| == if n < |s| then n else |s|
    ensures StartsWith(s, r)
  {
    if n < |s| then s[..n] else s
  }

  // ---------------------------------------------------------------------
  // Lower-casing (ASCII)
  // ---------------------------------------------------------------------

  function LowerChar(c: char): (r: char)
    ensures !IsAsciiUpper(r)
    ensures IsAsciiUpper(c) ==> r as int == c as int + 32
    ensures !IsAsciiUpper(c) ==> r == c
  {
    if IsAsciiUpper(c) then (c as int + 32) as char else c
  }

  /** `s.toLowerCase()` on the ASCII letters. */
  function Lower(s: string): (r: string)
    ensures |r| == |s|
    ensures forall i :: 0 <= i < |s| ==> r[i] == LowerChar(s[i])
  {
    seq(|s|, i requires 0 <= i < |s| => LowerChar(s[i]))
  }

  lemma LowerNoop(s: string)
    requires forall i :: 0 <= i < |s| ==> !IsAsciiUpper(s[i])
    ensures Lower(s) == s
  {
  }

  // ---------------------------------------------------------------------
  // Runs and trimming
  // ---------------------------------------------------------------------

  /** Length of the longest prefix of `s` whose characters all satisfy `p`. */
  function RunLength(s: string, p: char -> bool): (k: nat)
    ensures k <= |s|
    ensures forall i :: 0 <= i < k ==> p(s[i])
    ensures k == |s| || !p(s[k])
    decreases |s|
  {
    if |s| > 0 && p(s[0]) then 1 + RunLength(s[1..], p) else 0
  }

  /** Length of the longest suffix of `s` whose characters are all white space. */
  function TrailingSpaces(s: string): (k: nat)
    ensures k <= |s|
    ensures forall i :: |s| - k <= i < |s| ==> IsSpace(s[i])
    ensures k == |s| || !IsSpace(s[|s| - 1 - k])
    decreases |s|
  {
    if |s| > 0 && IsSpace(s[|s| - 1]) then 1 + TrailingSpaces(s[..|s| - 1]) else 0
  }

  function TrimStart(s: string): string {
    s[RunLength(s, IsSpace)..]
  }

  function TrimEnd(s: string): string {
    s[..|s| - TrailingSpaces(s)]
  }

  /** `s.trim()`: the infix of `s` left after removing white space at both
      ends; it is empty or starts and ends with a non-space character, and
      everything cut away is white space. */
  function Trim(s: string): (r: string)
    ensures exists i, j :: 0 <= i <= j <= |s| && r == s[i..j]
                           && (forall k :: 0 <= k < i ==> IsSpace(s[k]))
                           && (forall k :: j <= k < |s| ==> IsSpace(s[k]))
    ensures r == [] || (!IsSpace(r[0]) && !IsSpace(r[|r| - 1]))
  {
    var i := RunLength(s, IsSpace);
    var t := s[i..];
    var j := i + |t| - TrailingSpaces(t);
    TrimCut(s, i, j);
    TrimEnd(t)
  }

  /** The cut `Trim` makes: leading spaces up to `i`, trailing spaces from `j`. */
  lemma TrimCut(s: string, i: nat, j: nat)
    requires i == RunLength(s, IsSpace) && j == i + |s[i..]| - TrailingSpaces(s[i..])
    ensures i <= j <= |s| && TrimEnd(s[i..]) == s[i..j]
    ensures forall k :: 0 <= k < i ==> IsSpace(s[k])
    ensures forall k :: j <= k < |s| ==> IsSpace(s[k])
  {
    var t := s[i..];
    forall k | j <= k < |s| ensures IsSpace(s[k]) {
      assert s[k] == t[k - i];
    }
  }

  /** A string that already starts and ends with non-space characters is
      its own trim. */
  lemma TrimNoop(s: string)
    requires s == [] || (!IsSpace(s[0]) && !IsSpace(s[|s| - 1]))
    ensures Trim(s) == s
  {
  }

  lemma TrimInfix(s: string)
    ensures forall c :: c in Trim(s) ==> c in s
  {
    var r := Trim(s);
    var i, j :| 0 <= i <= j <= |s| && r == s[i..j];
    SliceChars(s, i, j);
  }

  lemma SliceChars(s: string, i: nat, j: nat)
    requires i <= j <= |s|
    ensures forall c :: c in s[i..j] ==> c in s
  {
    forall c | c in s[i..j] ensures c in s {
      var k :| 0 <= k < j - i && s[i..j][k] == c;
      assert s[i + k] == c;
    }
  }

  /** Leading white space never changes the trim. */
  lemma TrimSkipsSpace(c: char, s: string)
    requires IsSpace(c)
    ensures Trim([c] + s) == Trim(s)
  {
    var cs := [c] + s;
    assert cs[1..] == s;
    assert RunLength(cs, IsSpace) == 1 + RunLength(s, IsSpace);
    assert cs[RunLength(cs, IsSpace)..] == s[RunLength(s, IsSpace)..];
  }

  /** A first non-space character survives trimming. */
  lemma TrimKeepsFirst(s: string)
    requires |s| > 0 && !IsSpace(s[0])
    ensures |Trim(s)| > 0 && Trim(s)[0] == s[0]
  {
    assert RunLength(s, IsSpace) == 0;
  }

  /** A last non-space character survives trimming. */
  lemma TrimKeepsLast(s: string)
    requires |s| > 0 && !IsSpace(s[|s| - 1])
    ensures |Trim(s)| > 0 && Trim(s)[|Trim(s)| - 1] == s[|s| - 1]
  {
    var i := RunLength(s, IsSpace);
    assert i < |s|;
    var t := s[i..];
    assert TrailingSpaces(t) == 0;
  }

  // ---------------------------------------------------------------------
  // indexOf / lastIndexOf / split / join
  // ---------------------------------------------------------------------

  /** `s.indexOf(c)`, with -1 as `None`. */
  function IndexOf(s: string, c: char): (r: Option<nat>)
    ensures r.None? <==> c !in s
    ensures r.Some? ==> r.value < |s| && s[r.value] == c && c !in s[..r.value]
    decreases |s|
  {
    if |s| == 0 then None
    else if s[0] == c then Some(0)
    else
      match IndexOf(s[1..], c)
      case None => None
      case Some(i) =>
        assert s[1..][..i] == s[1..i + 1];
        assert s[..i + 1] == [s[0]] + s[1..i + 1];
        Some(i + 1)
  }

  /** `s.lastIndexOf(c)`, with -1 as `None`. */
  function LastIndexOf(s: string, c: char): (r: Option<nat>)
    ensures r.None? <==> c !in s
    ensures r.Some? ==> r.value < |s| && s[r.value] == c && c !in s[r.value + 1..]
    decreases |s|
  {
    if |s| == 0 then None
    else if s[|s| - 1] == c then Some(|s| - 1)
    else
      var init := s[..|s| - 1];
      match LastIndexOf(init, c)
      case None =>
        assert s == init + [s[|s| - 1]];
        None
      case Some(i) =>
        assert s[i + 1..] == init[i + 1..] + [s[|s| - 1]];
        Some(i)
  }

  /** Concatenation regrouped one step; chains of these rewrite a long
      concatenation into another grouping far more cheaply than one
      equation over all its pieces. */
  lemma ConcatAssoc<T>(p: seq<T>, a: seq<T>, b: seq<T>)
    ensures p + (a + b) == p + a + b
  {
  }

  /** A text built from four pieces starts with the first and ends with
      the last two. */
  lemma Framed(a: string, m: string, b: string, c: string)
    ensures StartsWith(a + m + b + c, a)
    ensures EndsWith(a + m + b + c, b + c)
  {
    var s := a + m + b + c;
    assert s[..|a|] == a;
    assert s == (a + m) + (b + c);
    assert s[|s| - |b + c|..] == b + c;
  }

  /** The pieces written one after another, first piece first. */
  function Concat(parts: seq<string>): string
    decreases |parts|
  {
    if |parts| == 0 then "" else parts[0] + Concat(parts[1..])
  }

  /** Appending a piece at the end appends its text. */
  lemma {:induction false} ConcatSnoc(parts: seq<string>, x: string)
    ensures Concat(parts + [x]) == Concat(parts) + x
    decreases |parts|
  {
    if |parts| == 0 {
      assert parts + [x] == [x];
      assert Concat([x][1..]) == "";
    } else {
      assert (parts + [x])[1..] == parts[1..] + [x];
      ConcatSnoc(parts[1..], x);
      ConcatAssoc(parts[0], Concat(parts[1..]), x);
    }
  }

  /** `parts.join(sep)` for a one-character separator. */
  function Join(parts: seq<string>, sep: char): string
    decreases |parts|
  {
    if |parts| == 0 then ""
    else if |parts| == 1 then parts[0]
    else parts[0] + [sep] + Join(parts[1..], sep)
  }

  /** `s.split(sep)` for a one-character separator: at least one piece, no
      piece holds the separator, and joining the pieces gives `s` back. */
  function Split(s: string, sep: char): (parts: seq<string>)
    ensures |parts| >= 1
    ensures forall i :: 0 <= i < |parts| ==> sep !in parts[i]
    ensures Join(parts, sep) == s
    decreases |s|
  {
    match IndexOf(s, sep)
    case None => [s]
    case Some(i) =>
      var rest := Split(s[i + 1..], sep);
      var parts := [s[..i]] + rest;
      assert parts[1..] == rest;
      assert s == s[..i] + [sep] + s[i + 1..];
      parts
  }

  /** Splitting undoes joining when no piece holds the separator. */
  lemma {:induction false} SplitJoin(parts: seq<string>, sep: char)
    requires |parts| >= 1
    requires forall i :: 0 <= i < |parts| ==> sep !in parts[i]
    ensures Split(Join(parts, sep), sep) == parts
    decreases |parts|
  {
    if |parts| == 1 {
      assert Join(parts, sep) == parts[0];
      assert IndexOf(parts[0], sep) == None;
    } else {
      var s := Join(parts, sep);
      assert s == parts[0] + [sep] + Join(parts[1..], sep);
      assert s[|parts[0]|] == sep;
      assert s[..|parts[0]|] == parts[0];
      assert IndexOf(s, sep) == Some(|parts[0]|);
      assert s[|parts[0]| + 1..] == Join(parts[1..], sep);
      SplitJoin(parts[1..], sep);
    }
  }

  // ---------------------------------------------------------------------
  // replaceAll
  // ---------------------------------------------------------------------

  /** Literal replacement of every non-overlapping occurrence of `pat`,
      scanning left to right. */
  function ReplaceAll(s: string, pat: string, v: string): string
    requires |pat| > 0
    decreases |s|
  {
    if |s| < |pat| then s
    else if s[..|pat|] == pat then v + ReplaceAll(s[|pat|..], pat, v)
    else [s[0]] + ReplaceAll(s[1..], pat, v)
  }

  /** Text without an occurrence of the pattern is left as it is. */
  lemma {:induction false} ReplaceAllAbsent(s: string, pat: string, v: string)
    requires |pat| > 0
    requires !Occurs(s, pat)
    ensures ReplaceAll(s, pat, v) == s
    decreases |s|
  {
    if |s| >= |pat| {
      assert !HasAt(s, 0, pat);
      assert !Occurs(s[1..], pat) by {
        forall i: nat ensures !HasAt(s[1..], i, pat) {
          if HasAt(s[1..], i, pat) {
            assert s[1..][i..i + |pat|] == s[i + 1..i + 1 + |pat|];
            assert HasAt(s, i + 1, pat);
          }
        }
      }
      ReplaceAllAbsent(s[1..], pat, v);
    }
  }

  lemma HasAtShift(s: string, i: nat, p: string)
    requires |s| > 0
    ensures HasAt(s[1..], i, p) <==> HasAt(s, i + 1, p)
  {
    if i + 1 + |p| <= |s| {
      assert s[1..][i..i + |p|] == s[i + 1..i + 1 + |p|];
    }
  }

  /** The first occurrence is replaced and scanning resumes after it. */
  lemma {:induction false} ReplaceAllFirst(a: string, pat: string, b: string, v: string)
    requires |pat| > 0
    requires forall i: nat :: i < |a| ==> !HasAt(a + pat + b, i, pat)
    ensures ReplaceAll(a + pat + b, pat, v) == a + v + ReplaceAll(b, pat, v)
    decreases |a|
  {
    if |a| == 0 {
      ReplaceAllAtStart(pat, b, v);
      assert a + pat + b == pat + b;
    } else {
      var s := a + pat + b;
      var t := a[1..] + pat + b;
      assert s[1..] == t;
      forall i: nat | i < |a[1..]| ensures !HasAt(t, i, pat) {
        HasAtShift(s, i, pat);
      }
      ReplaceAllFirst(a[1..], pat, b, v);
      ReplaceAllSkip(a, pat, b, v);
    }
  }

  /** A pattern at the very start is replaced. */
  lemma ReplaceAllAtStart(pat: string, b: string, v: string)
    requires |pat| > 0
    ensures ReplaceAll(pat + b, pat, v) == v + ReplaceAll(b, pat, v)
  {
    var s := pat + b;
    assert s[..|pat|] == pat;
    assert s[|pat|..] == b;
  }

  /** A first character that does not start the pattern is kept. */
  lemma ReplaceAllSkip(a: string, pat: string, b: string, v: string)
    requires |pat| > 0 && |a| > 0
    requires !HasAt(a + pat + b, 0, pat)
    requires ReplaceAll(a[1..] + pat + b, pat, v) == a[1..] + v + ReplaceAll(b, pat, v)
    ensures ReplaceAll(a + pat + b, pat, v) == a + v + ReplaceAll(b, pat, v)
  {
    var s := a + pat + b;
    assert s[1..] == a[1..] + pat + b;
    assert s[..|pat|] != pat;
    assert ReplaceAll(s, pat, v) == [s[0]] + ReplaceAll(s[1..], pat, v);
    assert s[0] == a[0];
    ConsSplit(a, v + ReplaceAll(b, pat, v));
  }

  /** Splitting off the first character of a non-empty prefix. */
  lemma ConsSplit(a: string, x: string)
    requires |a| > 0
    ensures [a[0]] + (a[1..] + x) == a + x
  {
    assert a == [a[0]] + a[1..];
  }

  /** The first position at or after `i` where `pat` occurs. */
  function FindFrom(s: string, pat: string, i: nat): (r: Option<nat>)
    requires i <= |s|
    ensures r.Some? ==> i <= r.value && HasAt(s, r.value, pat)
    ensures r.Some? ==> forall j :: i <= j < r.value ==> !HasAt(s, j, pat)
    ensures r.None? ==> forall j :: i <= j <= |s| ==> !HasAt(s, j, pat)
    decreases |s| - i
  {
    if HasAt(s, i, pat) then Some(i)
    else if i == |s| then None
    else FindFrom(s, pat, i + 1)
  }

  /** `s.replace(pat, v)` for a string pattern and a replacement without
      `$`: only the first occurrence is replaced. */
  function ReplaceFirst(s: string, pat: string, v: string): (r: string)
    ensures !Occurs(s, pat) ==> r == s
  {
    match FindFrom(s, pat, 0)
    case None => s
    case Some(i) => s[..i] + v + s[i + |pat|..]
  }

  /** Text that starts with the pattern loses exactly that prefix. */
  lemma ReplaceFirstPrefix(s: string, pat: string)
    requires StartsWith(s, pat)
    ensures ReplaceFirst(s, pat, "") == s[|pat|..]
  {
    assert HasAt(s, 0, pat);
  }

  /** The replacement pattern expansion of `GetSubstitution` (ECMAScript
      section 22.1.3.19.1) for a string search value: `$$`, `$&`, `` $` ``
      and `$'` are expanded; every other `$` stays literal. */
  function Substitute(rep: string, matched: string, before: string, after: string): string
    decreases |rep|
  {
    if |rep| == 0 then ""
    else if rep[0] == '$' && |rep| >= 2 && rep[1] == '$' then "$" + Substitute(rep[2..], matched, before, after)
    else if rep[0] == '$' && |rep| >= 2 && rep[1] == '&' then matched + Substitute(rep[2..], matched, before, after)
    else if rep[0] == '$' && |rep| >= 2 && rep[1] == '`' then before + Substitute(rep[2..], matched, before, after)
    else if rep[0] == '$' && |rep| >= 2 && rep[1] == '\'' then after + Substitute(rep[2..], matched, before, after)
    else [rep[0]] + Substitute(rep[1..], matched, before, after)
  }

  lemma {:induction false} SubstituteNoDollar(rep: string, matched: string, before: string, after: string)
    requires '$' !in rep
    ensures Substitute(rep, matched, before, after) == rep
    decreases |rep|
  {
    if |rep| > 0 {
      assert rep[0] != '$';
      assert '$' !in rep[1..] by {
        forall c | c in rep[1..] ensures c != '$' {
          var k :| 0 <= k < |rep[1..]| && rep[1..][k] == c;
          assert rep[k + 1] == c;
        }
      }
      SubstituteNoDollar(rep[1..], matched, before, after);
      assert rep == [rep[0]] + rep[1..];
    }
  }

  /** `s.replaceAll(pat, rep)` as JavaScript evaluates it, scanning the
      original text `s` from index `i`: the replacement string goes through
      `GetSubstitution` at every match. */
  function JsReplaceAllFrom(s: string, i: nat, pat: string, rep: string): string
    requires |pat| > 0
    requires i <= |s|
    decreases |s| - i
  {
    if |s| - i < |pat| then s[i..]
    else if s[i..i + |pat|] == pat then
      Substitute(rep, pat, s[..i], s[i + |pat|..]) + JsReplaceAllFrom(s, i + |pat|, pat, rep)
    else [s[i]] + JsReplaceAllFrom(s, i + 1, pat, rep)
  }

  function JsReplaceAll(s: string, pat: string, rep: string): string
    requires |pat| > 0
  {
    JsReplaceAllFrom(s, 0, pat, rep)
  }

  lemma {:induction false} JsReplaceAllFromLiteral(s: string, i: nat, pat: string, rep: string)
    requires |pat| > 0 && i <= |s|
    requires '$' !in rep
    ensures JsReplaceAllFrom(s, i, pat, rep) == ReplaceAll(s[i..], pat, rep)
    decreases |s| - i
  {
    if |s| - i >= |pat| {
      var next := if s[i..i + |pat|] == pat then i + |pat| else i + 1;
      JsReplaceAllFromLiteral(s, next, pat, rep);
      if s[i..i + |pat|] == pat {
        JsLiteralMatchStep(s, i, pat, rep);
      } else {
        JsLiteralSkipStep(s, i, pat, rep);
      }
    } else {
      JsLiteralShort(s, i, pat, rep);
    }
  }

  /** Too little text is left for a match: the rest is kept as it is. */
  lemma JsLiteralShort(s: string, i: nat, pat: string, rep: string)
    requires |pat| > 0 && i <= |s| && |s| - i < |pat|
    ensures JsReplaceAllFrom(s, i, pat, rep) == ReplaceAll(s[i..], pat, rep)
  {
  }

  /** One step of the scan at a match: the replacement goes in as it is. */
  lemma JsLiteralMatchStep(s: string, i: nat, pat: string, rep: string)
    requires |pat| > 0 && i + |pat| <= |s| && s[i..i + |pat|] == pat
    requires '$' !in rep
    requires JsReplaceAllFrom(s, i + |pat|, pat, rep) == ReplaceAll(s[i + |pat|..], pat, rep)
    ensures JsReplaceAllFrom(s, i, pat, rep) == ReplaceAll(s[i..], pat, rep)
  {
    var t := s[i..];
    assert t[..|pat|] == pat;
    assert t[|pat|..] == s[i + |pat|..];
    SubstituteNoDollar(rep, pat, s[..i], s[i + |pat|..]);
  }

  /** One step of the scan where no match starts: the character is kept. */
  lemma JsLiteralSkipStep(s: string, i: nat, pat: string, rep: string)
    requires |pat| > 0 && i + |pat| <= |s| && s[i..i + |pat|] != pat
    requires JsReplaceAllFrom(s, i + 1, pat, rep) == ReplaceAll(s[i + 1..], pat, rep)
    ensures JsReplaceAllFrom(s, i, pat, rep) == ReplaceAll(s[i..], pat, rep)
  {
    var t := s[i..];
    assert t[..|pat|] == s[i..i + |pat|];
    assert t[1..] == s[i + 1..];
  }

  /** Without a `$` in the replacement, JavaScript's `replaceAll` is the
      literal replacement. */
  lemma JsReplaceAllLiteral(s: string, pat: string, rep: string)
    requires |pat| > 0
    requires '$' !in rep
    ensures JsReplaceAll(s, pat, rep) == ReplaceAll(s, pat, rep)
  {
    JsReplaceAllFromLiteral(s, 0, pat, rep);
    assert s[0..] == s;
  }

  // ---------------------------------------------------------------------
  // Code-point order (Array.prototype.sort on strings)
  // ---------------------------------------------------------------------

  /** `a` sorts no later than `b`: lexicographic order on code points, a
      proper prefix first. */
  predicate LexLe(a: string, b: string)
    decreases |a|
  {
    |a| == 0 || (|b| > 0 && (a[0] < b[0] || (a[0] == b[0] && LexLe(a[1..], b[1..]))))
  }

  predicate LexLt(a: string, b: string) {
    LexLe(a, b) && a != b
  }

  lemma LexLeReflexive(a: string)
    ensures LexLe(a, a)
  {
  }

  lemma LexLeTotal(a: string, b: string)
    ensures LexLe(a, b) || LexLe(b, a)
  {
  }

  lemma LexLeAntisymmetric(a: string, b: string)
    ensures LexLe(a, b) && LexLe(b, a) ==> a == b
    decreases |a|
  {
    if |a| > 0 && |b| > 0 && a[0] == b[0] {
      LexLeAntisymmetric(a[1..], b[1..]);
      assert a == [a[0]] + a[1..];
      assert b == [b[0]] + b[1..];
    }
  }

  lemma LexLeTransitive(a: string, b: string, c: string)
    ensures LexLe(a, b) && LexLe(b, c) ==> LexLe(a, c)
    decreases |a|
  {
    if |a| > 0 && |b| > 0 && |c| > 0 {
      LexLeTransitive(a[1..], b[1..], c[1..]);
    }
  }

  // ---------------------------------------------------------------------
  // Decimal rendering of numbers
  // ---------------------------------------------------------------------

  function DigitChar(d: nat): (c: char)
    requires d < 10
    ensures IsDigit(c)
  {
    ('0' as int + d) as char
  }

  predicate AllDigits(s: string) {
    forall i :: 0 <= i < |s| ==> IsDigit(s[i])
  }

  /** The value of a string of decimal digits. */
  function DigitsValue(s: string): nat
    requires AllDigits(s)
    decreases |s|
  {
    if |s| == 0 then 0
    else 10 * DigitsValue(s[..|s| - 1]) + (s[|s| - 1] as int - '0' as int)
  }

  /** `String(n)` for a natural number: decimal digits without leading zeros. */
  function NatToString(n: nat): (r: string)
    ensures |r| >= 1 && AllDigits(r)
    ensures |r| > 1 ==> r[0] != '0'
    decreases n
  {
    if n < 10 then [DigitChar(n)] else NatToString(n / 10) + [DigitChar(n % 10)]
  }

  /** Reading the decimal text back yields the number. */
  lemma {:induction false} NatToStringValue(n: nat)
    ensures DigitsValue(NatToString(n)) == n
    decreases n
  {
    if n >= 10 {
      NatToStringValue(n / 10);
      var s := NatToString(n);
      assert s[..|s| - 1] == NatToString(n / 10);
    }
  }

  /** `String(i)` for an integer. */
  function IntToString(i: int): (r: string)
    ensures i >= 0 ==> r == NatToString(i)
    ensures i < 0 ==> r == "-" + NatToString(-i)
  {
    if i < 0 then "-" + NatToString(-i) else NatToString(i)
  }
}
