/**
 * What the frontmatter reader and writer promise: how repeated and unknown
 * keys are read, that a line `key: value` reads back as its key and value,
 * and that reading what the writer wrote gives the fields back.
 */
module FrontmatterLaws {
  import opened Wrappers
  import opened Text
  import opened Frontmatter

  // ---------------------------------------------------------------------
  // Reading: which entry wins, where unknown keys go
  // ---------------------------------------------------------------------

  function EntryOf(line: string): (r: seq<(string, string)>)
    ensures |r| <= 1
  {
    match LineEntry(line)
    case None => []
    case Some(e) => [e]
  }

  /** The `(key, value)` entries of the block lines, in order; lines
      without a colon contribute nothing. */
  function Entries(lines: seq<string>): seq<(string, string)>
    decreases |lines|
  {
    if |lines| == 0 then [] else EntryOf(lines[0]) + Entries(lines[1..])
  }

  /** The value of the last entry with key `k`, or `d` when there is none. */
  function LastValue(es: seq<(string, string)>, k: string, d: string): string
    decreases |es|
  {
    if |es| == 0 then d
    else if es[|es| - 1].0 == k then es[|es| - 1].1
    else LastValue(es[..|es| - 1], k, d)
  }

  /** The entries whose key is not one of the five known keys, in order. */
  function Unknown(es: seq<(string, string)>): seq<(string, string)>
    decreases |es|
  {
    if |es| == 0 then []
    else (if IsKnownKey(es[0].0) then [] else [es[0]]) + Unknown(es[1..])
  }

  lemma {:induction false} LastValueAppend(a: seq<(string, string)>, b: seq<(string, string)>, k: string, d: string)
    ensures LastValue(a + b, k, d) == LastValue(b, k, LastValue(a, k, d))
    decreases |b|
  {
    if |b| == 0 {
      assert a + b == a;
    } else {
      var ab := a + b;
      assert ab[|ab| - 1] == b[|b| - 1];
      assert ab[..|ab| - 1] == a + b[..|b| - 1];
      LastValueAppend(a, b[..|b| - 1], k, d);
    }
  }

  lemma {:induction false} UnknownAppend(a: seq<(string, string)>, b: seq<(string, string)>)
    ensures Unknown(a + b) == Unknown(a) + Unknown(b)
    decreases |a|
  {
    if |a| == 0 {
      assert a + b == b;
    } else {
      assert (a + b)[1..] == a[1..] + b;
      UnknownAppend(a[1..], b);
    }
  }

  /** The known field `k` of `fm`. */
  function Field(fm: FM, k: string): string
    requires IsKnownKey(k)
  {
    if k == "id" then fm.id
    else if k == "title" then fm.title
    else if k == "date" then fm.date
    else if k == "description" then fm.description
    else fm.thumbnail
  }

  lemma ApplyLineField(fm: FM, line: string, k: string)
    requires IsKnownKey(k)
    ensures Field(ApplyLine(fm, line), k) == LastValue(EntryOf(line), k, Field(fm, k))
  {
    match LineEntry(line)
    case None =>
      assert EntryOf(line) == [];
    case Some(e) =>
      var es := [e];
      assert EntryOf(line) == es;
      assert es[..0] == [];
      assert LastValue(es, k, Field(fm, k)) == if e.0 == k then e.1 else Field(fm, k);
      AssignField(fm, e.0, e.1, k);
  }

  lemma AssignField(fm: FM, k': string, v: string, k: string)
    requires IsKnownKey(k)
    ensures Field(Assign(fm, k', v), k) == if k' == k then v else Field(fm, k)
  {
  }

  /** Reading a list of lines: each known field holds the value of the last
      entry with its key, or what it held before when there is none. */
  lemma {:induction false} ApplyLinesField(fm: FM, lines: seq<string>, k: string)
    requires IsKnownKey(k)
    ensures Field(ApplyLines(fm, lines), k) == LastValue(Entries(lines), k, Field(fm, k))
    decreases |lines|
  {
    if |lines| > 0 {
      var g := ApplyLine(fm, lines[0]);
      var e0 := EntryOf(lines[0]);
      var rest := Entries(lines[1..]);
      assert Entries(lines) == e0 + rest;
      ApplyLinesField(g, lines[1..], k);
      ApplyLineField(fm, lines[0], k);
      LastValueAppend(e0, rest, k, Field(fm, k));
    }
  }

  /** Reading a list of lines appends the entries with other keys to
      `extra`, in source order. */
  lemma {:induction false} ApplyLinesExtra(fm: FM, lines: seq<string>)
    ensures ApplyLines(fm, lines).extra == fm.extra + Unknown(Entries(lines))
    decreases |lines|
  {
    if |lines| > 0 {
      var g := ApplyLine(fm, lines[0]);
      var e0 := EntryOf(lines[0]);
      var rest := Entries(lines[1..]);
      ApplyLinesCons(fm, lines);
      ApplyLinesExtra(g, lines[1..]);
      ApplyLineExtra(fm, lines[0]);
      UnknownAppend(e0, rest);
      ConcatAssoc(fm.extra, Unknown(e0), Unknown(rest));
    }
  }

  /** Reading a non-empty list of lines is reading its first line, then
      the rest. */
  lemma ApplyLinesCons(fm: FM, lines: seq<string>)
    requires |lines| > 0
    ensures ApplyLines(fm, lines) == ApplyLines(ApplyLine(fm, lines[0]), lines[1..])
    ensures Entries(lines) == EntryOf(lines[0]) + Entries(lines[1..])
  {
  }

  lemma ApplyLineExtra(fm: FM, line: string)
    ensures ApplyLine(fm, line).extra == fm.extra + Unknown(EntryOf(line))
  {
    if LineEntry(line).None? {
      NoEntry(fm, line);
      assert fm.extra + [] == fm.extra;
    } else {
      var e := LineEntry(line).value;
      SomeEntry(fm, line, e);
      AssignExtra(fm, e);
    }
  }

  lemma NoEntry(fm: FM, line: string)
    requires LineEntry(line).None?
    ensures ApplyLine(fm, line) == fm && Unknown(EntryOf(line)) == []
  {
  }

  lemma SomeEntry(fm: FM, line: string, e: (string, string))
    requires LineEntry(line) == Some(e)
    ensures ApplyLine(fm, line) == Assign(fm, e.0, e.1) && EntryOf(line) == [e]
  {
  }

  lemma AssignExtra(fm: FM, e: (string, string))
    ensures Assign(fm, e.0, e.1).extra == fm.extra + Unknown([e])
  {
    UnknownOne(e);
  }

  lemma UnknownOne(e: (string, string))
    ensures Unknown([e]) == if IsKnownKey(e.0) then [] else [e]
  {
    assert [e][1..] == [];
  }

  /** The same, for a whole document whose block was found. */
  lemma ParseReads(raw: string)
    requires MatchFrontmatter(raw).Some?
    ensures var es := Entries(Split(MatchFrontmatter(raw).value.0, '\n'));
            var fm := Parse(raw).0;
            && fm.id == LastValue(es, "id", "")
            && fm.title == LastValue(es, "title", "")
            && fm.date == LastValue(es, "date", "")
            && fm.description == LastValue(es, "description", "")
            && fm.thumbnail == LastValue(es, "thumbnail", "")
            && fm.extra == Unknown(es)
            && Parse(raw).1 == MatchFrontmatter(raw).value.1
  {
    var lines := Split(MatchFrontmatter(raw).value.0, '\n');
    ApplyLinesField(EmptyFM, lines, "id");
    ApplyLinesField(EmptyFM, lines, "title");
    ApplyLinesField(EmptyFM, lines, "date");
    ApplyLinesField(EmptyFM, lines, "description");
    ApplyLinesField(EmptyFM, lines, "thumbnail");
    ApplyLinesExtra(EmptyFM, lines);
  }

  // ---------------------------------------------------------------------
  // Reading one written line
  // ---------------------------------------------------------------------

  lemma TrimLeadingBlank(v: string)
    ensures Trim(" " + v) == Trim(v)
  {
    TrimSkipsSpace(' ', v);
    assert [' '] + v == " " + v;
  }

  /** A line `key: value` reads back as its key and its trimmed, unquoted
      value, whatever colons the value holds. */
  lemma KeyLineEntry(k: string, v: string)
    requires ':' !in k && Trim(k) == k
    ensures LineEntry(KeyLine(k, v)) == Some((k, StripQuotes(Trim(v))))
  {
    var line := KeyLine(k, v);
    KeyLineColon(k, v);
    assert line[..|k|] == k;
    assert line[|k| + 1..] == " " + v;
    TrimLeadingBlank(v);
  }

  /** The first colon of `key: value` is the one after the key. */
  lemma KeyLineColon(k: string, v: string)
    requires ':' !in k
    ensures IndexOf(KeyLine(k, v), ':') == Some(|k|)
  {
    var line := KeyLine(k, v);
    assert line[|k|] == ':';
    assert line[..|k|] == k;
  }
}
