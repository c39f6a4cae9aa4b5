/**
 * Reading what the editor writes. For form fields that fit on one line,
 * the reader finds the block the writer produced, splits it back into the
 * written lines, and recovers every field and every extra entry; values
 * the writer had to quote come back with the writer's escapes still in
 * them, since the reader never undoes an escape.
 */
module FrontmatterRoundTrip {
  import opened Wrappers
  import opened Text
  import opened Frontmatter
  import opened FrontmatterLaws

  // ---------------------------------------------------------------------
  // What comes back
  // ---------------------------------------------------------------------

  /** What the reader recovers from a value written through
      `quoteIfNeeded`: the escaped text if it was quoted, else the value. */
  function ReadBack(v: string): string {
    if NeedsQuote(v) then Escape(v) else v
  }

  function ReadBackExtras(extra: seq<(string, string)>): (r: seq<(string, string)>)
    ensures |r| == |extra|
    ensures forall i :: 0 <= i < |r| ==> r[i] == (extra[i].0, ReadBack(extra[i].1))
    decreases |extra|
  {
    if |extra| == 0 then [] else [(extra[0].0, ReadBack(extra[0].1))] + ReadBackExtras(extra[1..])
  }

  /** The form the reader recovers: id and date verbatim, the quotable
      fields and extra values through `ReadBack`. */
  function ReadBackFM(fm: FM): FM {
    FM(fm.id, ReadBack(fm.title), fm.date, ReadBack(fm.description), ReadBack(fm.thumbnail),
       ReadBackExtras(fm.extra))
  }

  /** A value with neither `\` nor `"` reads back as itself. */
  lemma ReadBackNoop(v: string)
    requires '\\' !in v && '"' !in v
    ensures ReadBack(v) == v
  {
    EscapeIdentity(v);
  }

  // ---------------------------------------------------------------------
  // What the writer must be given
  // ---------------------------------------------------------------------

  /** A value written without quoting (id, date): one line, no white space
      at either end, not enclosed in quotes. */
  predicate PlainOk(v: string) {
    '\n' !in v && Trim(v) == v && !QuoteShaped(v)
  }

  /** A value written through `quoteIfNeeded`: one line, and no white space
      at either end unless the quotes protect it. */
  predicate QuotableOk(v: string) {
    '\n' !in v && (NeedsQuote(v) || Trim(v) == v)
  }

  /** A key of an extra entry: one line, no colon, no white space at either
      end, not the start of a fence, and not one of the known keys. */
  predicate ExtraKeyOk(k: string) {
    '\n' !in k && ':' !in k && Trim(k) == k && !StartsWith(k, "---") && !IsKnownKey(k)
  }

  predicate ExtraOk(e: (string, string)) {
    ExtraKeyOk(e.0) && QuotableOk(e.1)
  }

  predicate ExtrasOk(extra: seq<(string, string)>) {
    forall i :: 0 <= i < |extra| ==> ExtraOk(extra[i])
  }

  predicate FieldsOk(fm: FM) {
    && PlainOk(fm.id) && QuotableOk(fm.title) && PlainOk(fm.date)
    && QuotableOk(fm.description) && QuotableOk(fm.thumbnail)
    && ExtrasOk(fm.extra)
  }

  /** The forms the writer and the reader agree on: the conditions above,
      and at least one line in the block. */
  predicate Writable(fm: FM) {
    FieldsOk(fm) && |EmittedLines(fm)| > 0
  }

  /** No value holds a character the writer would escape. */
  predicate NothingToEscape(fm: FM) {
    && '\\' !in fm.title && '"' !in fm.title
    && '\\' !in fm.description && '"' !in fm.description
    && '\\' !in fm.thumbnail && '"' !in fm.thumbnail
    && forall i :: 0 <= i < |fm.extra| ==> '\\' !in fm.extra[i].1 && '"' !in fm.extra[i].1
  }

  // ---------------------------------------------------------------------
  // One value
  // ---------------------------------------------------------------------

  lemma {:induction false} EscapeKeepsOut(v: string, c: char)
    requires c !in v && c != '\\'
    ensures c !in Escape(v)
    decreases |v|
  {
    if |v| > 0 {
      assert v == [v[0]] + v[1..];
      EscapeKeepsOut(v[1..], c);
    }
  }

  /** A written value is read back as `ReadBack` says. */
  lemma ValueReadBack(v: string)
    requires QuotableOk(v)
    ensures StripQuotes(Trim(QuoteIfNeeded(v))) == ReadBack(v)
  {
    if NeedsQuote(v) {
      QuotedReadBack(Escape(v));
    } else {
      assert |v| > 0 ==> !IsYamlSpecial(v[0]);
    }
  }

  /** A text in double quotes is its own trim, and the quotes come off. */
  lemma QuotedReadBack(e: string)
    ensures StripQuotes(Trim("\"" + e + "\"")) == e
  {
    var q := "\"" + e + "\"";
    TrimNoop(q);
    assert QuoteShaped(q);
    assert q[1..|q| - 1] == e;
  }

  /** A written value holds no newline and ends with a non-space
      character, if it is not empty. */
  lemma WrittenValueShape(v: string)
    requires QuotableOk(v)
    ensures '\n' !in QuoteIfNeeded(v)
    ensures QuoteIfNeeded(v) == "" || !IsSpace(QuoteIfNeeded(v)[|QuoteIfNeeded(v)| - 1])
    ensures QuoteIfNeeded(v) == "" <==> v == ""
  {
    if NeedsQuote(v) {
      EscapeKeepsOut(v, '\n');
    }
  }

  // ---------------------------------------------------------------------
  // The lines
  // ---------------------------------------------------------------------

  /** A block line the closing-fence search cannot stop inside: one line,
      not starting with `---`, not ending with `\r`. */
  predicate LineGood(l: string) {
    '\n' !in l && !StartsWith(l, "---") && !EndsWith(l, "\r")
  }

  predicate LinesGood(ls: seq<string>) {
    forall i :: 0 <= i < |ls| ==> LineGood(ls[i])
  }

  lemma LinesGoodAppend(a: seq<string>, b: seq<string>)
    requires LinesGood(a) && LinesGood(b)
    ensures LinesGood(a + b)
  {
    forall i | 0 <= i < |a + b| ensures LineGood((a + b)[i]) {
      if i >= |a| {
        assert (a + b)[i] == b[i - |a|];
      }
    }
  }

  lemma KeyLineGood(k: string, w: string)
    requires '\n' !in k && !StartsWith(k, "---") && '\n' !in w
    requires w == "" || !IsSpace(w[|w| - 1])
    ensures LineGood(KeyLine(k, w))
  {
    var l := KeyLine(k, w);
    assert l[|k|] == ':';
    if |k| >= 3 {
      assert l[..3] == k[..3];
    }
    if w == "" {
      assert l[|l| - 1] == ' ';
    } else {
      assert l[|l| - 1] == w[|w| - 1];
    }
  }

  lemma OptionalLineGood(k: string, w: string)
    requires '\n' !in k && !StartsWith(k, "---") && '\n' !in w
    requires w == "" || !IsSpace(w[|w| - 1])
    ensures LinesGood(OptionalLine(k, w))
  {
    if w != "" {
      KeyLineGood(k, w);
    }
  }

  lemma {:induction false} ExtraLinesGood(extra: seq<(string, string)>)
    requires ExtrasOk(extra)
    ensures LinesGood(ExtraLines(extra))
    decreases |extra|
  {
    if |extra| > 0 {
      assert ExtraOk(extra[0]);
      WrittenValueShape(extra[0].1);
      KeyLineGood(extra[0].0, QuoteIfNeeded(extra[0].1));
      ExtrasOkTail(extra);
      ExtraLinesGood(extra[1..]);
      LinesGoodAppend([KeyLine(extra[0].0, QuoteIfNeeded(extra[0].1))], ExtraLines(extra[1..]));
    }
  }

  /** The known keys are plain words. */
  lemma KnownKeyShape(k: string)
    requires IsKnownKey(k)
    ensures '\n' !in k && ':' !in k && !StartsWith(k, "---")
    ensures |k| > 0 && !IsSpace(k[0]) && !IsSpace(k[|k| - 1])
  {
    assert k[0] != '-';
  }

  lemma PlainShape(v: string)
    requires PlainOk(v)
    ensures v == "" || !IsSpace(v[|v| - 1])
  {
  }

  lemma EmittedLinesGood(fm: FM)
    requires FieldsOk(fm)
    ensures LinesGood(EmittedLines(fm))
  {
    PlainLineGood("id", fm.id);
    QuotedLineGood("title", fm.title);
    PlainLineGood("date", fm.date);
    QuotedLineGood("description", fm.description);
    QuotedLineGood("thumbnail", fm.thumbnail);
    ExtraLinesGood(fm.extra);
    LinesGoodConcat(
      OptionalLine("id", fm.id),
      OptionalLine("title", QuoteIfNeeded(fm.title)),
      OptionalLine("date", fm.date),
      OptionalLine("description", QuoteIfNeeded(fm.description)),
      OptionalLine("thumbnail", QuoteIfNeeded(fm.thumbnail)),
      ExtraLines(fm.extra));
  }

  lemma PlainLineGood(k: string, v: string)
    requires IsKnownKey(k) && PlainOk(v)
    ensures LinesGood(OptionalLine(k, v))
  {
    KnownKeyShape(k);
    PlainShape(v);
    OptionalLineGood(k, v);
  }

  lemma QuotedLineGood(k: string, v: string)
    requires IsKnownKey(k) && QuotableOk(v)
    ensures LinesGood(OptionalLine(k, QuoteIfNeeded(v)))
  {
    KnownKeyShape(k);
    WrittenValueShape(v);
    OptionalLineGood(k, QuoteIfNeeded(v));
  }

  lemma LinesGoodConcat(a: seq<string>, b: seq<string>, c: seq<string>,
                        d: seq<string>, e: seq<string>, f: seq<string>)
    requires LinesGood(a) && LinesGood(b) && LinesGood(c)
    requires LinesGood(d) && LinesGood(e) && LinesGood(f)
    ensures LinesGood(a + b + c + d + e + f)
  {
    LinesGoodAppend(a, b);
    LinesGoodAppend(a + b, c);
    LinesGoodAppend(a + b + c, d);
    LinesGoodAppend(a + b + c + d, e);
    LinesGoodAppend(a + b + c + d + e, f);
  }

  // ---------------------------------------------------------------------
  // Finding the block
  // ---------------------------------------------------------------------

  lemma HasAtAppend(a: string, b: string, k: nat, p: string)
    ensures HasAt(a + b, |a| + k, p) <==> HasAt(b, k, p)
  {
    if |a| + k + |p| <= |a + b| {
      assert (a + b)[|a| + k..|a| + k + |p|] == b[k..k + |p|];
    }
  }

  lemma ClosesAtAppend(a: string, b: string, k: nat)
    ensures ClosesAt(a + b, |a| + k) <==> ClosesAt(b, k)
  {
    HasAtAppend(a, b, k, "\n---");
    HasAtAppend(a, b, k, "\r\n---");
  }

  /** What a closing fence at `k` says about the characters there. */
  lemma ClosesAtChars(s: string, k: nat)
    ensures HasAt(s, k, "\n---") ==> s[k] == '\n' && HasAt(s, k + 1, "---")
    ensures HasAt(s, k, "\r\n---") ==> s[k] == '\r' && s[k + 1] == '\n'
  {
    if HasAt(s, k, "\n---") {
      assert s[k..k + 4][0] == s[k];
      assert s[k + 1..k + 4] == s[k..k + 4][1..];
    }
    if HasAt(s, k, "\r\n---") {
      assert s[k..k + 5][0] == s[k];
      assert s[k..k + 5][1] == s[k + 1];
    }
  }

  /** No closing fence starts inside a good line, whatever follows it. */
  lemma NoCloseInLine(l: string, t: string)
    requires LineGood(l)
    ensures forall k: nat :: k < |l| ==> !ClosesAt(l + t, k)
  {
    var s := l + t;
    forall k: nat | k < |l| ensures !ClosesAt(s, k) {
      ClosesAtChars(s, k);
      assert s[k] == l[k];
      if k + 1 < |l| {
        assert s[k + 1] == l[k + 1];
      } else {
        assert s[k] == l[|l| - 1];
      }
    }
  }

  /** Good lines joined and followed by a newline do not start with `---`. */
  lemma NoFenceAtStart(ls: seq<string>, u: string)
    requires |ls| >= 1 && LinesGood(ls)
    ensures !StartsWith(Join(ls, '\n') + "\n" + u, "---")
  {
    JoinCons(ls, u);
    if |ls| == 1 {
      LineThenNoFence(ls[0], u);
    } else {
      LineThenNoFence(ls[0], Join(ls[1..], '\n') + "\n" + u);
    }
  }

  /** A good line followed by a newline does not start with `---`. */
  lemma LineThenNoFence(l: string, t: string)
    requires LineGood(l)
    ensures !StartsWith(l + "\n" + t, "---")
  {
    var s := l + "\n" + t;
    assert s[..|l|] == l;
    assert s[|l|] == '\n';
    if |l| >= 3 {
      assert s[..3] == l[..3];
    } else if |s| >= 3 {
      assert s[..3][|l|] == s[|l|];
    }
  }

  /** Joined lines followed by `"\n" + u` are the first line, a newline,
      and the rest joined and followed by `"\n" + u`. */
  lemma JoinCons(ls: seq<string>, u: string)
    requires |ls| >= 1
    ensures |ls| == 1 ==> Join(ls, '\n') + "\n" + u == ls[0] + "\n" + u
    ensures |ls| > 1 ==> Join(ls, '\n') + "\n" + u == ls[0] + "\n" + (Join(ls[1..], '\n') + "\n" + u)
    ensures |ls| > 1 ==> |Join(ls, '\n')| == |ls[0]| + 1 + |Join(ls[1..], '\n')|
  {
  }

  lemma LinesGoodTail(ls: seq<string>)
    requires |ls| >= 1 && LinesGood(ls)
    ensures LinesGood(ls[1..])
  {
    forall i | 0 <= i < |ls[1..]| ensures LineGood(ls[1..][i]) {
      assert ls[1..][i] == ls[i + 1];
    }
  }

  /** One good line in front keeps the fence search out of it. */
  lemma NoCloseStep(l: string, t: string, n: nat)
    requires LineGood(l) && !StartsWith(t, "---")
    requires forall k: nat :: k < n ==> !ClosesAt(t, k)
    ensures forall k: nat :: k < |l| + 1 + n ==> !ClosesAt(l + "\n" + t, k)
  {
    var s := l + "\n" + t;
    var head := l + "\n";
    assert s == l + ("\n" + t);
    NoCloseInLine(l, "\n" + t);
    forall k: nat | |l| <= k < |l| + 1 + n ensures !ClosesAt(s, k) {
      if k == |l| {
        ClosesAtChars(s, k);
        assert s[k] == '\n';
        HasAtAppend(head, t, 0, "---");
      } else {
        ClosesAtAppend(head, t, k - |head|);
      }
    }
  }

  /** No closing fence starts inside the joined good lines. */
  lemma {:induction false} NoCloseInLines(ls: seq<string>, u: string)
    requires |ls| >= 1 && LinesGood(ls)
    ensures forall k: nat :: k < |Join(ls, '\n')| ==> !ClosesAt(Join(ls, '\n') + "\n" + u, k)
    decreases |ls|
  {
    JoinCons(ls, u);
    assert LineGood(ls[0]);
    if |ls| == 1 {
      assert ls[0] + "\n" + u == ls[0] + ("\n" + u);
      NoCloseInLine(ls[0], "\n" + u);
    } else {
      var rest := ls[1..];
      LinesGoodTail(ls);
      NoCloseInLines(rest, u);
      NoFenceAtStart(rest, u);
      NoCloseStep(ls[0], Join(rest, '\n') + "\n" + u, |Join(rest, '\n')|);
    }
  }

  /** The closing fence the writer appends is the first one. */
  lemma CloseAfterLines(ls: seq<string>, rest: string)
    requires |ls| >= 1 && LinesGood(ls)
    ensures CloseOffset(Join(ls, '\n') + "\n---" + rest) == Some(|Join(ls, '\n')|)
  {
    var j := Join(ls, '\n');
    var s := j + "\n---" + rest;
    assert s == j + "\n" + ("---" + rest);
    NoCloseInLines(ls, "---" + rest);
    assert s[|j|..|j| + 4] == "\n---";
    assert ClosesAt(s, |j|);
  }

  // ---------------------------------------------------------------------
  // Reading the lines back
  // ---------------------------------------------------------------------

  lemma {:induction false} ApplyLinesAppend(g: FM, a: seq<string>, b: seq<string>)
    ensures ApplyLines(g, a + b) == ApplyLines(ApplyLines(g, a), b)
    decreases |a|
  {
    if |a| == 0 {
      assert a + b == b;
    } else {
      assert (a + b)[0] == a[0];
      assert (a + b)[1..] == a[1..] + b;
      ApplyLinesAppend(ApplyLine(g, a[0]), a[1..], b);
    }
  }

  lemma ApplyOneLine(g: FM, l: string)
    ensures ApplyLines(g, [l]) == ApplyLine(g, l)
  {
    assert [l][1..] == [];
  }

  /** Reading one written `key: value` line stores what the line says. */
  lemma KnownLineApply(g: FM, k: string, w: string)
    requires IsKnownKey(k)
    ensures ApplyLines(g, OptionalLine(k, w))
            == if w == "" then g else Assign(g, k, StripQuotes(Trim(w)))
  {
    if w != "" {
      KnownKeyShape(k);
      TrimNoop(k);
      KeyLineEntry(k, w);
      ApplyOneLine(g, KeyLine(k, w));
    }
  }

  lemma PlainLineApply(g: FM, k: string, v: string)
    requires IsKnownKey(k) && PlainOk(v)
    ensures ApplyLines(g, OptionalLine(k, v)) == if v == "" then g else Assign(g, k, v)
  {
    KnownLineApply(g, k, v);
  }

  lemma QuotedLineApply(g: FM, k: string, v: string)
    requires IsKnownKey(k) && QuotableOk(v)
    ensures ApplyLines(g, OptionalLine(k, QuoteIfNeeded(v)))
            == if v == "" then g else Assign(g, k, ReadBack(v))
  {
    WrittenValueShape(v);
    KnownLineApply(g, k, QuoteIfNeeded(v));
    if v != "" {
      ValueReadBack(v);
    }
  }

  /** Reading the written extra lines appends the extra entries, their
      values as `ReadBack` says, in order. */
  lemma ExtraLinesApply(g: FM, extra: seq<(string, string)>)
    requires ExtrasOk(extra)
    ensures ApplyLines(g, ExtraLines(extra)) == g.(extra := g.extra + ReadBackExtras(extra))
  {
    var lines := ExtraLines(extra);
    var es := ReadBackExtras(extra);
    ExtraLinesEntries(extra);
    assert forall i :: 0 <= i < |es| ==> !IsKnownKey(es[i].0) by {
      forall i | 0 <= i < |es| ensures !IsKnownKey(es[i].0) {
        assert ExtraOk(extra[i]);
      }
    }
    UnknownLinesApply(g, lines, es);
  }

  /** The entries of the written extra lines are the extra entries, their
      values as `ReadBack` says. */
  lemma {:induction false} ExtraLinesEntries(extra: seq<(string, string)>)
    requires ExtrasOk(extra)
    ensures Entries(ExtraLines(extra)) == ReadBackExtras(extra)
    decreases |extra|
  {
    if |extra| > 0 {
      var lines := ExtraLines(extra);
      assert lines[0] == KeyLine(extra[0].0, QuoteIfNeeded(extra[0].1));
      assert lines[1..] == ExtraLines(extra[1..]);
      assert ExtraOk(extra[0]);
      KeyLineEntry(extra[0].0, QuoteIfNeeded(extra[0].1));
      ValueReadBack(extra[0].1);
      assert EntryOf(lines[0]) == [(extra[0].0, ReadBack(extra[0].1))];
      ExtrasOkTail(extra);
      ExtraLinesEntries(extra[1..]);
    }
  }

  /** Lines whose entries all have unknown keys append those entries to
      `extra` and leave the known fields alone. */
  lemma UnknownLinesApply(g: FM, lines: seq<string>, es: seq<(string, string)>)
    requires Entries(lines) == es
    requires forall i :: 0 <= i < |es| ==> !IsKnownKey(es[i].0)
    ensures ApplyLines(g, lines) == g.(extra := g.extra + es)
  {
    var r := ApplyLines(g, lines);
    ApplyLinesExtra(g, lines);
    AllUnknown(es);
    ApplyLinesField(g, lines, "id");
    ApplyLinesField(g, lines, "title");
    ApplyLinesField(g, lines, "date");
    ApplyLinesField(g, lines, "description");
    ApplyLinesField(g, lines, "thumbnail");
    LastValueAbsent(es, "id", g.id);
    LastValueAbsent(es, "title", g.title);
    LastValueAbsent(es, "date", g.date);
    LastValueAbsent(es, "description", g.description);
    LastValueAbsent(es, "thumbnail", g.thumbnail);
  }

  lemma {:induction false} AllUnknown(es: seq<(string, string)>)
    requires forall i :: 0 <= i < |es| ==> !IsKnownKey(es[i].0)
    ensures Unknown(es) == es
    decreases |es|
  {
    if |es| > 0 {
      AllUnknown(es[1..]);
      assert es == [es[0]] + es[1..];
    }
  }

  lemma {:induction false} LastValueAbsent(es: seq<(string, string)>, k: string, d: string)
    requires IsKnownKey(k)
    requires forall i :: 0 <= i < |es| ==> !IsKnownKey(es[i].0)
    ensures LastValue(es, k, d) == d
    decreases |es|
  {
    if |es| > 0 {
      LastValueAbsent(es[..|es| - 1], k, d);
    }
  }

  lemma ExtrasOkTail(extra: seq<(string, string)>)
    requires |extra| > 0 && ExtrasOk(extra)
    ensures ExtrasOk(extra[1..])
  {
    forall i | 0 <= i < |extra[1..]| ensures ExtraOk(extra[1..][i]) {
      assert extra[1..][i] == extra[i + 1];
    }
  }

  /** Reading the lines the writer emits gives `ReadBackFM(fm)`. */
  lemma EmittedLinesApply(fm: FM)
    requires FieldsOk(fm)
    ensures ApplyLines(EmptyFM, EmittedLines(fm)) == ReadBackFM(fm)
  {
    var a := OptionalLine("id", fm.id);
    var b := OptionalLine("title", QuoteIfNeeded(fm.title));
    var c := OptionalLine("date", fm.date);
    var d := OptionalLine("description", QuoteIfNeeded(fm.description));
    var e := OptionalLine("thumbnail", QuoteIfNeeded(fm.thumbnail));
    var f := ExtraLines(fm.extra);
    var g3 := EmptyFM.(id := fm.id, title := ReadBack(fm.title), date := fm.date);
    EmittedHeadApply(fm);
    EmittedTailApply(g3, fm);
    ApplyLinesAppend(EmptyFM, a + b + c, d + e + f);
    SplitSix(a, b, c, d, e, f);
  }

  lemma SplitSix<T>(a: seq<T>, b: seq<T>, c: seq<T>, d: seq<T>, e: seq<T>, f: seq<T>)
    ensures a + b + c + d + e + f == (a + b + c) + (d + e + f)
  {
    ConcatAssoc(a + b + c, d + e, f);
    ConcatAssoc(a + b + c, d, e);
  }

  /** The id, title and date lines fill in those three fields. */
  lemma EmittedHeadApply(fm: FM)
    requires FieldsOk(fm)
    ensures ApplyLines(EmptyFM, OptionalLine("id", fm.id) + OptionalLine("title", QuoteIfNeeded(fm.title))
                                + OptionalLine("date", fm.date))
            == EmptyFM.(id := fm.id, title := ReadBack(fm.title), date := fm.date)
  {
    var a := OptionalLine("id", fm.id);
    var b := OptionalLine("title", QuoteIfNeeded(fm.title));
    var c := OptionalLine("date", fm.date);
    var g1 := EmptyFM.(id := fm.id);
    var g2 := g1.(title := ReadBack(fm.title));
    PlainLineApply(EmptyFM, "id", fm.id);
    QuotedLineApply(g1, "title", fm.title);
    ApplyLinesAppend(EmptyFM, a, b);
    PlainLineApply(g2, "date", fm.date);
    ApplyLinesAppend(EmptyFM, a + b, c);
  }

  /** The description, thumbnail and extra lines, read after a head that
      left those fields empty, fill them in. */
  lemma EmittedTailApply(g: FM, fm: FM)
    requires FieldsOk(fm) && g.description == "" && g.thumbnail == "" && g.extra == []
    ensures ApplyLines(g, OptionalLine("description", QuoteIfNeeded(fm.description))
                          + OptionalLine("thumbnail", QuoteIfNeeded(fm.thumbnail)) + ExtraLines(fm.extra))
            == g.(description := ReadBack(fm.description), thumbnail := ReadBack(fm.thumbnail),
                  extra := ReadBackExtras(fm.extra))
  {
    var d := OptionalLine("description", QuoteIfNeeded(fm.description));
    var e := OptionalLine("thumbnail", QuoteIfNeeded(fm.thumbnail));
    var f := ExtraLines(fm.extra);
    var g5 := g.(description := ReadBack(fm.description), thumbnail := ReadBack(fm.thumbnail));
    DescriptionThumbnailApply(g, fm.description, fm.thumbnail);
    ExtrasAfterEmpty(g5, fm.extra);
    ApplyLinesAppend(g, d + e, f);
  }

  lemma DescriptionThumbnailApply(g: FM, description: string, thumbnail: string)
    requires QuotableOk(description) && QuotableOk(thumbnail)
    requires g.description == "" && g.thumbnail == ""
    ensures ApplyLines(g, OptionalLine("description", QuoteIfNeeded(description))
                          + OptionalLine("thumbnail", QuoteIfNeeded(thumbnail)))
            == g.(description := ReadBack(description), thumbnail := ReadBack(thumbnail))
  {
    var g4 := g.(description := ReadBack(description));
    QuotedLineApply(g, "description", description);
    QuotedLineApply(g4, "thumbnail", thumbnail);
    ApplyLinesAppend(g, OptionalLine("description", QuoteIfNeeded(description)),
                     OptionalLine("thumbnail", QuoteIfNeeded(thumbnail)));
  }

  lemma ExtrasAfterEmpty(g: FM, extra: seq<(string, string)>)
    requires ExtrasOk(extra) && g.extra == []
    ensures ApplyLines(g, ExtraLines(extra)) == g.(extra := ReadBackExtras(extra))
  {
    ExtraLinesApply(g, extra);
    assert g.extra + ReadBackExtras(extra) == ReadBackExtras(extra);
  }

  // ---------------------------------------------------------------------
  // The round trip
  // ---------------------------------------------------------------------

  /** The writer's output has the fenced shape: the block is its lines
      joined, and the body is one newline followed by the body with its
      leading newlines removed. */
  lemma MatchSerialized(fm: FM, body: string)
    requires Writable(fm)
    ensures MatchFrontmatter(Serialize(fm, body))
            == Some((Join(EmittedLines(fm), '\n'), "\n" + StripLeadingNewlines(body)))
  {
    EmittedLinesGood(fm);
    MatchLayout(EmittedLines(fm), StripLeadingNewlines(body), Serialize(fm, body));
  }

  /** The same, for any good lines laid out the way the writer lays them. */
  lemma MatchLayout(ls: seq<string>, b: string, raw: string)
    requires |ls| > 0 && LinesGood(ls)
    requires raw == "---\n" + Terminated(ls) + "---\n\n" + b
    ensures MatchFrontmatter(raw) == Some((Join(ls, '\n'), "\n" + b))
  {
    var j := Join(ls, '\n');
    var t := j + "\n---" + ("\n\n" + b);
    assert raw == "---\n" + t by {
      FenceLayout(j, b);
    }
    CloseAfterLines(ls, "\n\n" + b);
    MatchFenced(raw, t, j, b);
  }

  /** The block found behind `---\n` when the first closing fence is the
      `\n---` right after `j`, followed by a blank line. */
  lemma MatchFenced(raw: string, t: string, j: string, b: string)
    requires raw == "---\n" + t && t == j + "\n---" + ("\n\n" + b)
    requires CloseOffset(t) == Some(|j|)
    ensures MatchFrontmatter(raw) == Some((j, "\n" + b))
  {
    assert OpenLength(raw) == Some(4);
    assert raw[4..] == t;
    var c := 4 + |j|;
    assert raw[c] == '\n' by { assert t[|j|] == '\n'; }
    assert raw[c + 4] == '\n' by { assert t[|j| + 4] == '\n'; }
    assert FenceTail(raw, c + 4) == 1;
    assert raw[4..c] == j by { assert t[..|j|] == j; }
    assert raw[c + 5..] == "\n" + b by { TailAfterFence(j, b); }
  }

  lemma FenceLayout(j: string, b: string)
    ensures "---\n" + (j + "\n") + "---\n\n" + b == "---\n" + (j + "\n---" + ("\n\n" + b))
  {
    var x := "---\n" + (j + "\n") + "---\n\n" + b;
    var y := "---\n" + (j + "\n---" + ("\n\n" + b));
    assert |x| == |y|;
    forall i | 0 <= i < |x| ensures x[i] == y[i] {
      if i < 4 + |j| {
      } else if i < 4 + |j| + 6 {
      } else {
      }
    }
  }

  lemma TailAfterFence(j: string, b: string)
    ensures (j + "\n---" + ("\n\n" + b))[|j| + 5..] == "\n" + b
  {
    var t := j + "\n---" + ("\n\n" + b);
    assert t == (j + "\n---\n") + ("\n" + b);
  }

  /** Reading what the writer wrote: every field and every extra entry
      comes back (quoted values with their escapes), and the body comes
      back as one newline followed by the body without leading newlines. */
  lemma ParseSerialize(fm: FM, body: string)
    requires Writable(fm)
    ensures Parse(Serialize(fm, body)) == (ReadBackFM(fm), "\n" + StripLeadingNewlines(body))
  {
    EmittedLinesGood(fm);
    ParseLayout(EmittedLines(fm), StripLeadingNewlines(body), Serialize(fm, body));
    EmittedLinesApply(fm);
  }

  lemma ParseMatched(raw: string, block: string, body: string, ls: seq<string>)
    requires MatchFrontmatter(raw) == Some((block, body)) && Split(block, '\n') == ls
    ensures Parse(raw) == (ApplyLines(EmptyFM, ls), body)
  {
  }

  /** A fenced block of good lines, a blank line and a body: the reader
      applies the lines and keeps the body after one line feed. */
  lemma ParseLayout(ls: seq<string>, b: string, raw: string)
    requires |ls| > 0 && LinesGood(ls)
    requires raw == "---\n" + Terminated(ls) + "---\n\n" + b
    ensures Parse(raw) == (ApplyLines(EmptyFM, ls), "\n" + b)
  {
    MatchLayout(ls, b, raw);
    assert Split(Join(ls, '\n'), '\n') == ls by {
      assert forall i :: 0 <= i < |ls| ==> '\n' !in ls[i];
      SplitJoin(ls, '\n');
    }
    ParseMatched(raw, Join(ls, '\n'), "\n" + b, ls);
  }

  /** Values with nothing to escape survive a save and a load unchanged. */
  lemma RoundTrip(fm: FM, body: string)
    requires Writable(fm) && NothingToEscape(fm)
    ensures Parse(Serialize(fm, body)) == (fm, "\n" + StripLeadingNewlines(body))
  {
    ParseSerialize(fm, body);
    assert ReadBackFM(fm) == fm by {
      ReadBackNoop(fm.title);
      ReadBackNoop(fm.description);
      ReadBackNoop(fm.thumbnail);
      ReadBackExtrasNoop(fm.extra);
    }
  }

  lemma ReadBackExtrasNoop(extra: seq<(string, string)>)
    requires forall i :: 0 <= i < |extra| ==> '\\' !in extra[i].1 && '"' !in extra[i].1
    ensures ReadBackExtras(extra) == extra
  {
    forall i | 0 <= i < |extra| ensures ReadBackExtras(extra)[i] == extra[i] {
      ReadBackNoop(extra[i].1);
    }
  }

  lemma StripAfterNewline(b: string)
    requires !StartsWith(b, "\n")
    ensures StripLeadingNewlines("\n" + b) == b
  {
    var s := "\n" + b;
    assert s[1..] == b;
    assert RunLength(s, IsNewline) == 1 + RunLength(b, IsNewline);
    assert |b| == 0 || b[0] != '\n' by {
      if |b| > 0 { assert b[..1] == [b[0]]; }
    }
  }

  /** Saving what was loaded from a save reproduces the same text. */
  lemma SerializeIdempotent(fm: FM, body: string)
    requires Writable(fm) && NothingToEscape(fm)
    ensures var (fm', body') := Parse(Serialize(fm, body));
            Serialize(fm', body') == Serialize(fm, body)
  {
    RoundTrip(fm, body);
    StripAfterNewline(StripLeadingNewlines(body));
  }

  /** Escapes are never undone on read: a title with a double quote comes
      back longer after each save and load. */
  lemma EscapesAccumulate(fm: FM, body: string)
    requires Writable(fm) && '"' in fm.title
    ensures |Parse(Serialize(fm, body)).0.title| > |fm.title|
  {
    ParseSerialize(fm, body);
    var i :| 0 <= i < |fm.title| && fm.title[i] == '"';
    assert IsYamlSpecial(fm.title[i]);
  }
}
