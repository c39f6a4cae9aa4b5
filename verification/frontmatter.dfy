/**
 * The editor's frontmatter codec: a line-oriented `key: value` reader for
 * the block between the `---` fences of an article, and the writer that
 * produces that block from the editor's form fields.
 */
module Frontmatter {
  import opened Wrappers
  import opened Text
  import Slug

  /** The editor's form state: the five known fields and, in source order,
      every other `key: value` line of the block. */
  datatype FM = FM(
    id: string,
    title: string,
    date: string,
    description: string,
    thumbnail: string,
    extra: seq<(string, string)>)

  const EmptyFM: FM := FM("", "", "", "", "", [])

  predicate IsKnownKey(k: string) {
    k == "id" || k == "title" || k == "date" || k == "description" || k == "thumbnail"
  }

  // ---------------------------------------------------------------------
  // Locating the block
  // ---------------------------------------------------------------------

  /** Length of the opening fence `---\n` or `---\r\n`, if the text starts
      with one. */
  function OpenLength(raw: string): (r: Option<nat>)
    ensures r == Some(4) <==> StartsWith(raw, "---\n")
    ensures r == Some(5) <==> StartsWith(raw, "---\r\n")
    ensures r.None? || r == Some(4) || r == Some(5)
  {
    assert StartsWith(raw, "---\n") ==> raw[3] == '\n';
    assert StartsWith(raw, "---\r\n") ==> raw[3] == '\r';
    if StartsWith(raw, "---\n") then Some(4)
    else if StartsWith(raw, "---\r\n") then Some(5)
    else None
  }

  /** A closing fence `\n---`, optionally preceded by `\r`, starts at `k`. */
  predicate ClosesAt(s: string, k: nat) {
    HasAt(s, k, "\n---") || HasAt(s, k, "\r\n---")
  }

  /** The first position where a closing fence starts: the lazy
      `([\s\S]*?)` stops at the earliest fence. */
  function CloseOffset(s: string): (r: Option<nat>)
    ensures r.Some? ==> ClosesAt(s, r.value)
                        && forall k: nat :: k < r.value ==> !ClosesAt(s, k)
    ensures r.None? ==> forall k: nat :: !ClosesAt(s, k)
    decreases |s|
  {
    if |s| == 0 then None
    else if ClosesAt(s, 0) then Some(0)
    else
      var r := CloseOffset(s[1..]);
      forall k: nat | k >= 1 ensures ClosesAt(s, k) <==> ClosesAt(s[1..], k - 1) {
        HasAtShift(s, k - 1, "\n---");
        HasAtShift(s, k - 1, "\r\n---");
      }
      match r
      case None => None
      case Some(k) => Some(k + 1)
  }

  /** The number of characters the optional `\r?` then `\n?` after the
      closing fence consume at `e`. */
  function FenceTail(raw: string, e: nat): (n: nat)
    requires e <= |raw|
    ensures e + n <= |raw|
    ensures n <= 2
  {
    var a := if e < |raw| && raw[e] == '\r' then 1 else 0;
    var b := if e + a < |raw| && raw[e + a] == '\n' then 1 else 0;
    a + b
  }

  /** A closing fence found at `k` after the opening fence lies inside the
      text, and so does its end. */
  lemma FenceEnd(raw: string, p: nat, k: nat)
    requires p <= |raw| && ClosesAt(raw[p..], k)
    ensures p + k < |raw|
    ensures raw[p + k] == '\r' ==> p + k + 5 <= |raw|
    ensures p + k + 4 <= |raw|
  {
    var s := raw[p..];
    if HasAt(s, k, "\n---") {
      assert s[k..k + 4] == "\n---";
      assert s[k] == '\n';
    } else {
      assert s[k..k + 5] == "\r\n---";
    }
  }

  /** `raw.match(/^---\r?\n([\s\S]*?)\r?\n---\r?\n?([\s\S]*)$/)`: the block
      and the body, when the text has that shape. */
  function MatchFrontmatter(raw: string): (r: Option<(string, string)>)
    ensures r.None? <==> OpenLength(raw).None? || CloseOffset(raw[OpenLength(raw).value..]).None?
    ensures r.Some? ==> exists b :: 0 <= b <= |raw| && r.value.1 == raw[b..]
  {
    match OpenLength(raw)
    case None => None
    case Some(p) =>
      match CloseOffset(raw[p..])
      case None => None
      case Some(k) =>
        var c := p + k;
        FenceEnd(raw, p, k);
        var e := if raw[c] == '\r' then c + 5 else c + 4;
        var b := e + FenceTail(raw, e);
        Some((raw[p..c], raw[b..]))
  }

  // ---------------------------------------------------------------------
  // Reading the block
  // ---------------------------------------------------------------------

  /** The value is enclosed in a matching pair of `"` or `'`. A lone quote
      character counts: it starts and ends with itself. */
  predicate QuoteShaped(v: string) {
    (StartsWith(v, "\"") && EndsWith(v, "\"")) || (StartsWith(v, "'") && EndsWith(v, "'"))
  }

  /** `value.slice(1, -1)` on a quote-shaped value: exactly one character
      goes at each end (a lone quote becomes empty); nothing is unescaped. */
  function StripQuotes(v: string): (r: string)
    ensures !QuoteShaped(v) ==> r == v
    ensures QuoteShaped(v) && |v| >= 2 ==> v == [v[0]] + r + [v[|v| - 1]]
    ensures QuoteShaped(v) && |v| < 2 ==> r == ""
  {
    if QuoteShaped(v) then (if |v| < 2 then "" else v[1..|v| - 1]) else v
  }

  /** The `(key, value)` a block line contributes: nothing without a colon,
      otherwise the trimmed text before the first colon and the trimmed,
      unquoted text after it. */
  function LineEntry(line: string): (r: Option<(string, string)>)
    ensures r.None? <==> ':' !in line
    ensures r.Some? ==> ':' !in r.value.0 && Trim(r.value.0) == r.value.0
  {
    match IndexOf(line, ':')
    case None => None
    case Some(i) =>
      var key := Trim(line[..i]);
      TrimInfix(line[..i]);
      TrimTwice(line[..i]);
      Some((key, StripQuotes(Trim(line[i + 1..]))))
  }

  lemma TrimTwice(s: string)
    ensures Trim(Trim(s)) == Trim(s)
  {
    TrimNoop(Trim(s));
  }

  /** Storing one entry: a known key overwrites its field, any other key is
      appended to `extra`. */
  function Assign(fm: FM, k: string, v: string): (r: FM)
    ensures IsKnownKey(k) ==> r.extra == fm.extra
    ensures !IsKnownKey(k) ==> r == fm.(extra := fm.extra + [(k, v)])
  {
    if k == "id" then fm.(id := v)
    else if k == "title" then fm.(title := v)
    else if k == "date" then fm.(date := v)
    else if k == "description" then fm.(description := v)
    else if k == "thumbnail" then fm.(thumbnail := v)
    else fm.(extra := fm.extra + [(k, v)])
  }

  function ApplyLine(fm: FM, line: string): FM {
    match LineEntry(line)
    case None => fm
    case Some(e) => Assign(fm, e.0, e.1)
  }

  /** The loop over the block's lines, in order. Entries already in
      `extra` stay first; each line adds at most one more. */
  function ApplyLines(fm: FM, lines: seq<string>): (r: FM)
    ensures |fm.extra| <= |r.extra| <= |fm.extra| + |lines|
    ensures r.extra[..|fm.extra|] == fm.extra
    decreases |lines|
  {
    if |lines| == 0 then fm
    else
      var g := ApplyLine(fm, lines[0]);
      assert |fm.extra| <= |g.extra| <= |fm.extra| + 1 && g.extra[..|fm.extra|] == fm.extra;
      var r := ApplyLines(g, lines[1..]);
      assert r.extra[..|fm.extra|] == r.extra[..|g.extra|][..|fm.extra|];
      r
  }

  /** `parseFrontmatter(raw)`: the form fields and the body. Text without
      the fenced shape gives empty fields and the whole text as body, and
      the body is always a suffix of the text. */
  function Parse(raw: string): (r: (FM, string))
    ensures MatchFrontmatter(raw).None? ==> r == (EmptyFM, raw)
    ensures exists b :: 0 <= b <= |raw| && r.1 == raw[b..]
  {
    match MatchFrontmatter(raw)
    case None =>
      assert raw == raw[0..];
      (EmptyFM, raw)
    case Some((block, body)) => (ApplyLines(EmptyFM, Split(block, '\n')), body)
  }

  // ---------------------------------------------------------------------
  // Writing the block
  // ---------------------------------------------------------------------

  /** The characters that make `quoteIfNeeded` quote a value. */
  predicate IsYamlSpecial(c: char) {
    c == ':' || c == '#' || c == '[' || c == ']' || c == '{' || c == '}' || c == ','
    || c == '&' || c == '*' || c == '?' || c == '|' || c == '>' || c == '!'
    || c == '\'' || c == '"' || c == '@' || c == '%' || c == '`'
  }

  predicate NeedsQuote(v: string) {
    exists i :: 0 <= i < |v| && IsYamlSpecial(v[i])
  }

  /** Backslash and double quote get a backslash in front; every other
      character is kept. */
  function Escape(v: string): (r: string)
    ensures |r| >= |v|
    ensures |r| == |v| <==> ('\\' !in v && '"' !in v)
    decreases |v|
  {
    if |v| == 0 then ""
    else
      var rest := Escape(v[1..]);
      assert v == [v[0]] + v[1..];
      if v[0] == '\\' || v[0] == '"' then ['\\', v[0]] + rest else [v[0]] + rest
  }

  /** Escaping changes a value exactly when it holds `\` or `"`. */
  lemma EscapeIdentity(v: string)
    ensures Escape(v) == v <==> ('\\' !in v && '"' !in v)
  {
    if '\\' !in v && '"' !in v {
      EscapeNoop(v);
    }
  }

  lemma {:induction false} EscapeNoop(v: string)
    requires '\\' !in v && '"' !in v
    ensures Escape(v) == v
    decreases |v|
  {
    if |v| > 0 {
      assert v == [v[0]] + v[1..];
      EscapeNoop(v[1..]);
    }
  }

  /** `v.replace(/\\/g, "\\\\").replace(/"/g, '\\"')`, the two passes the
      program runs, agree with the one-pass `Escape`. */
  lemma EscapeIsTwoPasses(v: string)
    ensures Escape(v) == ReplaceAll(ReplaceAll(v, "\\", "\\\\"), "\"", "\\\"")
  {
    ReplaceCharIsMap(v, '\\', "\\\\");
    var w := MapChar(v, '\\', "\\\\");
    ReplaceCharIsMap(w, '"', "\\\"");
    MapCharsIsEscape(v);
  }

  /** Replace each occurrence of the character `c` by `t`. */
  function MapChar(s: string, c: char, t: string): string
    decreases |s|
  {
    if |s| == 0 then "" else (if s[0] == c then t else [s[0]]) + MapChar(s[1..], c, t)
  }

  lemma {:induction false} ReplaceCharIsMap(s: string, c: char, t: string)
    ensures ReplaceAll(s, [c], t) == MapChar(s, c, t)
    decreases |s|
  {
    if |s| > 0 {
      assert s[..1] == [s[0]];
      assert s[|[c]|..] == s[1..];
      ReplaceCharIsMap(s[1..], c, t);
    }
  }

  lemma {:induction false} MapCharAppend(a: string, b: string, c: char, t: string)
    ensures MapChar(a + b, c, t) == MapChar(a, c, t) + MapChar(b, c, t)
    decreases |a|
  {
    if |a| == 0 {
      assert a + b == b;
    } else {
      assert (a + b)[1..] == a[1..] + b;
      MapCharAppend(a[1..], b, c, t);
    }
  }

  lemma {:induction false} MapCharsIsEscape(v: string)
    ensures MapChar(MapChar(v, '\\', "\\\\"), '"', "\\\"") == Escape(v)
    decreases |v|
  {
    if |v| > 0 {
      var head := if v[0] == '\\' then "\\\\" else [v[0]];
      var rest := MapChar(v[1..], '\\', "\\\\");
      assert MapChar(v, '\\', "\\\\") == head + rest;
      MapCharAppend(head, rest, '"', "\\\"");
      MapCharsIsEscape(v[1..]);
      var h2 := MapChar(head, '"', "\\\"");
      if v[0] == '\\' {
        assert MapChar(head[1..], '"', "\\\"") == "\\";
        assert h2 == "\\\\";
      } else if v[0] == '"' {
        assert h2 == "\\\"";
      } else {
        assert h2 == [v[0]];
      }
    }
  }

  /** `quoteIfNeeded(v)`: a value with a YAML-special character is escaped
      and enclosed in double quotes; any other value is written as is. */
  function QuoteIfNeeded(v: string): (r: string)
    ensures !NeedsQuote(v) ==> r == v
    ensures NeedsQuote(v) ==> r == "\"" + Escape(v) + "\""
  {
    if NeedsQuote(v) then "\"" + Escape(v) + "\"" else v
  }

  /** The line `key: value` as the serialiser writes it. */
  function KeyLine(k: string, v: string): string {
    k + ": " + v
  }

  function OptionalLine(k: string, v: string): (r: seq<string>)
    ensures |r| <= 1
  {
    if v == "" then [] else [KeyLine(k, v)]
  }

  function ExtraLines(extra: seq<(string, string)>): (r: seq<string>)
    ensures |r| == |extra|
    ensures forall i :: 0 <= i < |r| ==> r[i] == KeyLine(extra[i].0, QuoteIfNeeded(extra[i].1))
    decreases |extra|
  {
    if |extra| == 0 then []
    else [KeyLine(extra[0].0, QuoteIfNeeded(extra[0].1))] + ExtraLines(extra[1..])
  }

  /** The block lines in the order the serialiser writes them: the known
      fields that are non-empty (id and date never quoted), then every
      extra entry, empty or not. */
  function EmittedLines(fm: FM): seq<string> {
    OptionalLine("id", fm.id)
    + OptionalLine("title", QuoteIfNeeded(fm.title))
    + OptionalLine("date", fm.date)
    + OptionalLine("description", QuoteIfNeeded(fm.description))
    + OptionalLine("thumbnail", QuoteIfNeeded(fm.thumbnail))
    + ExtraLines(fm.extra)
  }

  /** Each line followed by a newline. */
  function Terminated(lines: seq<string>): (r: string)
    ensures |lines| > 0 ==> r == Join(lines, '\n') + "\n"
    decreases |lines|
  {
    if |lines| == 0 then ""
    else
      var rest := Terminated(lines[1..]);
      if |lines| == 1 then lines[0] + "\n"
      else
        assert rest == Join(lines[1..], '\n') + "\n";
        lines[0] + "\n" + rest
  }

  /** `body.replace(/^\n+/, "")`. */
  function StripLeadingNewlines(body: string): (r: string)
    ensures !StartsWith(r, "\n")
    ensures exists b :: 0 <= b <= |body| && r == body[b..]
  {
    body[RunLength(body, IsNewline)..]
  }

  predicate IsNewline(c: char) { c == '\n' }

  /** `serializeFrontmatter(fm, body)`: the opening fence, one line per
      emitted field, the closing fence and a blank line, then the body
      without its leading line feeds. */
  function Serialize(fm: FM, body: string): (r: string)
    ensures StartsWith(r, "---\n")
    ensures EndsWith(r, "---\n\n" + StripLeadingNewlines(body))
  {
    Framed("---\n", Terminated(EmittedLines(fm)), "---\n\n", StripLeadingNewlines(body));
    "---\n" + Terminated(EmittedLines(fm)) + "---\n\n" + StripLeadingNewlines(body)
  }

  /** Typing in the title field re-derives the id from it
      (`fmId.value = slugify(fmTitle.value)`); nothing else changes. */
  function SyncIdFromTitle(fm: FM): (r: FM)
    ensures Slug.IsSlug(r.id)
    ensures r.(id := fm.id) == fm
  {
    fm.(id := Slug.Slugify(fm.title))
  }

  /** Re-deriving the id twice is re-deriving it once. */
  lemma SyncIdIdempotent(fm: FM)
    ensures SyncIdFromTitle(SyncIdFromTitle(fm)) == SyncIdFromTitle(fm)
  {
  }
}
