/**
 * The text a new article starts from (`generateFrontmatter` in
 * src/lib/articles.ts), and what the editor's frontmatter reader makes of
 * it.
 */
module Skeleton {
  import opened Wrappers
  import opened Text
  import opened Frontmatter
  import opened FrontmatterLaws
  import opened FrontmatterRoundTrip
  import Slug

  const Placeholder: string := "Write your article here..."

  /** `generateFrontmatter(title, description)` with today's date passed
      in: the id is the title's slug, title and description sit in double
      quotes exactly as given, and the body is a level-one heading with the
      title followed by a placeholder paragraph. */
  function GenerateFrontmatter(title: string, description: string, today: string): (r: string)
    ensures r == "---\n" + Terminated(SkeletonLines(title, description, today)) + "---\n\n"
                 + SkeletonBody(title)
  {
    var id := Slug.Slugify(title);
    var b := SkeletonBody(title);
    SkeletonLayout(id, title, description, today, b);
    "---\nid: " + id + "\ntitle: \"" + title + "\"\ndate: " + today
    + "\ndescription: \"" + description + "\"\n---\n\n" + b
  }

  function Quoted(v: string): string {
    "\"" + v + "\""
  }

  /** The four header lines of a new article. */
  function SkeletonLines(title: string, description: string, today: string): seq<string> {
    [KeyLine("id", Slug.Slugify(title)), KeyLine("title", Quoted(title)),
     KeyLine("date", today), KeyLine("description", Quoted(description))]
  }

  function SkeletonBody(title: string): string {
    "# " + title + "\n\n" + Placeholder + "\n"
  }

  /** The skeleton text is a fenced block of its four header lines
      followed by its body, laid out the way the editor's writer lays a
      block out. */
  lemma SkeletonLayout(id: string, title: string, description: string, today: string, b: string)
    requires id == Slug.Slugify(title)
    ensures "---\nid: " + id + "\ntitle: \"" + title + "\"\ndate: " + today
            + "\ndescription: \"" + description + "\"\n---\n\n" + b
            == "---\n" + Terminated(SkeletonLines(title, description, today)) + "---\n\n" + b
  {
    var ls := SkeletonLines(title, description, today);
    var l0, l1, l2, l3 := ls[0], ls[1], ls[2], ls[3];
    assert Terminated(ls) == l0 + "\n" + (l1 + "\n" + (l2 + "\n" + (l3 + "\n"))) by {
      assert ls[1..][1..][1..] == [l3];
      assert Terminated([l3]) == l3 + "\n";
    }
    Spell(id, title, today, description, b);
  }

  /** The same layout with the slug, title, date, description and body
      as variables. */
  lemma Spell(id: string, t: string, today: string, d: string, b: string)
    ensures "---\nid: " + id + "\ntitle: \"" + t + "\"\ndate: " + today
            + "\ndescription: \"" + d + "\"\n---\n\n" + b
            == "---\n" + (KeyLine("id", id) + "\n" + (KeyLine("title", Quoted(t)) + "\n"
               + (KeyLine("date", today) + "\n" + (KeyLine("description", Quoted(d)) + "\n"))))
               + "---\n\n" + b
  {
    Regroup("---\n", "id", ": ", "\n", "title", "\"", "date", "description", "---\n\n",
            id, t, today, d, b);
    LiteralPieces();
  }

  lemma Regroup(f: string, k1: string, s: string, n: string, k2: string, q: string, k3: string,
                k4: string, g: string, id: string, t: string, today: string, d: string, b: string)
    ensures (f + k1 + s) + id + (n + k2 + s + q) + t + (q + n + k3 + s) + today
            + (n + k4 + s + q) + d + (q + n + g) + b
            == f + ((k1 + s + id) + n + ((k2 + s + (q + t + q)) + n
               + ((k3 + s + today) + n + ((k4 + s + (q + d + q)) + n)))) + g + b
  {
    ConcatAssoc(f + k1 + s + id, n + k2 + s, q);
    ConcatAssoc(f + k1 + s + id, n + k2, s);
    ConcatAssoc(f + k1 + s + id, n, k2);
    ConcatAssoc(f + k1 + s + id + n + k2 + s + q + t, q + n + k3, s);
    ConcatAssoc(f + k1 + s + id + n + k2 + s + q + t, q + n, k3);
    ConcatAssoc(f + k1 + s + id + n + k2 + s + q + t, q, n);
    ConcatAssoc(f + k1 + s + id + n + k2 + s + q + t + q + n + k3 + s + today, n + k4 + s, q);
    ConcatAssoc(f + k1 + s + id + n + k2 + s + q + t + q + n + k3 + s + today, n + k4, s);
    ConcatAssoc(f + k1 + s + id + n + k2 + s + q + t + q + n + k3 + s + today, n, k4);
    ConcatAssoc(f + k1 + s + id + n + k2 + s + q + t + q + n + k3 + s + today + n + k4 + s + q + d, q + n, g);
    ConcatAssoc(f + k1 + s + id + n + k2 + s + q + t + q + n + k3 + s + today + n + k4 + s + q + d, q, n);
    ConcatAssoc(f, k1 + s + id + n, k2 + s + (q + t + q) + n + (k3 + s + today + n + (k4 + s + (q + d + q) + n)));
    ConcatAssoc(f, k1 + s + id, n);
    ConcatAssoc(f, k1 + s, id);
    ConcatAssoc(f, k1, s);
    ConcatAssoc(f + k1 + s + id + n, k2 + s + (q + t + q) + n, k3 + s + today + n + (k4 + s + (q + d + q) + n));
    ConcatAssoc(f + k1 + s + id + n, k2 + s + (q + t + q), n);
    ConcatAssoc(f + k1 + s + id + n, k2 + s, q + t + q);
    ConcatAssoc(f + k1 + s + id + n, k2, s);
    ConcatAssoc(f + k1 + s + id + n + k2 + s, q + t, q);
    ConcatAssoc(f + k1 + s + id + n + k2 + s, q, t);
    ConcatAssoc(f + k1 + s + id + n + k2 + s + q + t + q + n, k3 + s + today + n, k4 + s + (q + d + q) + n);
    ConcatAssoc(f + k1 + s + id + n + k2 + s + q + t + q + n, k3 + s + today, n);
    ConcatAssoc(f + k1 + s + id + n + k2 + s + q + t + q + n, k3 + s, today);
    ConcatAssoc(f + k1 + s + id + n + k2 + s + q + t + q + n, k3, s);
    ConcatAssoc(f + k1 + s + id + n + k2 + s + q + t + q + n + k3 + s + today + n, k4 + s + (q + d + q), n);
    ConcatAssoc(f + k1 + s + id + n + k2 + s + q + t + q + n + k3 + s + today + n, k4 + s, q + d + q);
    ConcatAssoc(f + k1 + s + id + n + k2 + s + q + t + q + n + k3 + s + today + n, k4, s);
    ConcatAssoc(f + k1 + s + id + n + k2 + s + q + t + q + n + k3 + s + today + n + k4 + s, q + d, q);
    ConcatAssoc(f + k1 + s + id + n + k2 + s + q + t + q + n + k3 + s + today + n + k4 + s, q, d);
  }

  lemma LiteralPieces()
    ensures "---\nid: " == "---\n" + "id" + ": "
    ensures "\ntitle: \"" == "\n" + "title" + ": " + "\""
    ensures "\"\ndate: " == "\"" + "\n" + "date" + ": "
    ensures "\ndescription: \"" == "\n" + "description" + ": " + "\""
    ensures "\"\n---\n\n" == "\"" + "\n" + "---\n\n"
  {
  }

  /** Every header line of a new article is one the closing-fence search
      cannot stop inside. */
  lemma SkeletonLinesGood(title: string, description: string, today: string)
    requires '\n' !in title && '\n' !in description && PlainOk(today)
    ensures LinesGood(SkeletonLines(title, description, today))
  {
    SlugLineGood(Slug.Slugify(title));
    QuotedKeyLineGood("title", title);
    PlainKeyLineGood("date", today);
    QuotedKeyLineGood("description", description);
    FourLinesGood(KeyLine("id", Slug.Slugify(title)), KeyLine("title", Quoted(title)),
                  KeyLine("date", today), KeyLine("description", Quoted(description)));
  }

  lemma FourLinesGood(l0: string, l1: string, l2: string, l3: string)
    requires LineGood(l0) && LineGood(l1) && LineGood(l2) && LineGood(l3)
    ensures LinesGood([l0, l1, l2, l3])
  {
  }

  lemma PlainKeyLineGood(k: string, v: string)
    requires IsKnownKey(k) && PlainOk(v)
    ensures LineGood(KeyLine(k, v))
  {
    KnownKeyShape(k);
    PlainShape(v);
    KeyLineGood(k, v);
  }

  lemma SlugLineGood(id: string)
    requires Slug.IsSlug(id)
    ensures LineGood(KeyLine("id", id))
  {
    Slug.NoSpaceInSlug(id);
    assert '\n' !in id by {
      assert forall i :: 0 <= i < |id| ==> Slug.IsSlugChar(id[i]);
    }
    KnownKeyShape("id");
    KeyLineGood("id", id);
  }

  lemma QuotedKeyLineGood(k: string, v: string)
    requires IsKnownKey(k) && '\n' !in v
    ensures LineGood(KeyLine(k, Quoted(v)))
  {
    var q := Quoted(v);
    assert q[|q| - 1] == '"';
    assert '\n' !in q by {
      assert q == "\"" + v + "\"";
    }
    KnownKeyShape(k);
    KeyLineGood(k, q);
  }

  /** A quoted value reads back as the text between the quotes. */
  lemma QuotedReadsBack(v: string)
    ensures StripQuotes(Trim(Quoted(v))) == v
  {
    var q := Quoted(v);
    assert q[0] == '"' && q[|q| - 1] == '"';
    TrimNoop(q);
    assert q[1..|q| - 1] == v;
  }

  /** A slug reads back as itself. */
  lemma SlugReadsBack(id: string)
    requires Slug.IsSlug(id)
    ensures StripQuotes(Trim(id)) == id
  {
    Slug.NoSpaceInSlug(id);
    TrimNoop(id);
    if |id| > 0 {
      assert Slug.IsSlugChar(id[0]);
    }
  }

  /** Reading one `key: value` line of a known key stores what it says. */
  lemma KeyLineApply(g: FM, k: string, w: string)
    requires IsKnownKey(k)
    ensures ApplyLines(g, [KeyLine(k, w)]) == Assign(g, k, StripQuotes(Trim(w)))
  {
    KnownKeyShape(k);
    TrimNoop(k);
    KeyLineEntry(k, w);
    ApplyOneLine(g, KeyLine(k, w));
  }

  lemma SkeletonFields(title: string, description: string, today: string)
    requires PlainOk(today)
    ensures ApplyLines(EmptyFM, SkeletonLines(title, description, today))
            == FM(Slug.Slugify(title), title, today, description, "", [])
  {
    var id := Slug.Slugify(title);
    var ls := SkeletonLines(title, description, today);
    var l0, l1, l2, l3 := ls[0], ls[1], ls[2], ls[3];
    var g0 := EmptyFM;
    var g1 := g0.(id := id);
    var g2 := g1.(title := title);
    var g3 := g2.(date := today);
    var g4 := g3.(description := description);
    assert ApplyLines(g0, [l0]) == g1 by {
      KeyLineApply(g0, "id", id);
      SlugReadsBack(id);
    }
    assert ApplyLines(g1, [l1]) == g2 by {
      KeyLineApply(g1, "title", Quoted(title));
      QuotedReadsBack(title);
    }
    assert ApplyLines(g2, [l2]) == g3 by {
      KeyLineApply(g2, "date", today);
    }
    assert ApplyLines(g3, [l3]) == g4 by {
      KeyLineApply(g3, "description", Quoted(description));
      QuotedReadsBack(description);
    }
    ApplyFour(g0, l0, l1, l2, l3);
  }

  lemma ApplyFour(g: FM, l0: string, l1: string, l2: string, l3: string)
    ensures ApplyLines(g, [l0, l1, l2, l3])
            == ApplyLines(ApplyLines(ApplyLines(ApplyLines(g, [l0]), [l1]), [l2]), [l3])
  {
    assert [l0, l1, l2, l3] == [l0] + [l1, l2, l3];
    assert [l1, l2, l3] == [l1] + [l2, l3];
    assert [l2, l3] == [l2] + [l3];
    ApplyLinesAppend(g, [l0], [l1, l2, l3]);
    ApplyLinesAppend(ApplyLines(g, [l0]), [l1], [l2, l3]);
    ApplyLinesAppend(ApplyLines(ApplyLines(g, [l0]), [l1]), [l2], [l3]);
  }

  /** The same, with the header `h` ending in the closing fence's line
      feed. */
  lemma ParseFenced(ls: seq<string>, b: string, h: string)
    requires |ls| > 0 && LinesGood(ls)
    requires h == "---\n" + Terminated(ls) + "---\n"
    ensures Parse(h + "\n" + b) == (ApplyLines(EmptyFM, ls), "\n" + b)
  {
    var t := Terminated(ls);
    JoinFence("---\n", t, "---\n", "\n", b);
    ParseLayout(ls, b, h + "\n" + b);
  }

  lemma JoinFence(a: string, t: string, f: string, n: string, b: string)
    requires f == "---\n" && n == "\n"
    ensures a + t + f + n + b == a + t + "---\n\n" + b
  {
    assert f + n == "---\n\n";
  }

  /** Opening a new article in the editor shows the title's slug as id,
      the title and description as given, today's date, no other keys, and
      the heading and placeholder as body. */
  lemma SkeletonParses(title: string, description: string, today: string)
    requires '\n' !in title && '\n' !in description && PlainOk(today)
    ensures Parse(GenerateFrontmatter(title, description, today))
            == (FM(Slug.Slugify(title), title, today, description, "", []),
                "\n" + SkeletonBody(title))
  {
    SkeletonLinesGood(title, description, today);
    ParseLayout(SkeletonLines(title, description, today), SkeletonBody(title),
                GenerateFrontmatter(title, description, today));
    SkeletonFields(title, description, today);
  }
}
