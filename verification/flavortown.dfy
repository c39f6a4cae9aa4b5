/**
 * The Flavortown importer (flavortown.ts): how one imported project and
 * its devlogs become a Markdown article with a frontmatter header, and
 * which article files an import run writes.
 *
 * The Flavortown API client, the interactive prompts and the key press
 * that ends the program are not part of this model; the projects and
 * devlogs are given as data. A devlog's date is given as the text
 * `toLocaleDateString()` shows for it, since that text depends on the
 * locale.
 */
module Flavortown {
  import opened Wrappers
  import opened Text
  import opened Frontmatter
  import opened FrontmatterRoundTrip
  import Slug
  import Skeleton
  import Catalog

  const Host: string := "https://flavortown.hackclub.com"
  const DefaultBanner: string := "/assets/default-banner-3d4e1b67.png"

  /** The project fields the article uses. `bannerUrl` may be null. */
  datatype Project = Project(title: string, description: string, createdAt: string,
                             bannerUrl: Option<string>)

  datatype Media = Media(url: string, contentType: string)

  datatype Devlog = Devlog(durationSeconds: nat, shownDate: string, body: string, media: seq<Media>)

  /** One fetched project with its devlogs. */
  datatype Import = Import(project: Project, devlogs: seq<Devlog>)

  // ---------------------------------------------------------------------
  // Tracked time
  // ---------------------------------------------------------------------

  /** Whole hours and the whole minutes left over. */
  lemma TrackedSplit(s: nat)
    ensures (s % 3600) / 60 < 60
    ensures (s / 3600) * 3600 + ((s % 3600) / 60) * 60 <= s
    ensures s < (s / 3600) * 3600 + ((s % 3600) / 60) * 60 + 60
  {
    var r := s % 3600;
    assert s == (s / 3600) * 3600 + r;
    assert r == (r / 60) * 60 + r % 60;
  }

  /** `formatTrackedTime(seconds)`: `"<h>h <m>m"`, where the decimal
      numbers `h` and `m`, written without leading zeros as `String`
      writes them, are the whole hours and the whole minutes left
      over, so that `s` lies in the minute starting at `h` hours `m`
      minutes. */
  function FormatTrackedTime(s: nat): (r: string)
    ensures exists hs, ms ::
              && r == hs + "h " + ms + "m"
              && AllDigits(hs) && AllDigits(ms) && |hs| > 0 && |ms| > 0
              && (|hs| > 1 ==> hs[0] != '0') && (|ms| > 1 ==> ms[0] != '0')
              && DigitsValue(ms) < 60
              && DigitsValue(hs) * 3600 + DigitsValue(ms) * 60 <= s
              && s < DigitsValue(hs) * 3600 + DigitsValue(ms) * 60 + 60
  {
    var h := s / 3600;
    var m := (s % 3600) / 60;
    TrackedSplit(s);
    NatToStringValue(h);
    NatToStringValue(m);
    NatToString(h) + "h " + NatToString(m) + "m"
  }

  // ---------------------------------------------------------------------
  // The header
  // ---------------------------------------------------------------------

  /** `"https://flavortown.hackclub.com" + (banner_url || default)`: a
      null or empty banner falls back to the default banner. */
  function Thumbnail(banner: Option<string>): (r: string)
    ensures StartsWith(r, Host)
    ensures r[|Host|..] == (if banner.Some? && banner.value != "" then banner.value else DefaultBanner)
  {
    var path := if banner.Some? && banner.value != "" then banner.value else DefaultBanner;
    assert (Host + path)[..|Host|] == Host;
    Host + path
  }

  /** `generateArticleHeader(article)`: the slug as id, the title, date and
      description written as they are (never quoted), and the thumbnail
      URL. */
  function ArticleHeader(p: Project): (r: string)
    ensures r == "---\n" + Terminated(HeaderLines(p)) + "---\n"
  {
    var id := Slug.Slugify(p.title);
    var u := Thumbnail(p.bannerUrl);
    HeaderLayout(id, p.title, p.createdAt, p.description, u);
    "---\nid: " + id + "\ntitle: " + p.title + "\ndate: " + p.createdAt
    + "\ndescription: " + p.description + "\nthumbnail: " + u + "\n---\n"
  }

  function HeaderLines(p: Project): seq<string> {
    LinesOf(Slug.Slugify(p.title), p.title, p.createdAt, p.description, Thumbnail(p.bannerUrl))
  }

  function LinesOf(id: string, t: string, c: string, d: string, u: string): seq<string> {
    [KeyLine("id", id), KeyLine("title", t), KeyLine("date", c), KeyLine("description", d),
     KeyLine("thumbnail", u)]
  }

  /** The header text is a fenced block of its five lines. */
  lemma HeaderLayout(id: string, t: string, c: string, d: string, u: string)
    ensures "---\nid: " + id + "\ntitle: " + t + "\ndate: " + c + "\ndescription: " + d
            + "\nthumbnail: " + u + "\n---\n"
            == "---\n" + Terminated(LinesOf(id, t, c, d, u)) + "---\n"
  {
    var ls := LinesOf(id, t, c, d, u);
    TerminatedFive(ls[0], ls[1], ls[2], ls[3], ls[4]);
    assert ls == [ls[0], ls[1], ls[2], ls[3], ls[4]];
    Spell(id, t, c, d, u);
  }

  lemma TerminatedFive(l0: string, l1: string, l2: string, l3: string, l4: string)
    ensures Terminated([l0, l1, l2, l3, l4])
            == l0 + "\n" + (l1 + "\n" + (l2 + "\n" + (l3 + "\n" + (l4 + "\n"))))
  {
    assert [l0, l1, l2, l3, l4][1..] == [l1, l2, l3, l4];
    assert [l1, l2, l3, l4][1..] == [l2, l3, l4];
    assert [l2, l3, l4][1..] == [l3, l4];
    assert [l3, l4][1..] == [l4];
    assert Terminated([l4]) == l4 + "\n";
    assert Terminated([l3, l4]) == l3 + "\n" + (l4 + "\n");
    assert Terminated([l2, l3, l4]) == l2 + "\n" + (l3 + "\n" + (l4 + "\n"));
    assert Terminated([l1, l2, l3, l4]) == l1 + "\n" + (l2 + "\n" + (l3 + "\n" + (l4 + "\n")));
  }

  lemma Spell(id: string, t: string, c: string, d: string, u: string)
    ensures "---\nid: " + id + "\ntitle: " + t + "\ndate: " + c + "\ndescription: " + d
            + "\nthumbnail: " + u + "\n---\n"
            == "---\n" + (KeyLine("id", id) + "\n" + (KeyLine("title", t) + "\n"
               + (KeyLine("date", c) + "\n" + (KeyLine("description", d) + "\n"
               + (KeyLine("thumbnail", u) + "\n"))))) + "---\n"
  {
    Regroup("---\n", "\n", ": ", "id", "title", "date", "description", "thumbnail", id, t, c, d, u);
    LiteralPieces();
  }

  lemma Regroup(f: string, n: string, s: string, k1: string, k2: string, k3: string, k4: string,
                k5: string, id: string, t: string, c: string, d: string, u: string)
    ensures (f + k1 + s) + id + (n + k2 + s) + t + (n + k3 + s) + c + (n + k4 + s) + d
            + (n + k5 + s) + u + (n + "---\n")
            == f + ((k1 + s + id) + n + ((k2 + s + t) + n + ((k3 + s + c) + n
               + ((k4 + s + d) + n + ((k5 + s + u) + n))))) + "---\n"
  {
    ConcatAssoc(f + k1 + s + id, n + k2, s);
    ConcatAssoc(f + k1 + s + id, n, k2);
    ConcatAssoc(f + k1 + s + id + n + k2 + s + t, n + k3, s);
    ConcatAssoc(f + k1 + s + id + n + k2 + s + t, n, k3);
    ConcatAssoc(f + k1 + s + id + n + k2 + s + t + n + k3 + s + c, n + k4, s);
    ConcatAssoc(f + k1 + s + id + n + k2 + s + t + n + k3 + s + c, n, k4);
    ConcatAssoc(f + k1 + s + id + n + k2 + s + t + n + k3 + s + c + n + k4 + s + d, n + k5, s);
    ConcatAssoc(f + k1 + s + id + n + k2 + s + t + n + k3 + s + c + n + k4 + s + d, n, k5);
    ConcatAssoc(f + k1 + s + id + n + k2 + s + t + n + k3 + s + c + n + k4 + s + d + n + k5 + s + u, n, "---\n");
    ConcatAssoc(f, k1 + s + id + n, k2 + s + t + n + (k3 + s + c + n + (k4 + s + d + n + (k5 + s + u + n))));
    ConcatAssoc(f, k1 + s + id, n);
    ConcatAssoc(f, k1 + s, id);
    ConcatAssoc(f, k1, s);
    ConcatAssoc(f + k1 + s + id + n, k2 + s + t + n, k3 + s + c + n + (k4 + s + d + n + (k5 + s + u + n)));
    ConcatAssoc(f + k1 + s + id + n, k2 + s + t, n);
    ConcatAssoc(f + k1 + s + id + n, k2 + s, t);
    ConcatAssoc(f + k1 + s + id + n, k2, s);
    ConcatAssoc(f + k1 + s + id + n + k2 + s + t + n, k3 + s + c + n, k4 + s + d + n + (k5 + s + u + n));
    ConcatAssoc(f + k1 + s + id + n + k2 + s + t + n, k3 + s + c, n);
    ConcatAssoc(f + k1 + s + id + n + k2 + s + t + n, k3 + s, c);
    ConcatAssoc(f + k1 + s + id + n + k2 + s + t + n, k3, s);
    ConcatAssoc(f + k1 + s + id + n + k2 + s + t + n + k3 + s + c + n, k4 + s + d + n, k5 + s + u + n);
    ConcatAssoc(f + k1 + s + id + n + k2 + s + t + n + k3 + s + c + n, k4 + s + d, n);
    ConcatAssoc(f + k1 + s + id + n + k2 + s + t + n + k3 + s + c + n, k4 + s, d);
    ConcatAssoc(f + k1 + s + id + n + k2 + s + t + n + k3 + s + c + n, k4, s);
    ConcatAssoc(f + k1 + s + id + n + k2 + s + t + n + k3 + s + c + n + k4 + s + d + n, k5 + s + u, n);
    ConcatAssoc(f + k1 + s + id + n + k2 + s + t + n + k3 + s + c + n + k4 + s + d + n, k5 + s, u);
    ConcatAssoc(f + k1 + s + id + n + k2 + s + t + n + k3 + s + c + n + k4 + s + d + n, k5, s);
  }

  lemma LiteralPieces()
    ensures "---\nid: " == "---\n" + "id" + ": "
    ensures "\ntitle: " == "\n" + "title" + ": "
    ensures "\ndate: " == "\n" + "date" + ": "
    ensures "\ndescription: " == "\n" + "description" + ": "
    ensures "\nthumbnail: " == "\n" + "thumbnail" + ": "
    ensures "\n---\n" == "\n" + "---\n"
  {
  }

  /** A value the header can carry on one line: no line break and no white
      space at either end. */
  predicate OneLine(v: string) {
    '\n' !in v && Trim(v) == v
  }

  /** What the importer needs of a project for the editor to read its
      header back: one-line title, date and description, and a one-line
      banner path when there is one. */
  predicate Readable(p: Project) {
    OneLine(p.title) && OneLine(p.createdAt) && OneLine(p.description)
    && (p.bannerUrl.Some? ==> OneLine(p.bannerUrl.value))
  }

  lemma OneLineGood(k: string, v: string)
    requires IsKnownKey(k) && OneLine(v)
    ensures LineGood(KeyLine(k, v))
  {
    KnownKeyShape(k);
    KeyLineGood(k, v);
  }

  lemma ThumbnailOneLine(banner: Option<string>)
    requires banner.Some? ==> OneLine(banner.value)
    ensures OneLine(Thumbnail(banner))
  {
    var path := if banner.Some? && banner.value != "" then banner.value else DefaultBanner;
    var r := Thumbnail(banner);
    assert r == r[..|Host|] + r[|Host|..];
    HostOneLine();
    if banner.Some? && banner.value != "" {
      BannerOneLine(path);
    } else {
      DefaultBannerOneLine(path);
    }
    OneLineJoin(Host, path);
  }

  lemma HostOneLine()
    ensures '\n' !in Host && |Host| > 0 && !IsSpace(Host[0])
  {
    assert Host[0] == 'h';
  }

  lemma BannerOneLine(path: string)
    requires OneLine(path) && path != ""
    ensures '\n' !in path && |path| > 0 && !IsSpace(path[|path| - 1])
  {
    assert Trim(path) == path;
  }

  lemma DefaultBannerOneLine(path: string)
    requires path == DefaultBanner
    ensures '\n' !in path && |path| > 0 && !IsSpace(path[|path| - 1])
  {
    assert path[|path| - 1] == 'g';
  }

  /** A line-break-free text with no blank at either end is one line. */
  lemma OneLineJoin(h: string, path: string)
    requires '\n' !in h && |h| > 0 && !IsSpace(h[0])
    requires '\n' !in path && |path| > 0 && !IsSpace(path[|path| - 1])
    ensures OneLine(h + path)
  {
    var r := h + path;
    assert r[0] == h[0];
    assert r[|r| - 1] == path[|path| - 1];
    TrimNoop(r);
  }

  lemma ThumbnailUnquoted(banner: Option<string>)
    ensures !QuoteShaped(Thumbnail(banner))
  {
    var u := Thumbnail(banner);
    assert u[..|Host|] == Host;
    assert u[0] == 'h' by {
      assert u[0] == u[..|Host|][0];
    }
    assert u[..1] == [u[0]];
  }

  lemma HeaderLinesGood(p: Project)
    requires Readable(p)
    ensures LinesGood(HeaderLines(p))
  {
    ThumbnailOneLine(p.bannerUrl);
    LinesOfGood(Slug.Slugify(p.title), p.title, p.createdAt, p.description, Thumbnail(p.bannerUrl));
  }

  lemma LinesOfGood(id: string, t: string, c: string, d: string, u: string)
    requires Slug.IsSlug(id) && OneLine(t) && OneLine(c) && OneLine(d) && OneLine(u)
    ensures LinesGood(LinesOf(id, t, c, d, u))
  {
    Skeleton.SlugLineGood(id);
    OneLineGood("title", t);
    OneLineGood("date", c);
    OneLineGood("description", d);
    OneLineGood("thumbnail", u);
    FiveLinesGood(KeyLine("id", id), KeyLine("title", t), KeyLine("date", c),
                  KeyLine("description", d), KeyLine("thumbnail", u));
  }

  lemma FiveLinesGood(l0: string, l1: string, l2: string, l3: string, l4: string)
    requires LineGood(l0) && LineGood(l1) && LineGood(l2) && LineGood(l3) && LineGood(l4)
    ensures LinesGood([l0, l1, l2, l3, l4])
  {
  }

  lemma ApplyFive(g: FM, l0: string, l1: string, l2: string, l3: string, l4: string)
    ensures ApplyLines(g, [l0, l1, l2, l3, l4])
            == ApplyLines(ApplyLines(ApplyLines(ApplyLines(ApplyLines(g, [l0]), [l1]), [l2]), [l3]), [l4])
  {
    assert [l0, l1, l2, l3, l4] == [l0] + [l1, l2, l3, l4];
    assert [l1, l2, l3, l4] == [l1] + [l2, l3, l4];
    assert [l2, l3, l4] == [l2] + [l3, l4];
    assert [l3, l4] == [l3] + [l4];
    ApplyLinesAppend(g, [l0], [l1, l2, l3, l4]);
    var g1 := ApplyLines(g, [l0]);
    ApplyLinesAppend(g1, [l1], [l2, l3, l4]);
    var g2 := ApplyLines(g1, [l1]);
    ApplyLinesAppend(g2, [l2], [l3, l4]);
    var g3 := ApplyLines(g2, [l2]);
    ApplyLinesAppend(g3, [l3], [l4]);
  }

  /** The form the editor fills in from an imported header. */
  function HeaderForm(p: Project): FM {
    FM(Slug.Slugify(p.title), StripQuotes(p.title), StripQuotes(p.createdAt),
       StripQuotes(p.description), Thumbnail(p.bannerUrl), [])
  }

  lemma HeaderFields(p: Project)
    requires Readable(p)
    ensures ApplyLines(EmptyFM, HeaderLines(p)) == HeaderForm(p)
  {
    var u := Thumbnail(p.bannerUrl);
    ThumbnailUnquoted(p.bannerUrl);
    ThumbnailOneLine(p.bannerUrl);
    LinesOfFields(Slug.Slugify(p.title), p.title, p.createdAt, p.description, u);
  }

  /** Reading one line of a known key whose value is already trimmed. */
  lemma TrimmedLine(g: FM, k: string, v: string)
    requires IsKnownKey(k) && Trim(v) == v
    ensures ApplyLines(g, [KeyLine(k, v)]) == Assign(g, k, StripQuotes(v))
  {
    Skeleton.KeyLineApply(g, k, v);
  }

  lemma LinesOfFields(id: string, t: string, c: string, d: string, u: string)
    requires Slug.IsSlug(id) && OneLine(t) && OneLine(c) && OneLine(d) && OneLine(u) && !QuoteShaped(u)
    ensures ApplyLines(EmptyFM, LinesOf(id, t, c, d, u))
            == FM(id, StripQuotes(t), StripQuotes(c), StripQuotes(d), u, [])
  {
    var g0 := EmptyFM;
    var g1 := g0.(id := id);
    var g2 := g1.(title := StripQuotes(t));
    var g3 := g2.(date := StripQuotes(c));
    var g4 := g3.(description := StripQuotes(d));
    var g5 := g4.(thumbnail := u);
    assert ApplyLines(g0, [KeyLine("id", id)]) == g1 by {
      Skeleton.KeyLineApply(g0, "id", id);
      Skeleton.SlugReadsBack(id);
    }
    assert ApplyLines(g1, [KeyLine("title", t)]) == g2 by {
      TrimmedLine(g1, "title", t);
    }
    assert ApplyLines(g2, [KeyLine("date", c)]) == g3 by {
      TrimmedLine(g2, "date", c);
    }
    assert ApplyLines(g3, [KeyLine("description", d)]) == g4 by {
      TrimmedLine(g3, "description", d);
    }
    assert ApplyLines(g4, [KeyLine("thumbnail", u)]) == g5 by {
      TrimmedLine(g4, "thumbnail", u);
    }
    ApplyFive(g0, KeyLine("id", id), KeyLine("title", t), KeyLine("date", c),
              KeyLine("description", d), KeyLine("thumbnail", u));
  }

  /** The editor reads an imported header back: the slug as id, the title,
      date and description as written (losing one character at each end
      when they happen to be enclosed in quotes, since the importer never
      quotes), the thumbnail URL, and no other keys. The body is what
      follows the header after one blank line. */
  lemma ImportedHeaderParses(p: Project, b: string)
    requires Readable(p)
    ensures Parse(ArticleHeader(p) + "\n" + b) == (HeaderForm(p), "\n" + b)
  {
    HeaderLinesGood(p);
    Skeleton.ParseFenced(HeaderLines(p), b, ArticleHeader(p));
    HeaderFields(p);
  }

  // ---------------------------------------------------------------------
  // The article body
  // ---------------------------------------------------------------------

  /** An image becomes a Markdown image with the project title as alt
      text, a video a `<video>` tag; any other media type is dropped. Both
      point at the media path on the Flavortown host. */
  function MediaMarkdown(title: string, m: Media): (r: string)
    ensures StartsWith(m.contentType, "image/") ==> r == "![" + title + "](" + Host + m.url + ")\n\n"
    ensures StartsWith(m.contentType, "video/")
            ==> r == "<video controls src=\"" + Host + m.url + "\"></video>\n\n"
    ensures r == "" <==> !StartsWith(m.contentType, "image/") && !StartsWith(m.contentType, "video/")
  {
    if StartsWith(m.contentType, "image/") then "![" + title + "](" + Host + m.url + ")\n\n"
    else if StartsWith(m.contentType, "video/") then "<video controls src=\"" + Host + m.url + "\"></video>\n\n"
    else ""
  }

  /** The media of one devlog in order, each as `MediaMarkdown` writes
      it. */
  function MediaList(title: string, ms: seq<Media>): (r: string)
    ensures |ms| == 0 ==> r == ""
    decreases |ms|
  {
    if |ms| == 0 then "" else MediaList(title, ms[..|ms| - 1]) + MediaMarkdown(title, ms[|ms| - 1])
  }

  /** Each medium's text, one piece per medium. */
  function MediaParts(title: string, ms: seq<Media>): (r: seq<string>)
    ensures |r| == |ms|
    ensures forall i :: 0 <= i < |ms| ==> r[i] == MediaMarkdown(title, ms[i])
    decreases |ms|
  {
    if |ms| == 0 then []
    else
      var init := ms[..|ms| - 1];
      var r := MediaParts(title, init) + [MediaMarkdown(title, ms[|ms| - 1])];
      assert forall i :: 0 <= i < |init| ==> ms[i] == init[i];
      r
  }

  /** The media list is the media's texts written one after another in
      the devlog's order. */
  lemma {:induction false} MediaListConcat(title: string, ms: seq<Media>)
    ensures MediaList(title, ms) == Concat(MediaParts(title, ms))
    decreases |ms|
  {
    if |ms| > 0 {
      var init := ms[..|ms| - 1];
      MediaListConcat(title, init);
      ConcatSnoc(MediaParts(title, init), MediaMarkdown(title, ms[|ms| - 1]));
    }
  }

  /** Media that are neither images nor videos leave no trace in the
      article. */
  lemma {:induction false} OnlyImagesAndVideos(title: string, ms: seq<Media>)
    requires forall i :: 0 <= i < |ms| ==> !StartsWith(ms[i].contentType, "image/")
                                           && !StartsWith(ms[i].contentType, "video/")
    ensures MediaList(title, ms) == ""
    decreases |ms|
  {
    if |ms| > 0 {
      OnlyImagesAndVideos(title, ms[..|ms| - 1]);
    }
  }

  /** The heading of one devlog: tracked time, a dash, the shown date. */
  function DevlogHeading(d: Devlog): string {
    "\n\n## " + FormatTrackedTime(d.durationSeconds) + " - " + d.shownDate + "\n\n"
  }

  /** One devlog: a second-level heading with the tracked time and the
      date, then the devlog text and a blank line, then its media. */
  function DevlogMarkdown(title: string, d: Devlog): (r: string)
    ensures StartsWith(r, "\n\n## ")
    ensures StartsWith(r, "\n\n## " + FormatTrackedTime(d.durationSeconds) + " - " + d.shownDate + "\n\n")
    ensures r[|DevlogHeading(d)|..] == d.body + "\n\n" + MediaList(title, d.media)
  {
    var h := DevlogHeading(d);
    var rest := d.body + "\n\n" + MediaList(title, d.media);
    var r := h + rest;
    assert r[..|h|] == h;
    assert r[..5] == h[..5];
    assert r[|h|..] == rest;
    r
  }

  /** The devlogs in order, each as `DevlogMarkdown` writes it. */
  function DevlogsMarkdown(title: string, ds: seq<Devlog>): (r: string)
    ensures |ds| > 0 ==> StartsWith(r, "\n\n## ")
    decreases |ds|
  {
    if |ds| == 0 then ""
    else
      var first := DevlogMarkdown(title, ds[0]);
      var r := first + DevlogsMarkdown(title, ds[1..]);
      assert r[..5] == first[..5];
      r
  }

  /** Each devlog's text, one piece per devlog. */
  function DevlogParts(title: string, ds: seq<Devlog>): (r: seq<string>)
    ensures |r| == |ds|
    ensures forall i :: 0 <= i < |ds| ==> r[i] == DevlogMarkdown(title, ds[i])
  {
    seq(|ds|, i requires 0 <= i < |ds| => DevlogMarkdown(title, ds[i]))
  }

  /** The devlog section is the devlogs' texts written one after another
      in the fetched order. */
  lemma {:induction false} DevlogsConcat(title: string, ds: seq<Devlog>)
    ensures DevlogsMarkdown(title, ds) == Concat(DevlogParts(title, ds))
    decreases |ds|
  {
    if |ds| > 0 {
      DevlogsConcat(title, ds[1..]);
      assert DevlogParts(title, ds)[1..] == DevlogParts(title, ds[1..]);
    }
  }

  /** The text written for one import: the header, then each devlog in
      order. */
  function Markdown(imp: Import): (r: string)
    ensures StartsWith(r, ArticleHeader(imp.project))
    ensures r[|ArticleHeader(imp.project)|..] == DevlogsMarkdown(imp.project.title, imp.devlogs)
  {
    var h := ArticleHeader(imp.project);
    var r := h + DevlogsMarkdown(imp.project.title, imp.devlogs);
    assert r[..|h|] == h;
    assert r[|h|..] == DevlogsMarkdown(imp.project.title, imp.devlogs);
    r
  }

  /** An imported article is its header followed by every devlog's text
      in order. */
  lemma MarkdownPieces(imp: Import)
    ensures Markdown(imp) == ArticleHeader(imp.project) + Concat(DevlogParts(imp.project.title, imp.devlogs))
  {
    var h := ArticleHeader(imp.project);
    var m := Markdown(imp);
    DevlogsConcat(imp.project.title, imp.devlogs);
    assert m == m[..|h|] + m[|h|..];
  }

  /** The editor reads the header of an imported article that has at least
      one devlog, and keeps everything after the header's closing line but
      for one line feed as the body. */
  lemma ImportParses(imp: Import)
    requires Readable(imp.project) && |imp.devlogs| > 0
    ensures Parse(Markdown(imp)).0 == HeaderForm(imp.project)
  {
    var h := ArticleHeader(imp.project);
    var rest := DevlogsMarkdown(imp.project.title, imp.devlogs);
    assert Markdown(imp) == h + rest;
    LeadingNewline(h, rest);
    ImportedHeaderParses(imp.project, rest[1..]);
  }

  lemma LeadingNewline(h: string, rest: string)
    requires StartsWith(rest, "\n\n## ")
    ensures h + rest == h + "\n" + rest[1..]
  {
    assert rest[0] == rest[..5][0] == '\n';
    assert rest == "\n" + rest[1..];
  }

  // ---------------------------------------------------------------------
  // Writing the articles
  // ---------------------------------------------------------------------

  /** The file an import is written to in the articles directory: the
      slug of the project title with `.md`. The catalog lists it unless the
      slug is empty, which gives the hidden file `.md`. */
  function ImportFilename(p: Project): (f: string)
    ensures Catalog.IsListed(f) <==> Slug.Slugify(p.title) != ""
    ensures Slug.Slugify(p.title) != "" ==> Catalog.Stem(f) == Slug.Slugify(p.title)
    ensures Slug.Slugify(p.title) == "" ==> f == ".md"
  {
    var id := Slug.Slugify(p.title);
    Catalog.SlugFile(id);
    id + ".md"
  }

  /** The file writes of `renderArticles()`, in order: each import's
      file name and text. */
  function Writes(imports: seq<Import>): (r: seq<(string, string)>)
    ensures |r| == |imports|
    ensures forall i :: 0 <= i < |r| ==> r[i] == (ImportFilename(imports[i].project), Markdown(imports[i]))
  {
    seq(|imports|, i requires 0 <= i < |imports| => (ImportFilename(imports[i].project), Markdown(imports[i])))
  }

  /** Applying file writes to the articles directory in order. The files
      present afterwards are the files written and the files already
      there. */
  function WriteFiles(writes: seq<(string, string)>, dir: map<string, string>): (r: map<string, string>)
    ensures forall f :: f in r <==> f in dir || LastWrite(writes, f).Some?
    decreases |writes|
  {
    if |writes| == 0 then dir
    else
      var n := |writes| - 1;
      WriteFiles(writes[..n], dir)[writes[n].0 := writes[n].1]
  }

  /** The last write to file `f`, if any. */
  function LastWrite(writes: seq<(string, string)>, f: string): (r: Option<nat>)
    ensures r.None? <==> forall i :: 0 <= i < |writes| ==> writes[i].0 != f
    ensures r.Some? ==> r.value < |writes| && writes[r.value].0 == f
    ensures r.Some? ==> forall j :: r.value < j < |writes| ==> writes[j].0 != f
    decreases |writes|
  {
    if |writes| == 0 then None
    else if writes[|writes| - 1].0 == f then Some(|writes| - 1)
    else LastWrite(writes[..|writes| - 1], f)
  }

  /** Each file holds the text of its last write; a file never written
      keeps its text. */
  lemma {:induction false} WrittenText(writes: seq<(string, string)>, dir: map<string, string>, f: string)
    ensures LastWrite(writes, f).Some? ==> WriteFiles(writes, dir)[f] == writes[LastWrite(writes, f).value].1
    ensures f in dir && LastWrite(writes, f).None? ==> WriteFiles(writes, dir)[f] == dir[f]
    decreases |writes|
  {
    if |writes| > 0 {
      var n := |writes| - 1;
      WrittenText(writes[..n], dir, f);
      if writes[n].0 != f {
        assert LastWrite(writes, f) == LastWrite(writes[..n], f);
      }
    }
  }

  /** `renderArticles()` over the articles directory. */
  function RenderArticles(imports: seq<Import>, dir: map<string, string>): (r: map<string, string>)
    ensures forall f :: f in r <==> f in dir || exists i :: 0 <= i < |imports| && ImportFilename(imports[i].project) == f
  {
    var ws := Writes(imports);
    WrittenNames(imports);
    WriteFiles(ws, dir)
  }

  /** The files the import writes are the imported articles' files. */
  lemma WrittenNames(imports: seq<Import>)
    ensures forall f :: LastWrite(Writes(imports), f).Some?
                        <==> exists i :: 0 <= i < |imports| && ImportFilename(imports[i].project) == f
  {
    forall f ensures LastWrite(Writes(imports), f).Some?
                     <==> exists i :: 0 <= i < |imports| && ImportFilename(imports[i].project) == f
    {
      WrittenName(imports, f);
    }
  }

  lemma WrittenName(imports: seq<Import>, f: string)
    ensures LastWrite(Writes(imports), f).Some?
            <==> exists i :: 0 <= i < |imports| && ImportFilename(imports[i].project) == f
  {
    var ws := Writes(imports);
    if LastWrite(ws, f).Some? {
      var i := LastWrite(ws, f).value;
      assert ws[i].0 == ImportFilename(imports[i].project);
    } else {
      forall i | 0 <= i < |imports| ensures ImportFilename(imports[i].project) != f {
        assert ws[i].0 == ImportFilename(imports[i].project);
      }
    }
  }

  /** A write no later write overrides stays in the directory. */
  lemma LastWriteWins(ws: seq<(string, string)>, dir: map<string, string>, i: nat)
    requires i < |ws|
    requires forall j :: i < j < |ws| ==> ws[j].0 != ws[i].0
    ensures WriteFiles(ws, dir)[ws[i].0] == ws[i].1
  {
    var f := ws[i].0;
    assert LastWrite(ws, f) == Some(i);
    WrittenText(ws, dir, f);
  }

  /** An import whose file no later import writes survives in the
      directory; an earlier import whose title has the same slug as a
      later one is overwritten by it. */
  lemma ImportSurvives(imports: seq<Import>, dir: map<string, string>, i: nat)
    requires i < |imports|
    requires forall j :: i < j < |imports| ==> ImportFilename(imports[j].project) != ImportFilename(imports[i].project)
    ensures RenderArticles(imports, dir)[ImportFilename(imports[i].project)] == Markdown(imports[i])
  {
    var ws := Writes(imports);
    forall j | i < j < |ws|
      ensures ws[j].0 != ws[i].0
    {
      assert ws[j].0 == ImportFilename(imports[j].project);
    }
    LastWriteWins(ws, dir, i);
  }
}
