/**
 * The article page of the built site (src/frontend/article.ts): how the
 * page finds the article named by its `id` parameter, what it fetches,
 * the title it gives the document, and how it drops the frontmatter from
 * the Markdown source before rendering it.
 *
 * The network is not part of this model: each fetch is a parameter whose
 * value is the response text or the error message. Markdown rendering
 * (`marked`) and date formatting (`toLocaleDateString`) are left out; the
 * page keeps the Markdown body and the raw date instead.
 */
module Viewer {
  import opened Wrappers
  import opened Text
  import opened Types
  import Catalog
  import Slug
  import Skeleton

  // ---------------------------------------------------------------------
  // Dropping the frontmatter
  // ---------------------------------------------------------------------

  const Fence: string := "---"

  /** `md.replace(/^---[\s\S]*?---\n?/, "")`: text that starts with three
      dashes loses everything up to and including the next three dashes
      (searched from index 3, wherever they stand), and one line feed right
      after them. Without that opening or closing run the text is kept. */
  function StripFrontmatter(md: string): (r: string)
    ensures EndsWith(md, r)
    ensures !StartsWith(md, Fence) ==> r == md
    ensures StartsWith(md, Fence) && !Occurs(md[3..], Fence) ==> r == md
  {
    if !StartsWith(md, Fence) then md
    else
      match FindFrom(md, Fence, 3)
      case None => md
      case Some(j) =>
        var e := j + 3;
        assert md[3..][j - 3..j] == md[j..e];
        assert HasAt(md[3..], j - 3, Fence);
        if e < |md| && md[e] == '\n' then md[e + 1..] else md[e..]
  }

  /** A header that does not contain three dashes, not even when followed
      by the dashes of the closing run, is dropped whole together with its
      closing run and one line feed. */
  lemma StripClosedHeader(h: string, rest: string)
    requires !Occurs(h + "--", Fence)
    ensures StripFrontmatter(Fence + h + Fence + rest)
            == if |rest| > 0 && rest[0] == '\n' then rest[1..] else rest
  {
    var md := Fence + h + Fence + rest;
    var e := 3 + |h|;
    assert HasAt(md, e, Fence) by {
      assert md[e..e + 3] == Fence;
    }
    forall j | 3 <= j < e
      ensures !HasAt(md, j, Fence)
    {
      var y := h + "--";
      assert !HasAt(y, j - 3, Fence);
      if j + 3 <= |md| {
        assert md[j..j + 3] == y[j - 3..j];
      }
    }
    assert StartsWith(md, Fence) by {
      assert md[..3] == Fence;
    }
    assert FindFrom(md, Fence, 3) == Some(e) by {
      FindFromFirst(md, Fence, 3, e);
    }
    assert md[e + 3..] == rest;
  }

  /** `FindFrom` stops at the first occurrence. */
  lemma FindFromFirst(s: string, pat: string, i: nat, e: nat)
    requires i <= e <= |s| && HasAt(s, e, pat)
    requires forall j :: i <= j < e ==> !HasAt(s, j, pat)
    ensures FindFrom(s, pat, i) == Some(e)
  {
  }

  predicate NoDoubleDash(s: string) {
    forall i :: 0 <= i < |s| - 1 ==> !(s[i] == '-' && s[i + 1] == '-')
  }

  /** Text without two dashes in a row and not ending in a dash cannot
      hold three dashes, even with two more dashes after it. */
  lemma NoFenceInside(x: string)
    requires NoDoubleDash(x)
    requires |x| == 0 || x[|x| - 1] != '-'
    ensures !Occurs(x + "--", Fence)
  {
    var y := x + "--";
    forall j | 0 <= j <= |y|
      ensures !HasAt(y, j, Fence)
    {
      if j + 3 <= |y| {
        if j + 1 < |x| {
          assert y[j] == x[j] && y[j + 1] == x[j + 1];
        } else {
          assert y[j] == x[j];
        }
      }
    }
  }

  lemma DashFreeNoDoubleDash(x: string)
    requires '-' !in x
    ensures NoDoubleDash(x)
  {
    forall i | 0 <= i < |x| - 1
      ensures x[i] != '-'
    {
      assert x[i] in x;
    }
  }

  /** Joining two pieces without two dashes in a row keeps that property
      when they do not meet dash to dash. */
  lemma NoDoubleDashAppend(a: string, b: string)
    requires NoDoubleDash(a) && NoDoubleDash(b)
    requires |a| == 0 || |b| == 0 || a[|a| - 1] != '-' || b[0] != '-'
    ensures NoDoubleDash(a + b)
  {
    var s := a + b;
    forall i | 0 <= i < |s| - 1
      ensures !(s[i] == '-' && s[i + 1] == '-')
    {
      if i + 1 < |a| {
        assert s[i] == a[i] && s[i + 1] == a[i + 1];
      } else if i + 1 == |a| {
        assert s[i] == a[|a| - 1] && s[i + 1] == b[0];
      } else {
        assert s[i] == b[i - |a|] && s[i + 1] == b[i - |a| + 1];
      }
    }
  }

  /** Three dashes inside a header value end the header early: the viewer
      then shows what follows them in the value, the closing run and the
      rest of the file. */
  lemma DashesInValueEndHeader(a: string, b: string, rest: string)
    requires '-' !in a
    requires |b| > 0 && b[0] != '\n'
    ensures StripFrontmatter("---\ntitle: " + a + "---" + b + "\n---\n" + rest)
            == b + "\n---\n" + rest
  {
    assert '-' !in "\ntitle: ";
    assert "---\ntitle: " == "---" + "\ntitle: ";
    DashesEndHeader("\ntitle: ", a, b, rest);
  }

  /** The same for any dash-free key text `k` in front of the value. */
  lemma DashesEndHeader(k: string, a: string, b: string, rest: string)
    requires '-' !in k && '-' !in a
    requires |b| > 0 && b[0] != '\n'
    ensures StripFrontmatter(("---" + k) + a + "---" + b + "\n---\n" + rest)
            == b + "\n---\n" + rest
  {
    var h := k + a;
    DashFreeNoDoubleDash(h);
    NoFenceInside(h);
    var tail := b + "\n---\n" + rest;
    StripClosedHeader(h, tail);
    ValueRegroup("---", k, a, b, "\n---\n", rest);
  }

  lemma ValueRegroup(f: string, k: string, a: string, b: string, c: string, rest: string)
    ensures (f + k) + a + f + b + c + rest == f + (k + a) + f + (b + c + rest)
  {
  }

  // ---------------------------------------------------------------------
  // A new article in the viewer
  // ---------------------------------------------------------------------

  /** The header of a new article, between its opening and closing runs. */
  function SkeletonHeader(title: string, description: string, today: string): string {
    "\nid: " + Slug.Slugify(title) + "\ntitle: \"" + title + "\"\ndate: " + today
    + "\ndescription: \"" + description + "\"\n"
  }

  lemma SkeletonSplits(title: string, description: string, today: string)
    ensures Skeleton.GenerateFrontmatter(title, description, today)
            == Fence + SkeletonHeader(title, description, today) + Fence + "\n\n"
               + Skeleton.SkeletonBody(title)
  {
    Regroup("---", "\nid: ", Slug.Slugify(title), "\ntitle: \"", title, "\"\ndate: ", today,
            "\ndescription: \"", description, "\"\n", "\n\n", Skeleton.SkeletonBody(title));
    FencePieces();
  }

  lemma Regroup(f: string, a: string, id: string, l2: string, t: string, l3: string, td: string,
                l4: string, d: string, q: string, g: string, b: string)
    ensures (f + a) + id + l2 + t + l3 + td + l4 + d + (q + f + g) + b
            == f + (a + id + l2 + t + l3 + td + l4 + d + q) + f + g + b
  {
    ConcatAssoc(f + a + id + l2 + t + l3 + td + l4 + d, q + f, g);
    ConcatAssoc(f + a + id + l2 + t + l3 + td + l4 + d, q, f);
    ConcatAssoc(f, a + id + l2 + t + l3 + td + l4 + d, q);
    ConcatAssoc(f, a + id + l2 + t + l3 + td + l4, d);
    ConcatAssoc(f, a + id + l2 + t + l3 + td, l4);
    ConcatAssoc(f, a + id + l2 + t + l3, td);
    ConcatAssoc(f, a + id + l2 + t, l3);
    ConcatAssoc(f, a + id + l2, t);
    ConcatAssoc(f, a + id, l2);
    ConcatAssoc(f, a, id);
  }

  lemma FencePieces()
    ensures "---\nid: " == "---" + "\nid: "
    ensures "\"\n---\n\n" == "\"\n" + "---" + "\n\n"
  {
  }

  /** The header of a new article holds no three dashes when its title,
      description and date hold no dash at all: the only dashes are those
      of the slug, which never has two in a row. */
  lemma SkeletonHeaderNoFence(title: string, description: string, today: string)
    requires '-' !in title && '-' !in description && '-' !in today
    ensures !Occurs(SkeletonHeader(title, description, today) + "--", Fence)
  {
    HeaderGlued(title, description, today);
    HeaderRestDashFree(title, description, today);
    SlugNoDoubleDash(title);
    assert '-' !in "\nid: ";
    GlueNoFence("\nid: ", Slug.Slugify(title), HeaderRest(title, description, today));
  }

  /** The header after the slug. */
  function HeaderRest(title: string, description: string, today: string): string {
    "\ntitle: \"" + title + "\"\ndate: " + today + "\ndescription: \"" + description + "\"\n"
  }

  lemma HeaderGlued(title: string, description: string, today: string)
    ensures SkeletonHeader(title, description, today)
            == "\nid: " + Slug.Slugify(title) + HeaderRest(title, description, today)
  {
    GlueSeven("\nid: " + Slug.Slugify(title), "\ntitle: \"", title, "\"\ndate: ", today,
              "\ndescription: \"", description, "\"\n");
  }

  lemma GlueSeven(p: string, x1: string, x2: string, x3: string, x4: string, x5: string, x6: string,
                  x7: string)
    ensures p + (x1 + x2 + x3 + x4 + x5 + x6 + x7) == p + x1 + x2 + x3 + x4 + x5 + x6 + x7
  {
    ConcatAssoc(p, x1 + x2 + x3 + x4 + x5 + x6, x7);
    ConcatAssoc(p, x1 + x2 + x3 + x4 + x5, x6);
    ConcatAssoc(p, x1 + x2 + x3 + x4, x5);
    ConcatAssoc(p, x1 + x2 + x3, x4);
    ConcatAssoc(p, x1 + x2, x3);
    ConcatAssoc(p, x1, x2);
  }

  lemma HeaderRestDashFree(title: string, description: string, today: string)
    requires '-' !in title && '-' !in description && '-' !in today
    ensures var b := HeaderRest(title, description, today);
            '-' !in b && |b| > 0 && b[0] == '\n' && b[|b| - 1] == '\n'
  {
    DashFreeJoin7("\ntitle: \"", title, "\"\ndate: ", today, "\ndescription: \"", description, "\"\n");
  }

  lemma SlugNoDoubleDash(title: string)
    ensures NoDoubleDash(Slug.Slugify(title))
  {
  }

  /** A slug glued between two dash-free texts that start and end with a
      line break holds no three dashes. */
  lemma GlueNoFence(a: string, id: string, b: string)
    requires '-' !in a && '-' !in b && NoDoubleDash(id)
    requires |a| > 0 && a[|a| - 1] != '-'
    requires |b| > 0 && b[0] == '\n' && b[|b| - 1] == '\n'
    ensures !Occurs(a + id + b + "--", Fence)
  {
    DashFreeNoDoubleDash(a);
    DashFreeNoDoubleDash(b);
    NoDoubleDashAppend(a, id);
    NoDoubleDashAppend(a + id, b);
    var h := a + id + b;
    assert h[|h| - 1] == '\n';
    NoFenceInside(h);
  }

  lemma DashFreeJoin7(s1: string, s2: string, s3: string, s4: string, s5: string, s6: string, s7: string)
    requires '-' !in s1 && '-' !in s2 && '-' !in s3 && '-' !in s4
    requires '-' !in s5 && '-' !in s6 && '-' !in s7
    ensures '-' !in s1 + s2 + s3 + s4 + s5 + s6 + s7
  {
  }

  /** A new article whose title, description and date hold no dash shows
      exactly its body in the viewer: the heading, the placeholder and the
      blank line before them. */
  lemma SkeletonShowsBody(title: string, description: string, today: string)
    requires '-' !in title && '-' !in description && '-' !in today
    ensures StripFrontmatter(Skeleton.GenerateFrontmatter(title, description, today))
            == "\n" + Skeleton.SkeletonBody(title)
  {
    SkeletonSplits(title, description, today);
    SkeletonHeaderNoFence(title, description, today);
    StripBeforeBlankLine(SkeletonHeader(title, description, today), Skeleton.SkeletonBody(title));
  }

  /** A closed header followed by a blank line leaves one line feed before
      the body. */
  lemma StripBeforeBlankLine(h: string, b: string)
    requires !Occurs(h + "--", Fence)
    ensures StripFrontmatter(Fence + h + Fence + "\n\n" + b) == "\n" + b
  {
    var rest := "\n\n" + b;
    assert rest[0] == '\n' && rest[1..] == "\n" + b;
    StripClosedHeader(h, rest);
    assert Fence + h + Fence + "\n\n" + b == Fence + h + Fence + rest;
  }

  // ---------------------------------------------------------------------
  // The page
  // ---------------------------------------------------------------------

  const ArticlesUrl: string := "./articles.json"
  const ConfigUrl: string := "./config.json"
  const NoIdText: string := "No article ID specified."

  /** The separator between the article title and the site title. */
  const Dash: string := " \U{2014} "

  function LoadingMsg(text: string): string {
    "<p class=\"loading-msg\">" + text + "</p>"
  }

  function NotFoundText(id: string): string {
    "Article \"" + id + "\" not found."
  }

  function ErrorText(message: string): string {
    "Error: " + message
  }

  /** What the page container ends up showing: a one-line message, or the
      article with its optional banner and description and its Markdown
      body. */
  datatype Screen =
    | Message(html: string)
    | Article(banner: Option<string>, date: string, heading: string,
              description: Option<string>, body: string)

  /** The page after `main` has run: what it shows, the document title if
      it was set, and the URLs it fetched, in order. */
  datatype Page = Page(screen: Screen, documentTitle: Option<string>, fetched: seq<string>)

  /** `main` with the `id` query parameter, the outcomes of fetching the
      catalog and the configuration (a value or an error message), and the
      outcome of fetching each article source by URL. The catalog is the
      list as decoded from `articles.json`, where a `Date` has already
      turned into its ISO text (`JsonEntry`). When both JSON fetches fail,
      the catalog's error is the one shown. */
  function ViewArticle(id: Option<string>, articles: Result<seq<ArticleMeta>, string>,
                       config: Result<SiteConfig, string>,
                       source: string -> Result<string, string>): (p: Page)
    ensures id.None? || id == Some("") ==> p == Page(Message(LoadingMsg(NoIdText)), None, [])
    ensures id.Some? && id.value != "" ==> |p.fetched| >= 2 && p.fetched[..2] == [ArticlesUrl, ConfigUrl]
    ensures p.screen.Article? ==> id.Some? && articles.Success? && config.Success?
    ensures p.screen.Article? ==>
              exists k :: 0 <= k < |articles.value| && IdIs(articles.value[k], id.value)
                          && (forall i :: 0 <= i < k ==> !IdIs(articles.value[i], id.value))
                          && p.fetched == [ArticlesUrl, ConfigUrl, "./articles/" + articles.value[k].filename]
                          && p.documentTitle == Some(Shown(articles.value[k].title) + Dash + config.value.title)
                          && source(p.fetched[2]).Success?
                          && p.screen.body == StripFrontmatter(source(p.fetched[2]).value)
                          && p.screen.heading == Shown(articles.value[k].title)
  {
    if id.None? || id.value == "" then Page(Message(LoadingMsg(NoIdText)), None, [])
    else
      var asked := [ArticlesUrl, ConfigUrl];
      if articles.Failure? then Page(Message(LoadingMsg(ErrorText(articles.error))), None, asked)
      else if config.Failure? then Page(Message(LoadingMsg(ErrorText(config.error))), None, asked)
      else
        match Catalog.FindById(articles.value, id.value)
        case None => Page(Message(LoadingMsg(NotFoundText(id.value))), None, asked)
        case Some(k) =>
          var meta := articles.value[k];
          var title := Some(Shown(meta.title) + Dash + config.value.title);
          var url := "./articles/" + meta.filename;
          match source(url)
          case Failure(e) => Page(Message(LoadingMsg(ErrorText(e))), title, asked + [url])
          case Success(md) =>
            var banner := if meta.thumbnail.Some? && Truthy(meta.thumbnail.value)
                          then Some(Shown(meta.thumbnail.value)) else None;
            var desc := if Truthy(meta.description) then Some(Shown(meta.description)) else None;
            Page(Article(banner, meta.date, Shown(meta.title), desc, StripFrontmatter(md)), title, asked + [url])
  }

  /** The page tells the reader when no entry has the requested id, and
      then fetches no article source and keeps the document title. */
  lemma UnknownIdNotFound(id: string, list: seq<ArticleMeta>, config: SiteConfig,
                          source: string -> Result<string, string>)
    requires id != ""
    requires forall i :: 0 <= i < |list| ==> !IdIs(list[i], id)
    ensures ViewArticle(Some(id), Success(list), Success(config), source)
            == Page(Message(LoadingMsg(NotFoundText(id))), None, [ArticlesUrl, ConfigUrl])
  {
  }

  /** An entry whose id is a number or a boolean is never shown, whatever
      the query asks for: `===` between it and the query string fails, so
      a shown article is another entry, one whose id is that very string. */
  lemma NonStringIdNeverShown(id: string, list: seq<ArticleMeta>, config: SiteConfig,
                              source: string -> Result<string, string>, k: nat)
    requires k < |list| && list[k].id.Other?
    ensures var p := ViewArticle(Some(id), Success(list), Success(config), source);
            p.screen.Article? ==>
              var j := Catalog.FindById(list, id);
              && j.Some? && j.value != k && list[j.value].id == Str(id)
              && p.fetched == [ArticlesUrl, ConfigUrl, "./articles/" + list[j.value].filename]
              && p.screen.heading == Shown(list[j.value].title)
  {
  }

  /** A banner is shown exactly when the entry has a thumbnail JavaScript
      counts as true, and a description exactly when its description is
      true in the same sense; each is shown as its text. */
  lemma OptionalParts(id: string, list: seq<ArticleMeta>, config: SiteConfig,
                      source: string -> Result<string, string>, k: nat)
    requires k < |list| && IdIs(list[k], id) && id != ""
    requires forall i :: 0 <= i < k ==> !IdIs(list[i], id)
    requires source("./articles/" + list[k].filename).Success?
    ensures var p := ViewArticle(Some(id), Success(list), Success(config), source);
            && p.screen.Article?
            && (p.screen.banner.Some? <==> list[k].thumbnail.Some? && Truthy(list[k].thumbnail.value))
            && (p.screen.banner.Some? ==> p.screen.banner.value == Shown(list[k].thumbnail.value))
            && (p.screen.description.Some? <==> Truthy(list[k].description))
            && (p.screen.description.Some? ==> p.screen.description.value == Shown(list[k].description))
            && p.screen.date == list[k].date
  {
    assert Catalog.FindById(list, id) == Some(k);
  }

  /** Viewing a new article listed in the catalog shows its heading and
      placeholder, under the title of the article and the site. */
  lemma NewArticleView(title: string, description: string, today: string,
                       list: seq<ArticleMeta>, config: SiteConfig,
                       source: string -> Result<string, string>, k: nat)
    requires '-' !in title && '-' !in description && '-' !in today
    requires k < |list| && Slug.Slugify(title) != "" && IdIs(list[k], Slug.Slugify(title))
    requires forall i :: 0 <= i < k ==> !IdIs(list[i], Slug.Slugify(title))
    requires source("./articles/" + list[k].filename)
             == Success(Skeleton.GenerateFrontmatter(title, description, today))
    ensures var p := ViewArticle(Some(Slug.Slugify(title)), Success(list), Success(config), source);
            && p.screen.Article?
            && p.screen.body == "\n" + Skeleton.SkeletonBody(title)
            && p.documentTitle == Some(Shown(list[k].title) + Dash + config.title)
  {
    SkeletonShowsBody(title, description, today);
    ShownArticle(Slug.Slugify(title), list, config, source, k);
  }

  /** The entry found is shown with the stripped source as body, under
      its title and the site title. */
  lemma ShownArticle(id: string, list: seq<ArticleMeta>, config: SiteConfig,
                     source: string -> Result<string, string>, k: nat)
    requires k < |list| && IdIs(list[k], id) && id != ""
    requires forall i :: 0 <= i < k ==> !IdIs(list[i], id)
    requires source("./articles/" + list[k].filename).Success?
    ensures var p := ViewArticle(Some(id), Success(list), Success(config), source);
            && p.screen.Article?
            && p.screen.body == StripFrontmatter(source("./articles/" + list[k].filename).value)
            && p.documentTitle == Some(Shown(list[k].title) + Dash + config.title)
  {
    assert Catalog.FindById(list, id) == Some(k);
  }
}
