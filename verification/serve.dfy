/**
 * The development server (src/commands/serve.ts): the JSON API the editor
 * talks to, and how every other request path is answered.
 *
 * The working tree is a `Site` value: the article directory, the uploads
 * directory (each `None` when missing) and the build output. What the
 * server takes from outside it (metadata parsing, image extraction, URI
 * decoding, the clock, the UUID source, the configuration, the installed
 * templates and the bundler's verdict) is an `Env` value.
 */
module Serve {
  import opened Wrappers
  import opened Text
  import opened Types
  import Catalog
  import Slug
  import Skeleton
  import Build

  // ---------------------------------------------------------------------
  // Requests, responses and the working tree
  // ---------------------------------------------------------------------

  datatype Method = Get | Put | Post | Delete | OtherMethod(name: string)

  /** A file sent in an upload form: its client-side name and its bytes. */
  datatype FilePart = FilePart(name: string, bytes: string)

  /** A request, with the parts of its body the handlers read: `content`
      of a save, `title` and `description` of a create, and the `file`
      field of an upload form. */
  datatype Request = Request(
    verb: Method,
    pathname: string,
    content: string,
    title: Option<string>,
    description: Option<string>,
    file: Option<FilePart>)

  /** The JSON bodies the API answers with. */
  datatype Body =
    | ArticleList(articles: seq<ArticleMeta>)  // the catalog
    | ArticleContent(content: string)          // {content}
    | Ok                                       // {ok: true}
    | Created(id: string)                      // {id}
    | Deleted(deletedImages: nat)              // {ok: true, deletedImages}
    | Uploaded(url: string)                    // {url}
    | Error(message: string)                   // {error}
    | BuildFailed(error: Build.BuildError)     // {error} with the build's message
    | Unhandled                                // an exception escapes the handler

  datatype Response = Response(status: nat, body: Body)

  const NotFound: Response := Response(404, Error("Not found"))

  datatype Site = Site(
    articles: Option<map<string, string>>,
    uploads: Option<map<string, string>>,
    dist: map<Build.OutPath, Build.Output>)

  datatype Env = Env(
    matter: string -> Option<Catalog.Meta>, // front matter of a file; None when it cannot be read
    extract: string -> seq<string>,         // the `/uploads/...` references in an article's text
    decode: string -> Option<string>,       // decodeURIComponent; None when it throws
    today: string,
    uuid: string,                           // the next crypto.randomUUID()
    config: SiteConfig,                     // the loaded site configuration
    install: Build.Install,
    bundled: bool)                          // whether the bundler succeeds

  function CatalogOf(site: Site, env: Env): (r: Option<seq<ArticleMeta>>)
    ensures r.Some? ==> site.articles.Some?
    ensures r.Some? ==> forall i :: 0 <= i < |r.value| ==> r.value[i].filename in site.articles.value
  {
    Catalog.BuildArticleList(site.articles, env.matter, env.today)
  }

  // ---------------------------------------------------------------------
  // Routing
  // ---------------------------------------------------------------------

  /** The path segments after the API prefix. */
  function Segments(pathname: string): (segs: seq<string>)
    ensures |segs| >= 1
  {
    Split(ReplaceFirst(pathname, "/api/", ""), '/')
  }

  /** Under the API prefix the segments are those of the rest of the
      path. */
  lemma SegmentsOfApiPath(pathname: string)
    requires StartsWith(pathname, "/api/")
    ensures Segments(pathname) == Split(pathname[5..], '/')
    ensures Join(Segments(pathname), '/') == pathname[5..]
  {
    ReplaceFirstPrefix(pathname, "/api/");
  }

  /** `handleApiRequest`: the route is chosen by the first segment, the
      method and the number of segments; everything else is not found. */
  function HandleApi(req: Request, site: Site, env: Env): (r: (Response, Site))
    ensures r.0.status in {200, 400, 404, 500}
    ensures !IsRoute(req.verb, Segments(req.pathname)) ==> r == (NotFound, site)
    ensures req.verb !in {Put, Post, Delete} ==> r.1 == site
    ensures r.1.articles != site.articles
            ==> Segments(req.pathname)[0] == "articles" && req.verb in {Put, Post, Delete}
    ensures r.1.uploads != site.uploads
            ==> || (Segments(req.pathname)[0] == "articles" && req.verb == Delete)
                || (Segments(req.pathname)[0] == "upload" && req.verb == Post)
    ensures r.1.dist != site.dist ==> Segments(req.pathname)[0] == "generate" && req.verb == Post
  {
    var segs := Segments(req.pathname);
    var resource := segs[0];
    if resource == "articles" && req.verb == Get && |segs| == 1 then
      (ListArticles(site, env), site)
    else if resource == "articles" && req.verb == Get && |segs| == 2 then
      (GetArticle(segs[1], site, env), site)
    else if resource == "articles" && req.verb == Put && |segs| == 2 then
      PutArticle(segs[1], req.content, site, env)
    else if resource == "articles" && req.verb == Post && |segs| == 1 then
      CreateArticle(req.title, req.description, site, env)
    else if resource == "articles" && req.verb == Delete && |segs| == 2 then
      DeleteArticle(segs[1], site, env)
    else if resource == "generate" && req.verb == Post then
      Generate(site, env)
    else if resource == "upload" && req.verb == Post then
      UploadFile(req.file, site, env)
    else
      (NotFound, site)
  }

  /** The routes the API accepts; every other request is answered 404
      and changes nothing. */
  predicate IsRoute(verb: Method, segs: seq<string>)
    requires |segs| >= 1
  {
    || (segs[0] == "articles" && |segs| == 1 && (verb == Get || verb == Post))
    || (segs[0] == "articles" && |segs| == 2 && (verb == Get || verb == Put || verb == Delete))
    || (segs[0] == "generate" && verb == Post)
    || (segs[0] == "upload" && verb == Post)
  }

  // ---------------------------------------------------------------------
  // Listing and reading
  // ---------------------------------------------------------------------

  /** GET /api/articles: the catalog, or an empty list when it cannot be
      built; never an error. */
  function ListArticles(site: Site, env: Env): (r: Response)
    ensures r.status == 200 && r.body.ArticleList?
    ensures CatalogOf(site, env).Some? ==> r.body.articles == CatalogOf(site, env).value
    ensures CatalogOf(site, env).None? ==> r.body.articles == []
  {
    Response(200, ArticleList(CatalogOf(site, env).GetOr([])))
  }

  /** The catalog entry an `:id` segment names: the first one whose id
      is the decoded segment, compared with `===`, or the response that
      ends the request. An entry whose front matter gives a number, a
      boolean or a date as id is never found. */
  datatype Hit = Hit(id: string, list: seq<ArticleMeta>, index: nat)

  function Target(seg: string, site: Site, env: Env): (r: Result<Hit, Response>)
    ensures r.Success? <==> (&& env.decode(seg).Some?
                             && CatalogOf(site, env).Some?
                             && Catalog.FindById(CatalogOf(site, env).value, env.decode(seg).value).Some?)
    ensures r.Success? ==> && r.value.id == env.decode(seg).value
                           && r.value.list == CatalogOf(site, env).value
                           && r.value.index < |r.value.list|
                           && IdIs(r.value.list[r.value.index], r.value.id)
                           && (forall i :: 0 <= i < r.value.index ==> !IdIs(r.value.list[i], r.value.id))
                           && (forall a :: a in r.value.list ==> a.filename in site.articles.value)
    ensures r.Failure? && env.decode(seg).Some? && CatalogOf(site, env).Some? ==> r.error == NotFound
    ensures r.Failure? && (env.decode(seg).None? || CatalogOf(site, env).None?)
            ==> r.error == Response(500, Unhandled)
  {
    match env.decode(seg)
    case None => Failure(Response(500, Unhandled))
    case Some(id) =>
      match CatalogOf(site, env)
      case None => Failure(Response(500, Unhandled))
      case Some(list) =>
        match Catalog.FindById(list, id)
        case None => Failure(NotFound)
        case Some(k) => Success(Hit(id, list, k))
  }

  /** GET /api/articles/:id: the raw text of the first article with that
      id. */
  function GetArticle(seg: string, site: Site, env: Env): (r: Response)
    ensures Target(seg, site, env).Failure? ==> r == Target(seg, site, env).error
    ensures Target(seg, site, env).Success? ==>
              var h := Target(seg, site, env).value;
              r == Response(200, ArticleContent(site.articles.value[h.list[h.index].filename]))
    ensures r.status in {200, 404, 500}
  {
    match Target(seg, site, env)
    case Failure(e) => e
    case Success(h) => Response(200, ArticleContent(site.articles.value[h.list[h.index].filename]))
  }

  /** PUT /api/articles/:id: the first article with that id is replaced by
      the content exactly as sent. */
  function PutArticle(seg: string, content: string, site: Site, env: Env): (r: (Response, Site))
    ensures Target(seg, site, env).Failure? ==> r == (Target(seg, site, env).error, site)
    ensures Target(seg, site, env).Success? ==>
              var h := Target(seg, site, env).value;
              var f := h.list[h.index].filename;
              && r.0 == Response(200, Ok)
              && r.1 == site.(articles := Some(site.articles.value[f := content]))
    ensures r.0.status in {200, 404, 500}
    ensures r.1.uploads == site.uploads && r.1.dist == site.dist
  {
    match Target(seg, site, env)
    case Failure(e) => (e, site)
    case Success(h) =>
      var f := h.list[h.index].filename;
      (Response(200, Ok), site.(articles := Some(site.articles.value[f := content])))
  }

  /** Saving text whose front matter reads the same as before and then
      reading the article back gives exactly the saved text. */
  lemma PutThenGet(seg: string, content: string, site: Site, env: Env)
    requires Target(seg, site, env).Success?
    requires var h := Target(seg, site, env).value;
             env.matter(content) == env.matter(site.articles.value[h.list[h.index].filename])
    ensures var after := PutArticle(seg, content, site, env).1;
            GetArticle(seg, after, env) == Response(200, ArticleContent(content))
  {
    var h := Target(seg, site, env).value;
    var f := h.list[h.index].filename;
    var dir := site.articles.value;
    var after := PutArticle(seg, content, site, env).1;
    SameMetadataSameCatalog(dir, f, content, env.matter, env.today);
    assert CatalogOf(after, env) == CatalogOf(site, env);
  }

  /** Replacing a file's text by text with the same front matter leaves the
      catalog as it was. */
  lemma SameMetadataSameCatalog(dir: map<string, string>, f: string, content: string,
                                matter: string -> Option<Catalog.Meta>, today: string)
    requires f in dir && matter(content) == matter(dir[f])
    ensures Catalog.BuildArticleList(Some(dir[f := content]), matter, today)
            == Catalog.BuildArticleList(Some(dir), matter, today)
  {
    var dir2 := dir[f := content];
    assert dir2.Keys == dir.Keys;
    var names := Catalog.ListFiles(dir);
    assert Catalog.ListFiles(dir2) == names by {
      assert (set n | n in dir2 && Catalog.IsListed(n)) == (set n | n in dir && Catalog.IsListed(n));
    }
    forall n | n in names ensures matter(dir2[n]) == matter(dir[n]) {
    }
    ParseAllSameMetadata(names, dir, dir2, matter, today);
  }

  lemma {:induction false} ParseAllSameMetadata(names: seq<string>, dir: map<string, string>,
                                                dir2: map<string, string>,
                                                matter: string -> Option<Catalog.Meta>, today: string)
    requires forall n :: n in names ==> n in dir && n in dir2 && matter(dir2[n]) == matter(dir[n])
    ensures Catalog.ParseAll(names, dir2, matter, today) == Catalog.ParseAll(names, dir, matter, today)
    decreases |names|
  {
    if |names| > 0 {
      assert names[0] in names;
      ParseAllSameMetadata(names[1..], dir, dir2, matter, today);
    }
  }

  // ---------------------------------------------------------------------
  // Creating
  // ---------------------------------------------------------------------

  /** POST /api/articles: a missing or empty title is refused; otherwise
      the skeleton is written to the title's slug with `.md`, over any file
      already there, and the slug is answered. */
  function CreateArticle(title: Option<string>, description: Option<string>, site: Site, env: Env)
    : (r: (Response, Site))
    ensures (title.None? || title == Some("")) ==> r == (Response(400, Error("title required")), site)
    ensures title.Some? && title.value != "" ==>
              var id := Slug.Slugify(title.value);
              && r.0 == Response(200, Created(id))
              && r.1.uploads == site.uploads && r.1.dist == site.dist
              && r.1.articles.Some?
              && r.1.articles.value == site.articles.GetOr(map[])[id + ".md" :=
                   Skeleton.GenerateFrontmatter(title.value, description.GetOr(""), env.today)]
    ensures r.0.status in {200, 400}
    ensures r.1.uploads == site.uploads && r.1.dist == site.dist
  {
    if title.None? || title.value == "" then
      (Response(400, Error("title required")), site)
    else
      var t := title.value;
      var id := Slug.Slugify(t);
      var dir := site.articles.GetOr(map[]);
      var text := Skeleton.GenerateFrontmatter(t, description.GetOr(""), env.today);
      (Response(200, Created(id)), site.(articles := Some(dir[id + ".md" := text])))
  }

  /** The created file is written under the answered id with `.md`; the
      catalog lists it exactly when that id is not empty (a title without
      a letter or digit gives the hidden file `.md`, which the glob skips);
      every other article file is left as it was. */
  lemma CreatedIsListed(title: string, description: Option<string>, site: Site, env: Env)
    requires title != ""
    ensures var r := CreateArticle(Some(title), description, site, env);
            var id := r.0.body.id;
            var dir := r.1.articles.value;
            && id + ".md" in dir
            && (id + ".md" in Catalog.ListFiles(dir) <==> id != "")
            && (id != "" ==> Catalog.Stem(id + ".md") == id)
            && (forall n :: n in site.articles.GetOr(map[]) && n != id + ".md"
                  ==> n in dir && dir[n] == site.articles.GetOr(map[])[n])
  {
    var id := Slug.Slugify(title);
    var dir := CreateArticle(Some(title), description, site, env).1.articles.value;
    assert id + ".md" in dir;
    if id == "" {
      Catalog.HiddenFileUnlisted(id + ".md");
    } else {
      Catalog.SlugFileListed(id);
    }
  }

  // ---------------------------------------------------------------------
  // Deleting
  // ---------------------------------------------------------------------

  /** The entries of a list other than those in file `f`. */
  function ExceptFile(list: seq<ArticleMeta>, f: string): (r: seq<ArticleMeta>)
    ensures forall a :: a in r <==> a in list && a.filename != f
  {
    if |list| == 0 then []
    else (if list[0].filename != f then [list[0]] else []) + ExceptFile(list[1..], f)
  }

  /** `list.filter((a) => a.id !== id)` for an id taken from a URL. */
  function ExceptId(list: seq<ArticleMeta>, id: string): (r: seq<ArticleMeta>)
    ensures forall a :: a in r <==> a in list && !IdIs(a, id)
  {
    if |list| == 0 then []
    else (if !IdIs(list[0], id) then [list[0]] else []) + ExceptId(list[1..], id)
  }

  /** Every upload reference in the files of `others`. */
  function UsedBy(others: seq<ArticleMeta>, dir: map<string, string>, extract: string -> seq<string>)
    : (r: set<string>)
    requires forall a :: a in others ==> a.filename in dir
    ensures forall p :: p in r <==> exists a :: a in others && p in extract(dir[a.filename])
  {
    if |others| == 0 then {}
    else
      assert others[0] in others;
      assert forall a :: a in others[1..] ==> a in others;
      var rest := UsedBy(others[1..], dir, extract);
      assert forall a :: a in others ==> a == others[0] || a in others[1..];
      (set p | p in extract(dir[others[0].filename])) + rest
  }

  /** `refs.filter(p => !used.has(p))`: repeats are kept. */
  function KeepUnused(refs: seq<string>, used: set<string>): (r: seq<string>)
    ensures forall p :: multiset(r)[p] == if p in used then 0 else multiset(refs)[p]
    ensures forall p :: p in r ==> p in refs
    ensures |r| <= |refs|
  {
    if |refs| == 0 then []
    else
      assert refs == [refs[0]] + refs[1..];
      (if refs[0] in used then [] else [refs[0]]) + KeepUnused(refs[1..], used)
  }

  /** The orphan list as the handler computes it when deleting entry `k`,
      found under `id`: the references of its file that no entry with a
      different id mentions. An article sharing the deleted one's id does
      not protect its images. */
  function OrphansAsWritten(list: seq<ArticleMeta>, k: nat, id: string, dir: map<string, string>,
                            extract: string -> seq<string>): (r: seq<string>)
    requires k < |list| && forall a :: a in list ==> a.filename in dir
    ensures forall p :: p in r ==> p in extract(dir[list[k].filename])
    ensures |r| <= |extract(dir[list[k].filename])|
  {
    var f := list[k].filename;
    KeepUnused(extract(dir[f]), UsedBy(ExceptId(list, id), dir, extract))
  }

  /** The orphan list the comment before it describes: the references of
      the deleted file that no other article file mentions. */
  function Orphans(list: seq<ArticleMeta>, k: nat, dir: map<string, string>,
                   extract: string -> seq<string>): (r: seq<string>)
    requires k < |list| && forall a :: a in list ==> a.filename in dir
    ensures forall p :: p in r ==> p in extract(dir[list[k].filename])
    ensures |r| <= |extract(dir[list[k].filename])|
  {
    var f := list[k].filename;
    KeepUnused(extract(dir[f]), UsedBy(ExceptFile(list, f), dir, extract))
  }

  /** As written, a reference some entry with a different id holds is
      never an orphan; a reference no such entry holds is one, as often as
      the deleted file mentions it. */
  lemma OrphansAsWrittenExact(list: seq<ArticleMeta>, k: nat, id: string, dir: map<string, string>,
                              extract: string -> seq<string>, p: string)
    requires k < |list| && forall a :: a in list ==> a.filename in dir
    ensures var orphans := OrphansAsWritten(list, k, id, dir, extract);
            var f := list[k].filename;
            && ((exists a :: a in list && !IdIs(a, id) && p in extract(dir[a.filename]))
                  ==> p !in orphans)
            && ((forall a :: a in list && !IdIs(a, id) ==> p !in extract(dir[a.filename]))
                  ==> multiset(orphans)[p] == multiset(extract(dir[f]))[p])
  {
    var orphans := OrphansAsWritten(list, k, id, dir, extract);
    if p in orphans {
      assert multiset(orphans)[p] > 0;
    }
  }

  /** With the corrected list, a reference kept by any other article file
      is never an orphan; a reference of the deleted file that no other
      file holds is one, as often as the deleted file mentions it. */
  lemma OrphansExact(list: seq<ArticleMeta>, k: nat, dir: map<string, string>,
                     extract: string -> seq<string>, p: string)
    requires k < |list| && forall a :: a in list ==> a.filename in dir
    ensures var orphans := Orphans(list, k, dir, extract);
            var f := list[k].filename;
            && ((exists a :: a in list && a.filename != f && p in extract(dir[a.filename]))
                  ==> p !in orphans)
            && ((forall a :: a in list && a.filename != f ==> p !in extract(dir[a.filename]))
                  ==> multiset(orphans)[p] == multiset(extract(dir[f]))[p])
  {
    var orphans := Orphans(list, k, dir, extract);
    if p in orphans {
      assert multiset(orphans)[p] > 0;
    }
  }

  /** As written, an image the deleted article shares with another file
      carrying the same id is deleted although that file still uses it;
      the corrected list keeps it. */
  lemma {:induction false} SharedIdLosesImage(list: seq<ArticleMeta>, k: nat, j: nat, id: string,
                                              dir: map<string, string>,
                                              extract: string -> seq<string>, p: string)
    requires k < |list| && j < |list| && forall a :: a in list ==> a.filename in dir
    requires IdIs(list[k], id) && IdIs(list[j], id) && list[j].filename != list[k].filename
    requires p in extract(dir[list[k].filename]) && p in extract(dir[list[j].filename])
    requires forall a :: a in list && !IdIs(a, id) ==> p !in extract(dir[a.filename])
    ensures p in OrphansAsWritten(list, k, id, dir, extract)
    ensures p !in Orphans(list, k, dir, extract)
  {
    var f := list[k].filename;
    var refs := extract(dir[f]);
    var asWritten := OrphansAsWritten(list, k, id, dir, extract);
    assert p !in UsedBy(ExceptId(list, id), dir, extract);
    assert multiset(refs)[p] > 0;
    assert multiset(asWritten)[p] > 0;
    assert list[j] in list;
    assert p in UsedBy(ExceptFile(list, f), dir, extract);
  }

  /** The upload keys a list of `/uploads/...` references names. */
  function UploadKeys(paths: seq<string>): set<string> {
    set p | p in paths && StartsWith(p, "/uploads/") :: p[9..]
  }

  /** Two references under `/uploads/` naming the same key are the same
      reference. */
  lemma UploadKeyInjective(p: string, q: string)
    requires StartsWith(p, "/uploads/") && StartsWith(q, "/uploads/") && p[9..] == q[9..]
    ensures p == q
  {
    assert p == p[..9] + p[9..];
    assert q == q[..9] + q[9..];
  }

  /** Removing uploads ignores every error, a missing directory included. */
  function RemoveUploads(uploads: Option<map<string, string>>, paths: seq<string>)
    : (r: Option<map<string, string>>)
    ensures r.Some? <==> uploads.Some?
    ensures r.Some? ==> forall n :: n in r.value <==> n in uploads.value && n !in UploadKeys(paths)
    ensures r.Some? ==> forall n :: n in r.value ==> r.value[n] == uploads.value[n]
  {
    match uploads
    case None => None
    case Some(u) => Some(u - UploadKeys(paths))
  }

  /** An upload whose reference is not in the list survives the removal
      with the same bytes. */
  lemma UploadKept(uploads: map<string, string>, paths: seq<string>, p: string)
    requires StartsWith(p, "/uploads/") && p[9..] in uploads && p !in paths
    ensures var r := RemoveUploads(Some(uploads), paths);
            r.Some? && p[9..] in r.value && r.value[p[9..]] == uploads[p[9..]]
  {
    if p[9..] in UploadKeys(paths) {
      var q :| q in paths && StartsWith(q, "/uploads/") && q[9..] == p[9..];
      UploadKeyInjective(p, q);
    }
  }

  /** An upload whose reference is in the list is removed. */
  lemma UploadRemoved(uploads: map<string, string>, paths: seq<string>, p: string)
    requires StartsWith(p, "/uploads/") && p in paths
    ensures var r := RemoveUploads(Some(uploads), paths);
            r.Some? && p[9..] !in r.value
  {
    assert p[9..] in UploadKeys(paths);
  }

  /** The file of the entry found is removed first, then the uploads the
      orphan list names; the answer counts the list with its repeats. */
  function RemoveArticle(h: Hit, orphans: seq<string>, site: Site): (r: (Response, Site))
    requires h.index < |h.list| && site.articles.Some?
    ensures r.0 == Response(200, Deleted(|orphans|))
    ensures r.1.dist == site.dist
    ensures r.1.articles == Some(site.articles.value - {h.list[h.index].filename})
    ensures r.1.uploads == RemoveUploads(site.uploads, orphans)
  {
    (Response(200, Deleted(|orphans|)),
     site.(articles := Some(site.articles.value - {h.list[h.index].filename}),
           uploads := RemoveUploads(site.uploads, orphans)))
  }

  /** DELETE /api/articles/:id: the first article with that id is
      removed, then the images `OrphansAsWritten` names; the answer counts
      them with repeats. */
  function DeleteArticle(seg: string, site: Site, env: Env): (r: (Response, Site))
    ensures Target(seg, site, env).Failure? ==> r == (Target(seg, site, env).error, site)
    ensures Target(seg, site, env).Success? ==>
              var h := Target(seg, site, env).value;
              var orphans := OrphansAsWritten(h.list, h.index, h.id, site.articles.value, env.extract);
              && r.0 == Response(200, Deleted(|orphans|))
              && r.1.articles == Some(site.articles.value - {h.list[h.index].filename})
              && r.1.uploads == RemoveUploads(site.uploads, orphans)
              && r.1.dist == site.dist
    ensures r.0.status in {200, 404, 500}
    ensures r.1.dist == site.dist
  {
    match Target(seg, site, env)
    case Failure(e) => (e, site)
    case Success(h) =>
      RemoveArticle(h, OrphansAsWritten(h.list, h.index, h.id, site.articles.value, env.extract), site)
  }

  /** The delete the comment in the handler describes: the images removed
      are those no other article file uses (`Orphans`). */
  function DeleteArticleCorrected(seg: string, site: Site, env: Env): (r: (Response, Site))
    ensures Target(seg, site, env).Failure? ==> r == (Target(seg, site, env).error, site)
    ensures Target(seg, site, env).Success? ==>
              var h := Target(seg, site, env).value;
              var orphans := Orphans(h.list, h.index, site.articles.value, env.extract);
              && r.0 == Response(200, Deleted(|orphans|))
              && r.1.articles == Some(site.articles.value - {h.list[h.index].filename})
              && r.1.uploads == RemoveUploads(site.uploads, orphans)
              && r.1.dist == site.dist
  {
    match Target(seg, site, env)
    case Failure(e) => (e, site)
    case Success(h) => RemoveArticle(h, Orphans(h.list, h.index, site.articles.value, env.extract), site)
  }

  /** After a delete, the article's file is gone and every other article
      file is as it was. */
  lemma DeleteRemovesOnlyTheArticle(seg: string, site: Site, env: Env)
    requires Target(seg, site, env).Success?
    ensures var h := Target(seg, site, env).value;
            var after := DeleteArticle(seg, site, env).1;
            var f := h.list[h.index].filename;
            && after.articles.Some?
            && f !in after.articles.value
            && (forall n :: n in site.articles.value && n != f
                  ==> n in after.articles.value && after.articles.value[n] == site.articles.value[n])
            && after.dist == site.dist
  {
    var h := Target(seg, site, env).value;
    MapRemoveKeeps(site.articles.value, h.list[h.index].filename);
  }

  /** Removing one key keeps every other entry. */
  lemma MapRemoveKeeps(m: map<string, string>, f: string)
    ensures f !in m - {f}
    ensures forall n :: n in m && n != f ==> n in m - {f} && (m - {f})[n] == m[n]
  {
  }

  /** An upload that a catalog article with a different id refers to
      survives the delete with the same bytes. */
  lemma DeleteKeepsShared(seg: string, site: Site, env: Env, j: nat, p: string)
    requires Target(seg, site, env).Success?
    requires var h := Target(seg, site, env).value;
             && j < |h.list| && !IdIs(h.list[j], h.id)
             && p in env.extract(site.articles.value[h.list[j].filename])
    requires StartsWith(p, "/uploads/") && site.uploads.Some? && p[9..] in site.uploads.value
    ensures var after := DeleteArticle(seg, site, env).1;
            && after.uploads.Some?
            && p[9..] in after.uploads.value
            && after.uploads.value[p[9..]] == site.uploads.value[p[9..]]
  {
    var h := Target(seg, site, env).value;
    var dir := site.articles.value;
    assert h.list[j] in h.list;
    OrphansAsWrittenExact(h.list, h.index, h.id, dir, env.extract, p);
    UploadKept(site.uploads.value, OrphansAsWritten(h.list, h.index, h.id, dir, env.extract), p);
  }

  /** An upload of the deleted article that no entry with a different id
      refers to is removed. */
  lemma DeleteRemovesOrphan(seg: string, site: Site, env: Env, p: string)
    requires Target(seg, site, env).Success?
    requires var h := Target(seg, site, env).value;
             && p in env.extract(site.articles.value[h.list[h.index].filename])
             && forall a :: a in h.list && !IdIs(a, h.id) ==> p !in env.extract(site.articles.value[a.filename])
    requires StartsWith(p, "/uploads/") && site.uploads.Some?
    ensures var after := DeleteArticle(seg, site, env).1;
            after.uploads.Some? && p[9..] !in after.uploads.value
  {
    var h := Target(seg, site, env).value;
    var dir := site.articles.value;
    var orphans := OrphansAsWritten(h.list, h.index, h.id, dir, env.extract);
    OrphansAsWrittenExact(h.list, h.index, h.id, dir, env.extract, p);
    assert multiset(env.extract(dir[h.list[h.index].filename]))[p] > 0;
    assert p in orphans;
    UploadRemoved(site.uploads.value, orphans, p);
  }

  /** With the corrected orphan list, an upload that any other catalog
      file refers to survives the delete with the same bytes. */
  lemma DeleteCorrectedKeepsShared(seg: string, site: Site, env: Env, j: nat, p: string)
    requires Target(seg, site, env).Success?
    requires var h := Target(seg, site, env).value;
             && j < |h.list| && h.list[j].filename != h.list[h.index].filename
             && p in env.extract(site.articles.value[h.list[j].filename])
    requires StartsWith(p, "/uploads/") && site.uploads.Some? && p[9..] in site.uploads.value
    ensures var after := DeleteArticleCorrected(seg, site, env).1;
            && after.uploads.Some?
            && p[9..] in after.uploads.value
            && after.uploads.value[p[9..]] == site.uploads.value[p[9..]]
  {
    var h := Target(seg, site, env).value;
    var dir := site.articles.value;
    assert h.list[j] in h.list;
    OrphansExact(h.list, h.index, dir, env.extract, p);
    UploadKept(site.uploads.value, Orphans(h.list, h.index, dir, env.extract), p);
  }

  /** Two files with the id the request names that share an image: the
      handler as written deletes the image the remaining file still uses,
      and the corrected delete keeps it. */
  lemma SharedIdDeleteLosesImage(seg: string, site: Site, env: Env, j: nat, p: string)
    requires Target(seg, site, env).Success?
    requires var h := Target(seg, site, env).value;
             && j < |h.list| && IdIs(h.list[j], h.id) && h.list[j].filename != h.list[h.index].filename
             && p in env.extract(site.articles.value[h.list[h.index].filename])
             && p in env.extract(site.articles.value[h.list[j].filename])
             && forall a :: a in h.list && !IdIs(a, h.id) ==> p !in env.extract(site.articles.value[a.filename])
    requires StartsWith(p, "/uploads/") && site.uploads.Some? && p[9..] in site.uploads.value
    ensures p[9..] !in DeleteArticle(seg, site, env).1.uploads.value
    ensures p[9..] in DeleteArticleCorrected(seg, site, env).1.uploads.value
  {
    DeleteRemovesOrphan(seg, site, env, p);
    DeleteCorrectedKeepsShared(seg, site, env, j, p);
  }

  // ---------------------------------------------------------------------
  // Building and uploading
  // ---------------------------------------------------------------------

  /** POST /api/generate: the site is rebuilt into the output directory;
      a failed build answers 500 with its message and leaves the output as
      it was. */
  function Generate(site: Site, env: Env): (r: (Response, Site))
    ensures var b := Build.BuildSite(env.config, site.articles, site.uploads, env.matter, env.today,
                                     env.install, env.bundled, site.dist);
            && (b.Success? ==> r == (Response(200, Ok), site.(dist := b.value)))
            && (b.Failure? ==> r == (Response(500, BuildFailed(b.error)), site))
    ensures r.0.status in {200, 500}
    ensures r.1.articles == site.articles && r.1.uploads == site.uploads
  {
    match Build.BuildSite(env.config, site.articles, site.uploads, env.matter, env.today,
                          env.install, env.bundled, site.dist)
    case Success(d) => (Response(200, Ok), site.(dist := d))
    case Failure(e) => (Response(500, BuildFailed(e)), site)
  }

  /** The extension an upload keeps: empty for a name without a dot, else
      the lower-cased text from the last dot on. */
  function Extension(name: string): (ext: string)
    ensures '.' !in name ==> ext == ""
    ensures '.' in name ==> && |ext| >= 1 && ext[0] == '.' && '.' !in ext[1..]
                            && |ext| <= |name|
                            && ext == Lower(name[|name| - |ext|..])
    ensures forall i :: 0 <= i < |ext| ==> !IsAsciiUpper(ext[i])
  {
    match LastIndexOf(name, '.')
    case None => ""
    case Some(i) =>
      var tail := name[i..];
      assert tail[1..] == name[i + 1..];
      Lower(tail)
  }

  /** POST /api/upload: a form without a file is refused; otherwise the
      bytes are stored under a fresh name with the original extension and
      their URL is answered. */
  function UploadFile(file: Option<FilePart>, site: Site, env: Env): (r: (Response, Site))
    ensures file.None? ==> r == (Response(400, Error("No file provided")), site)
    ensures file.Some? ==>
              var name := env.uuid + Extension(file.value.name);
              && r.0 == Response(200, Uploaded("/uploads/" + name))
              && r.1.articles == site.articles && r.1.dist == site.dist
              && r.1.uploads == Some(site.uploads.GetOr(map[])[name := file.value.bytes])
    ensures r.0.status in {200, 400}
    ensures r.1.articles == site.articles && r.1.dist == site.dist
  {
    match file
    case None => (Response(400, Error("No file provided")), site)
    case Some(part) =>
      var name := env.uuid + Extension(part.name);
      (Response(200, Uploaded("/uploads/" + name)),
       site.(uploads := Some(site.uploads.GetOr(map[])[name := part.bytes])))
  }

  // ---------------------------------------------------------------------
  // Every request path
  // ---------------------------------------------------------------------

  /** What the server answers outside the API. */
  datatype Reply =
    | Api(response: Response)
    | EditorPage                          // the editor's HTML shell
    | EditorScript(bundle: Option<Build.Output>) // the editor bundle from the output directory
    | LiveFile(text: string)              // a file of the working tree
    | Static(file: Build.Output)          // a file of the build output
    | NotFoundText                        // plain-text 404 "Not Found"

  /** `serveStaticFile`: a path of the build output, with one leading
      slash dropped; anything not in the output is not found. */
  function ServeStatic(path: string, dist: map<Build.OutPath, Build.Output>): (r: Reply)
    ensures r.Static? || r == NotFoundText
  {
    var rel := if StartsWith(path, "/") then Drop1(path) else path;
    match Build.ParsePath(rel)
    case Some(op) => if op in dist then Static(dist[op]) else NotFoundText
    case None => NotFoundText
  }

  /** The server's `fetch`: the editor bundle, the editor, the API, live
      uploads and article sources, and otherwise the build output with `/`
      standing for `index.html`. */
  function Fetch(req: Request, site: Site, env: Env): (r: (Reply, Site))
    ensures r.0.Api? <==> StartsWith(req.pathname, "/api/")
    ensures !r.0.Api? ==> r.1 == site
  {
    var p := req.pathname;
    Build.NotPrefixAt("/editor", "/api/", 1);
    Build.NotPrefixAt("/editor/", "/api/", 1);
    Build.NotPrefixAt("/editor-bundle.js", "/api/", 1);
    if p == "/editor-bundle.js" then
      (EditorScript(if Build.EditorBundle in site.dist then Some(site.dist[Build.EditorBundle]) else None), site)
    else if p == "/editor" || p == "/editor/" then
      (EditorPage, site)
    else if StartsWith(p, "/api/") then
      var (resp, after) := HandleApi(req, site, env);
      (Api(resp), after)
    else if StartsWith(p, "/uploads/") && site.uploads.Some? && p[9..] in site.uploads.value then
      (LiveFile(site.uploads.value[p[9..]]), site)
    else if StartsWith(p, "/articles/") && EndsWith(p, ".md")
            && site.articles.Some? && p[10..] in site.articles.value then
      (LiveFile(site.articles.value[p[10..]]), site)
    else
      (ServeStatic(if p == "/" then "index.html" else Drop1(p), site.dist), site)
  }

  /** An uploaded file is served back, byte for byte, at the URL the
      upload answered. */
  lemma UploadThenFetch(part: FilePart, site: Site, env: Env, req: Request)
    requires req.pathname == UploadFile(Some(part), site, env).0.body.url
    ensures var after := UploadFile(Some(part), site, env).1;
            Fetch(req, after, env) == (LiveFile(part.bytes), after)
  {
    var name := env.uuid + Extension(part.name);
    var after := UploadFile(Some(part), site, env).1;
    assert req.pathname == "/uploads/" + name;
    assert after.uploads == Some(site.uploads.GetOr(map[])[name := part.bytes]);
    FetchUpload(req, after, env, name);
  }

  /** A stored upload is served at `/uploads/` followed by its name. */
  lemma FetchUpload(req: Request, site: Site, env: Env, name: string)
    requires req.pathname == "/uploads/" + name
    requires site.uploads.Some? && name in site.uploads.value
    ensures Fetch(req, site, env) == (LiveFile(site.uploads.value[name]), site)
  {
    var p := req.pathname;
    assert p[..9] == "/uploads/" && p[9..] == name;
    Build.NotPrefixAt(p, "/api/", 1);
  }

  /** Outside the API and the live tree, the path of a build output file
      serves that file, and a missing one a plain-text 404. The editor
      bundle, uploads and article sources are served by the routes before
      it. */
  lemma ServedFromDist(op: Build.OutPath, req: Request, site: Site, env: Env)
    requires !op.Upload? && !op.Source? && !op.EditorBundle?
    requires req.pathname == "/" + Build.PathText(op)
    ensures Fetch(req, site, env)
            == (if op in site.dist then Static(site.dist[op]) else NotFoundText, site)
  {
    var s := req.pathname;
    var rel := Build.PathText(op);
    assert Drop1(s) == rel;
    assert s != "/editor-bundle.js" && s != "/editor" && s != "/editor/" && s != "/"
           && !StartsWith(s, "/api/") && !StartsWith(s, "/uploads/") && !StartsWith(s, "/articles/") by {
      OutsideLiveRoutes(op);
    }
    assert ServeStatic(rel, site.dist) == if op in site.dist then Static(site.dist[op]) else NotFoundText by {
      Build.ParsePathText(op);
      Build.NotPrefixAt(rel, "/", 0);
    }
  }

  /** `/` serves the built `index.html`. */
  lemma RootIsIndex(req: Request, site: Site, env: Env)
    requires req.pathname == "/"
    ensures Fetch(req, site, env)
            == (if Build.IndexPage in site.dist then Static(site.dist[Build.IndexPage]) else NotFoundText, site)
  {
    Build.ParsePathText(Build.IndexPage);
    Build.NotPrefixAt("index.html", "/", 0);
  }

  /** `/editor` and `/editor/` answer the editor page, whatever the
      output directory holds. */
  lemma EditorRoutes(req: Request, site: Site, env: Env)
    requires req.pathname == "/editor" || req.pathname == "/editor/"
    ensures Fetch(req, site, env) == (EditorPage, site)
  {
  }

  /** A Markdown file of the live article tree is served before the built
      copy of it, whatever the output directory holds. */
  lemma LiveSourceFirst(f: string, req: Request, site: Site, env: Env)
    requires req.pathname == "/articles/" + f && EndsWith(f, ".md")
    requires site.articles.Some? && f in site.articles.value
    ensures Fetch(req, site, env) == (LiveFile(site.articles.value[f]), site)
  {
    var p := req.pathname;
    assert p[..10] == "/articles/" && p[10..] == f;
    assert p[|p| - 3..] == f[|f| - 3..];
    Build.NotPrefixAt(p, "/api/", 2);
    Build.NotPrefixAt(p, "/uploads/", 1);
  }

  /** An upload or article path the live tree does not answer falls back
      to the build output: the stored copy, or a plain-text 404. */
  lemma LiveMissFallsBack(op: Build.OutPath, req: Request, site: Site, env: Env)
    requires op.Upload? || op.Source?
    requires req.pathname == "/" + Build.PathText(op)
    requires op.Upload? ==> site.uploads.None? || op.name !in site.uploads.value
    requires op.Source? ==> !EndsWith(req.pathname, ".md") || site.articles.None?
                            || op.filename !in site.articles.value
    ensures Fetch(req, site, env)
            == (if op in site.dist then Static(site.dist[op]) else NotFoundText, site)
  {
    match op
    case Upload(n) => UploadMiss(n, req, site, env);
    case Source(f) => SourceMiss(f, req, site, env);
  }

  lemma UploadMiss(name: string, req: Request, site: Site, env: Env)
    requires req.pathname == "/" + Build.PathText(Build.Upload(name))
    requires site.uploads.None? || name !in site.uploads.value
    ensures var op := Build.Upload(name);
            Fetch(req, site, env) == (if op in site.dist then Static(site.dist[op]) else NotFoundText, site)
  {
    assert req.pathname == "/uploads/" + name;
    UploadPath(name);
    StaticOf(Build.Upload(name), req.pathname, site.dist);
  }

  lemma SourceMiss(f: string, req: Request, site: Site, env: Env)
    requires req.pathname == "/" + Build.PathText(Build.Source(f))
    requires !EndsWith(req.pathname, ".md") || site.articles.None? || f !in site.articles.value
    ensures var op := Build.Source(f);
            Fetch(req, site, env) == (if op in site.dist then Static(site.dist[op]) else NotFoundText, site)
  {
    assert req.pathname == "/articles/" + f;
    SourcePath(f);
    StaticOf(Build.Source(f), req.pathname, site.dist);
  }

  /** Which routes of `fetch` an upload's path meets. */
  lemma UploadPath(name: string)
    ensures var s := "/uploads/" + name;
            && s != "/editor-bundle.js" && s != "/editor" && s != "/editor/" && s != "/"
            && !StartsWith(s, "/api/") && StartsWith(s, "/uploads/") && s[9..] == name
            && !StartsWith(s, "/articles/")
  {
    var s := "/uploads/" + name;
    assert s[..9] == "/uploads/" && s[9..] == name;
    Build.NotPrefixAt(s, "/api/", 1);
    Build.NotPrefixAt(s, "/articles/", 1);
  }

  /** Which routes of `fetch` an article source's path meets. */
  lemma SourcePath(f: string)
    ensures var s := "/articles/" + f;
            && s != "/editor-bundle.js" && s != "/editor" && s != "/editor/" && s != "/"
            && !StartsWith(s, "/api/") && !StartsWith(s, "/uploads/")
            && StartsWith(s, "/articles/") && s[10..] == f
  {
    var s := "/articles/" + f;
    assert s[..10] == "/articles/" && s[10..] == f;
    Build.NotPrefixAt(s, "/api/", 2);
    Build.NotPrefixAt(s, "/uploads/", 1);
  }

  /** The path of a build output, with its leading slash, serves that
      output from the output directory. */
  lemma StaticOf(op: Build.OutPath, s: string, dist: map<Build.OutPath, Build.Output>)
    requires s == "/" + Build.PathText(op)
    ensures ServeStatic(Drop1(s), dist) == if op in dist then Static(dist[op]) else NotFoundText
  {
    var rel := Build.PathText(op);
    assert Drop1(s) == rel;
    Build.ParsePathText(op);
    Build.NotPrefixAt(rel, "/", 0);
  }

  lemma OutsideLiveRoutes(op: Build.OutPath)
    requires !op.Upload? && !op.Source? && !op.EditorBundle?
    ensures var s := "/" + Build.PathText(op);
            && |s| > 1 && s[1] != 'e' && s[1] != '/'
            && !StartsWith(s, "/api/") && !StartsWith(s, "/uploads/") && !StartsWith(s, "/articles/")
  {
    var s := "/" + Build.PathText(op);
    match op
    case IndexPage =>
      Build.NotPrefixAt(s, "/api/", 1);
      Build.NotPrefixAt(s, "/uploads/", 1);
      Build.NotPrefixAt(s, "/articles/", 1);
    case ArticlePage =>
      Build.NotPrefixAt(s, "/api/", 2);
      Build.NotPrefixAt(s, "/uploads/", 1);
      Build.NotPrefixAt(s, "/articles/", 8);
    case CatalogFile =>
      Build.NotPrefixAt(s, "/api/", 2);
      Build.NotPrefixAt(s, "/uploads/", 1);
      Build.NotPrefixAt(s, "/articles/", 9);
    case ConfigFile =>
      Build.NotPrefixAt(s, "/api/", 1);
      Build.NotPrefixAt(s, "/uploads/", 1);
      Build.NotPrefixAt(s, "/articles/", 1);
    case Stylesheet(_) =>
      assert s[1] == 't';
      Build.NotPrefixAt(s, "/api/", 1);
      Build.NotPrefixAt(s, "/uploads/", 1);
      Build.NotPrefixAt(s, "/articles/", 1);
    case Script(_) =>
      assert s[1] == 'j';
      Build.NotPrefixAt(s, "/api/", 1);
      Build.NotPrefixAt(s, "/uploads/", 1);
      Build.NotPrefixAt(s, "/articles/", 1);
  }
}
