/**
 * The site builder (src/lib/build.ts): placeholder substitution in the
 * page templates, and the files one build writes to the output directory.
 *
 * The bundler is not part of this model: whether it succeeds is the
 * parameter `bundled`, and the two scripts it writes on success,
 * `js/index.js` and `js/article.js`, hold code given with the installed
 * templates and stylesheets as an `Install` value.
 */
module Build {
  import opened Wrappers
  import opened Text
  import opened Types
  import Catalog

  // ---------------------------------------------------------------------
  // Placeholders
  // ---------------------------------------------------------------------

  /** The text `{{KEY}}` a template uses for a value. */
  function Placeholder(key: string): (r: string)
    ensures |r| == |key| + 4
  {
    "{{" + key + "}}"
  }

  /** The replacement map of `buildSite`, in insertion order. */
  function Replacements(config: SiteConfig): seq<(string, string)> {
    [("SITE_TITLE", config.title), ("SITE_DESCRIPTION", config.description),
     ("THEME", config.theme.Name())]
  }

  /** `processHtml` with every value inserted literally: each key in turn
      has all its placeholders replaced, so a placeholder that an earlier
      value brings in is replaced by a later key. A template holding none
      of the placeholders is left as it is, including any other `{{...}}`
      text. */
  function ProcessHtml(html: string, reps: seq<(string, string)>): (r: string)
    ensures (forall i :: 0 <= i < |reps| ==> !Occurs(html, Placeholder(reps[i].0))) ==> r == html
    decreases |reps|
  {
    if |reps| == 0 then html
    else
      var p := Placeholder(reps[0].0);
      var next := ReplaceAll(html, p, reps[0].1);
      assert forall i :: 0 <= i < |reps[1..]| ==> reps[1..][i] == reps[i + 1];
      if !Occurs(html, p) then
        ReplaceAllAbsent(html, p, reps[0].1);
        ProcessHtml(next, reps[1..])
      else
        ProcessHtml(next, reps[1..])
  }

  /** `processHtml` as written: `String.prototype.replaceAll` with a string
      replacement, which expands `$$`, `$&`, `` $` `` and `$'` in the
      value. Values without `$` are inserted literally. */
  function ProcessHtmlAsWritten(html: string, reps: seq<(string, string)>): (r: string)
    ensures (forall i :: 0 <= i < |reps| ==> '$' !in reps[i].1) ==> r == ProcessHtml(html, reps)
    decreases |reps|
  {
    if |reps| == 0 then html
    else
      var p := Placeholder(reps[0].0);
      var next := JsReplaceAll(html, p, reps[0].1);
      assert forall i :: 0 <= i < |reps[1..]| ==> reps[1..][i] == reps[i + 1];
      if '$' !in reps[0].1 then
        JsReplaceAllLiteral(html, p, reps[0].1);
        ProcessHtmlAsWritten(next, reps[1..])
      else
        ProcessHtmlAsWritten(next, reps[1..])
  }

  /** The whole text equal to the pattern becomes the value. */
  lemma ReplaceWhole(pat: string, v: string)
    requires |pat| > 0
    ensures ReplaceAll(pat, pat, v) == v
  {
    assert pat[..|pat|] == pat;
    assert pat[|pat|..] == [];
  }

  /** A text shorter than the pattern is left as it is. */
  lemma ReplaceShort(s: string, pat: string, v: string)
    requires |s| < |pat|
    ensures ReplaceAll(s, pat, v) == s
    ensures JsReplaceAll(s, pat, v) == s
  {
    assert s[0..] == s;
  }

  /** A theme name holds no `$`. */
  lemma ThemeNameNoDollar(t: Theme)
    ensures '$' !in t.Name()
  {
  }

  /** With a title and description free of `$`, the pages as written are
      the templates with every value inserted literally. */
  lemma PagesWithoutDollar(config: SiteConfig, html: string)
    requires '$' !in config.title && '$' !in config.description
    ensures ProcessHtmlAsWritten(html, Replacements(config)) == ProcessHtml(html, Replacements(config))
  {
    ThemeNameNoDollar(config.theme);
  }

  /** A site title that is itself a placeholder is filled in by a later
      step: a title `{{THEME}}` shows the theme's name, inserted literally
      and, when the description holds no `$`, as written. */
  lemma LaterStepFillsEarlierValue(config: SiteConfig)
    requires config.title == Placeholder("THEME")
    ensures ProcessHtml(Placeholder("SITE_TITLE"), Replacements(config)) == config.theme.Name()
    ensures '$' !in config.description
            ==> ProcessHtmlAsWritten(Placeholder("SITE_TITLE"), Replacements(config)) == config.theme.Name()
  {
    if '$' !in config.description {
      assert '$' !in config.title;
      PagesWithoutDollar(config, Placeholder("SITE_TITLE"));
    }
    var reps := Replacements(config);
    var t := Placeholder("SITE_TITLE");
    var step1 := ReplaceAll(t, t, config.title);
    assert ProcessHtml(t, reps) == ProcessHtml(step1, reps[1..]);
    assert step1 == Placeholder("THEME") by {
      ReplaceWhole(t, config.title);
    }
    var step2 := ReplaceAll(step1, Placeholder("SITE_DESCRIPTION"), config.description);
    assert step2 == step1 by {
      ReplaceShort(step1, Placeholder("SITE_DESCRIPTION"), config.description);
    }
    assert ProcessHtml(step1, reps[1..]) == ProcessHtml(step2, reps[1..][1..]);
    var step3 := ReplaceAll(step2, Placeholder("THEME"), config.theme.Name());
    assert step3 == config.theme.Name() by {
      ReplaceWhole(Placeholder("THEME"), config.theme.Name());
    }
    assert ProcessHtml(step2, reps[1..][1..]) == ProcessHtml(step3, reps[1..][1..][1..]);
    assert reps[1..][1..][1..] == [];
  }

  /** With the title `$$`, the page as written shows `$` where the title
      belongs; inserted literally it shows `$$`. */
  lemma DollarTitleAltered()
    ensures var config := SiteConfig("$$", Tech, "");
            && ProcessHtmlAsWritten(Placeholder("SITE_TITLE"), Replacements(config)) == "$"
            && ProcessHtml(Placeholder("SITE_TITLE"), Replacements(config)) == "$$"
  {
    var config := SiteConfig("$$", Tech, "");
    var reps := Replacements(config);
    var t := Placeholder("SITE_TITLE");
    assert reps[1..][1..][1..] == [];
    assert JsReplaceAll(t, t, "$$") == "$" by {
      assert t[0..|t|] == t;
      assert t[..0] == [] && t[|t|..] == [];
      assert Substitute("$$", t, [], []) == "$" + Substitute("", t, [], []);
      assert t[|t|..] == [];
    }
    ReplaceShort("$", Placeholder("SITE_DESCRIPTION"), "");
    ReplaceShort("$", Placeholder("THEME"), "tech");
    ReplaceWhole(t, "$$");
    ReplaceShort("$$", Placeholder("SITE_DESCRIPTION"), "");
    ReplaceShort("$$", Placeholder("THEME"), "tech");
  }

  // ---------------------------------------------------------------------
  // The output directory
  // ---------------------------------------------------------------------

  /** A path in the output directory. */
  datatype OutPath =
    | IndexPage                  // index.html
    | ArticlePage                // article.html
    | Stylesheet(theme: Theme)   // themes/<name>.css
    | ConfigFile                 // config.json
    | CatalogFile                // articles.json
    | Upload(name: string)       // uploads/<name>
    | Source(filename: string)   // articles/<filename>
    | Script(name: string)       // js/<name>, written by the bundler
    | EditorBundle               // editor-bundle.js, written by the dev server

  /** The path as text, relative to the output directory. */
  function PathText(p: OutPath): string {
    match p
    case IndexPage => "index.html"
    case ArticlePage => "article.html"
    case Stylesheet(t) => "themes/" + t.Name() + ".css"
    case ConfigFile => "config.json"
    case CatalogFile => "articles.json"
    case Upload(n) => "uploads/" + n
    case Source(f) => "articles/" + f
    case Script(n) => "js/" + n
    case EditorBundle => "editor-bundle.js"
  }

  function ThemeNamed(n: string): (r: Option<Theme>)
    ensures r.Some? ==> r.value.Name() == n
    ensures r.None? ==> forall t: Theme :: t.Name() != n
  {
    if n == "guardian" then Some(Guardian)
    else if n == "times" then Some(Times)
    else if n == "tagesschau" then Some(Tagesschau)
    else if n == "tech" then Some(Tech)
    else None
  }

  /** Which output path a text names, if any. */
  function ParsePath(s: string): Option<OutPath> {
    if s == "index.html" then Some(IndexPage)
    else if s == "article.html" then Some(ArticlePage)
    else if s == "config.json" then Some(ConfigFile)
    else if s == "articles.json" then Some(CatalogFile)
    else if s == "editor-bundle.js" then Some(EditorBundle)
    else if StartsWith(s, "uploads/") then Some(Upload(s[8..]))
    else if StartsWith(s, "articles/") then Some(Source(s[9..]))
    else if StartsWith(s, "js/") then Some(Script(s[3..]))
    else if StartsWith(s, "themes/") && EndsWith(s, ".css") && |s| >= 11
            && ThemeNamed(s[7..|s| - 4]).Some? then
      Some(Stylesheet(ThemeNamed(s[7..|s| - 4]).value))
    else None
  }

  /** Reading a path's text gives the path back; so distinct paths have
      distinct texts. */
  lemma ParsePathText(p: OutPath)
    ensures ParsePath(PathText(p)) == Some(p)
  {
    match p
    case Stylesheet(t) => ParseStylesheet(t);
    case Upload(n) => ParseUpload(n);
    case Source(f) => ParseSource(f);
    case Script(n) => ParseScript(n);
    case _ =>
  }

  lemma ParseStylesheet(t: Theme)
    ensures ParsePath(PathText(Stylesheet(t))) == Some(Stylesheet(t))
  {
    var s := PathText(Stylesheet(t));
    assert s[0] == 't';
    assert s[..7] == "themes/";
    assert s[|s| - 4..] == ".css";
    assert s[7..|s| - 4] == t.Name();
    NotPrefixAt(s, "uploads/", 0);
    NotPrefixAt(s, "articles/", 0);
    NotPrefixAt(s, "js/", 0);
  }

  lemma ParseUpload(n: string)
    ensures ParsePath(PathText(Upload(n))) == Some(Upload(n))
  {
    var s := PathText(Upload(n));
    assert s[0] == 'u';
    assert s[..8] == "uploads/";
    assert s[8..] == n;
  }

  lemma ParseSource(f: string)
    ensures ParsePath(PathText(Source(f))) == Some(Source(f))
  {
    var s := PathText(Source(f));
    assert s[0] == 'a' && s[1] == 'r' && s[2] == 't' && s[8] == '/';
    NotPrefixAt(s, "uploads/", 0);
    assert s[..9] == "articles/";
    assert s[9..] == f;
  }

  lemma ParseScript(n: string)
    ensures ParsePath(PathText(Script(n))) == Some(Script(n))
  {
    var s := PathText(Script(n));
    assert s[0] == 'j';
    NotPrefixAt(s, "uploads/", 0);
    NotPrefixAt(s, "articles/", 0);
    assert s[..3] == "js/";
    assert s[3..] == n;
  }

  /** A text whose `i`-th character differs from the prefix's does not
      start with it. */
  lemma NotPrefixAt(s: string, pre: string, i: nat)
    requires i < |s| && i < |pre| && s[i] != pre[i]
    ensures !StartsWith(s, pre)
  {
    if |pre| <= |s| {
      assert s[..|pre|][i] == s[i];
    }
  }

  /** A text that names a path is that path's text. */
  lemma TextParsePath(s: string)
    requires ParsePath(s).Some?
    ensures PathText(ParsePath(s).value) == s
  {
    if s in {"index.html", "article.html", "config.json", "articles.json", "editor-bundle.js"} {
    } else if StartsWith(s, "uploads/") {
      PrefixSplit(s, "uploads/");
    } else if StartsWith(s, "articles/") {
      PrefixSplit(s, "articles/");
    } else if StartsWith(s, "js/") {
      PrefixSplit(s, "js/");
    } else {
      var n := s[7..|s| - 4];
      assert ParsePath(s) == Some(Stylesheet(ThemeNamed(n).value));
      ThemeSplit(s);
    }
  }

  lemma PrefixSplit(s: string, pre: string)
    requires StartsWith(s, pre)
    ensures s == pre + s[|pre|..]
  {
    assert s == s[..|pre|] + s[|pre|..];
  }

  lemma ThemeSplit(s: string)
    requires StartsWith(s, "themes/") && EndsWith(s, ".css") && |s| >= 11
    ensures s == "themes/" + s[7..|s| - 4] + ".css"
  {
    assert s == s[..7] + s[7..|s| - 4] + s[|s| - 4..];
  }

  /** One file in the output directory. */
  datatype Output =
    | Page(html: string)                   // a processed template
    | Copied(text: string)                 // a file copied as it is
    | ConfigJson(config: SiteConfig)       // config.json: title, theme, description
    | ListJson(articles: seq<ArticleMeta>) // articles.json: the catalog, in order
    | Bundled(code: string)                // a script the bundler wrote

  /** What the build reads from the installation. */
  datatype Install = Install(
    indexTemplate: string,
    articleTemplate: string,
    guardianCss: string,
    timesCss: string,
    tagesschauCss: string,
    techCss: string,
    indexScript: string,    // what the bundler makes of frontend/index.ts
    articleScript: string)  // what the bundler makes of frontend/article.ts

  /** The scripts the bundler writes under `js/`, one per entry point. */
  const ScriptNames: set<string> := {"index.js", "article.js"}

  function ScriptCode(install: Install, n: string): string
    requires n in ScriptNames
  {
    if n == "index.js" then install.indexScript else install.articleScript
  }

  function ThemeCss(install: Install, t: Theme): string {
    match t
    case Guardian => install.guardianCss
    case Times => install.timesCss
    case Tagesschau => install.tagesschauCss
    case Tech => install.techCss
  }

  function Filenames(catalog: seq<ArticleMeta>): set<string> {
    set a | a in catalog :: a.filename
  }

  /** The paths every successful build writes, whatever the content. */
  predicate IsFixed(p: OutPath) {
    || p.IndexPage? || p.ArticlePage? || p.Stylesheet? || p.ConfigFile? || p.CatalogFile?
    || (p.Script? && p.name in ScriptNames)
  }

  /** The paths one build writes: the fixed ones, every upload and every
      catalog entry's file. */
  predicate Writes(p: OutPath, catalog: seq<ArticleMeta>, uploads: map<string, string>) {
    || IsFixed(p)
    || (p.Upload? && p.name in uploads)
    || (p.Source? && p.filename in Filenames(catalog))
  }

  function FixedPaths(): set<OutPath> {
    {IndexPage, ArticlePage, ConfigFile, CatalogFile,
     Stylesheet(Guardian), Stylesheet(Times), Stylesheet(Tagesschau), Stylesheet(Tech),
     Script("index.js"), Script("article.js")}
  }

  /** The paths one build writes, as a finite set. */
  function WrittenPaths(catalog: seq<ArticleMeta>, uploads: map<string, string>): (r: set<OutPath>)
    ensures forall p :: p in r <==> Writes(p, catalog, uploads)
  {
    var ups := set n | n in uploads :: Upload(n);
    var srcs := set f | f in Filenames(catalog) :: Source(f);
    StylesheetsFixed();
    FixedPaths() + ups + srcs
  }

  lemma StylesheetsFixed()
    ensures forall t: Theme :: Stylesheet(t) in FixedPaths()
  {
    forall t: Theme ensures Stylesheet(t) in FixedPaths() {
      match t
      case Guardian =>
      case Times =>
      case Tagesschau =>
      case Tech =>
    }
  }

  /** What one build writes at a path it writes. */
  function Content(p: OutPath, config: SiteConfig, catalog: seq<ArticleMeta>, install: Install,
                   dir: map<string, string>, uploads: map<string, string>): Output
    requires Writes(p, catalog, uploads)
    requires forall a :: a in catalog ==> a.filename in dir
  {
    match p
    case IndexPage => Page(ProcessHtmlAsWritten(install.indexTemplate, Replacements(config)))
    case ArticlePage => Page(ProcessHtmlAsWritten(install.articleTemplate, Replacements(config)))
    case Stylesheet(t) => Copied(ThemeCss(install, t))
    case ConfigFile => ConfigJson(config)
    case CatalogFile => ListJson(catalog)
    case Upload(n) => Copied(uploads[n])
    case Source(f) =>
      assert exists a :: a in catalog && a.filename == f;
      Copied(dir[f])
    case Script(n) => Bundled(ScriptCode(install, n))
    case EditorBundle => assert false; Copied("")
  }

  /** Everything one successful build writes. */
  function Written(config: SiteConfig, catalog: seq<ArticleMeta>, install: Install,
                   dir: map<string, string>, uploads: map<string, string>): map<OutPath, Output>
    requires forall a :: a in catalog ==> a.filename in dir
  {
    var paths := WrittenPaths(catalog, uploads);
    map p | p in paths :: Content(p, config, catalog, install, dir, uploads)
  }

  datatype BuildError =
    | CatalogFailed                 // the article list could not be built
    | BundleFailed(message: string) // the bundler reported failure

  const BundleFailedMessage: string := "Frontend build failed"

  /** `buildSite`: the catalog is built first (its failure propagates),
      then the bundle (its failure stops the build before anything else is
      written), then every output is written over the old output
      directory. A missing uploads directory copies nothing. */
  function BuildSite(config: SiteConfig, articles: Option<map<string, string>>,
                     uploads: Option<map<string, string>>, matter: string -> Option<map<string, Value>>,
                     today: string, install: Install, bundled: bool, dist: map<OutPath, Output>)
    : (r: Result<map<OutPath, Output>, BuildError>)
    ensures Catalog.BuildArticleList(articles, matter, today).None? ==> r == Failure(CatalogFailed)
    ensures Catalog.BuildArticleList(articles, matter, today).Some? && !bundled
            ==> r == Failure(BundleFailed(BundleFailedMessage))
    ensures r.Success? ==> bundled && articles.Some?
  {
    match Catalog.BuildArticleList(articles, matter, today)
    case None => Failure(CatalogFailed)
    case Some(catalog) =>
      if !bundled then Failure(BundleFailed(BundleFailedMessage))
      else
        Success(dist + Written(config, catalog, install, articles.value, uploads.GetOr(map[])))
  }

  /** A successful build writes the two pages with every placeholder
      replaced as the build step writes it (`$` patterns in a value
      expanded, see `ProcessHtmlAsWritten`), the two bundled scripts, the
      four stylesheets, `config.json` with exactly the configuration,
      `articles.json` with the catalog in its order, every upload and
      every catalog entry's file; every other path keeps what it held. */
  lemma BuildOutputs(config: SiteConfig, articles: Option<map<string, string>>,
                     uploads: Option<map<string, string>>, matter: string -> Option<map<string, Value>>,
                     today: string, install: Install, bundled: bool, dist: map<OutPath, Output>)
    requires BuildSite(config, articles, uploads, matter, today, install, bundled, dist).Success?
    ensures var out := BuildSite(config, articles, uploads, matter, today, install, bundled, dist).value;
            var catalog := Catalog.BuildArticleList(articles, matter, today).value;
            Overlaid(out, dist, config, catalog, install, articles.value, uploads.GetOr(map[]))
  {
    var catalog := Catalog.BuildArticleList(articles, matter, today).value;
    var dir := articles.value;
    assert forall a :: a in catalog ==> a.filename in dir by {
      forall a | a in catalog ensures a.filename in dir {
        var i :| 0 <= i < |catalog| && catalog[i] == a;
      }
    }
    OverlayWritten(dist, config, catalog, install, dir, uploads.GetOr(map[]));
  }

  /** What the output directory holds after one build over `dist`. */
  ghost predicate Overlaid(out: map<OutPath, Output>, dist: map<OutPath, Output>, config: SiteConfig,
                     catalog: seq<ArticleMeta>, install: Install, dir: map<string, string>,
                     uploads: map<string, string>)
  {
    var reps := Replacements(config);
    && (forall p :: p in out <==> p in dist || Writes(p, catalog, uploads))
    && out[IndexPage] == Page(ProcessHtmlAsWritten(install.indexTemplate, reps))
    && out[ArticlePage] == Page(ProcessHtmlAsWritten(install.articleTemplate, reps))
    && (forall t: Theme :: out[Stylesheet(t)] == Copied(ThemeCss(install, t)))
    && out[ConfigFile] == ConfigJson(config)
    && out[CatalogFile] == ListJson(catalog)
    && out[Script("index.js")] == Bundled(install.indexScript)
    && out[Script("article.js")] == Bundled(install.articleScript)
    && (forall a :: a in catalog ==> a.filename in dir && out[Source(a.filename)] == Copied(dir[a.filename]))
    && (forall n :: n in uploads ==> out[Upload(n)] == Copied(uploads[n]))
    && (forall p :: p in dist && !Writes(p, catalog, uploads) ==> out[p] == dist[p])
  }

  lemma OverlayWritten(dist: map<OutPath, Output>, config: SiteConfig, catalog: seq<ArticleMeta>,
                       install: Install, dir: map<string, string>, uploads: map<string, string>)
    requires forall a :: a in catalog ==> a.filename in dir
    ensures Overlaid(dist + Written(config, catalog, install, dir, uploads), dist, config, catalog,
                     install, dir, uploads)
  {
    var w := Written(config, catalog, install, dir, uploads);
    var out := dist + w;
    WrittenContent(config, catalog, install, dir, uploads);
    OverlayPages(dist, config, catalog, install, dir, uploads);
    OverlayStatic(dist, config, catalog, install, dir, uploads);
    OverlayFiles(dist, config, catalog, install, dir, uploads);
    assert forall p :: p in dist && !Writes(p, catalog, uploads) ==> out[p] == dist[p];
  }

  /** The two pages of this build are written whatever the catalog. */
  lemma OverlayPages(dist: map<OutPath, Output>, config: SiteConfig, catalog: seq<ArticleMeta>,
                     install: Install, dir: map<string, string>, uploads: map<string, string>)
    requires forall a :: a in catalog ==> a.filename in dir
    ensures var out := dist + Written(config, catalog, install, dir, uploads);
            var reps := Replacements(config);
            && IndexPage in out && out[IndexPage] == Page(ProcessHtmlAsWritten(install.indexTemplate, reps))
            && ArticlePage in out && out[ArticlePage] == Page(ProcessHtmlAsWritten(install.articleTemplate, reps))
  {
    var w := Written(config, catalog, install, dir, uploads);
    WrittenAt(config, catalog, install, dir, uploads, IndexPage);
    WrittenAt(config, catalog, install, dir, uploads, ArticlePage);
    OverlayAt(dist, w, IndexPage);
    OverlayAt(dist, w, ArticlePage);
  }

  /** The stylesheets, the two JSON files and the two bundled scripts are
      written whatever the catalog. */
  lemma OverlayStatic(dist: map<OutPath, Output>, config: SiteConfig, catalog: seq<ArticleMeta>,
                      install: Install, dir: map<string, string>, uploads: map<string, string>)
    requires forall a :: a in catalog ==> a.filename in dir
    ensures var out := dist + Written(config, catalog, install, dir, uploads);
            && (forall t: Theme :: Stylesheet(t) in out && out[Stylesheet(t)] == Copied(ThemeCss(install, t)))
            && ConfigFile in out && out[ConfigFile] == ConfigJson(config)
            && CatalogFile in out && out[CatalogFile] == ListJson(catalog)
            && Script("index.js") in out && out[Script("index.js")] == Bundled(install.indexScript)
            && Script("article.js") in out && out[Script("article.js")] == Bundled(install.articleScript)
  {
    var w := Written(config, catalog, install, dir, uploads);
    forall t: Theme ensures Stylesheet(t) in dist + w && (dist + w)[Stylesheet(t)] == Copied(ThemeCss(install, t)) {
      WrittenAt(config, catalog, install, dir, uploads, Stylesheet(t));
      OverlayAt(dist, w, Stylesheet(t));
    }
    WrittenAt(config, catalog, install, dir, uploads, ConfigFile);
    WrittenAt(config, catalog, install, dir, uploads, CatalogFile);
    OverlayAt(dist, w, ConfigFile);
    OverlayAt(dist, w, CatalogFile);
    WrittenAt(config, catalog, install, dir, uploads, Script("index.js"));
    WrittenAt(config, catalog, install, dir, uploads, Script("article.js"));
    OverlayAt(dist, w, Script("index.js"));
    OverlayAt(dist, w, Script("article.js"));
  }

  /** Every upload and every catalog entry's file is copied. */
  lemma OverlayFiles(dist: map<OutPath, Output>, config: SiteConfig, catalog: seq<ArticleMeta>,
                     install: Install, dir: map<string, string>, uploads: map<string, string>)
    requires forall a :: a in catalog ==> a.filename in dir
    ensures forall a :: a in catalog ==>
              (dist + Written(config, catalog, install, dir, uploads))[Source(a.filename)] == Copied(dir[a.filename])
    ensures forall n :: n in uploads ==>
              (dist + Written(config, catalog, install, dir, uploads))[Upload(n)] == Copied(uploads[n])
  {
    var w := Written(config, catalog, install, dir, uploads);
    forall a | a in catalog ensures (dist + w)[Source(a.filename)] == Copied(dir[a.filename]) {
      OverlaySource(dist, config, catalog, install, dir, uploads, a);
    }
    forall n | n in uploads ensures (dist + w)[Upload(n)] == Copied(uploads[n]) {
      OverlayUpload(dist, config, catalog, install, dir, uploads, n);
    }
  }

  lemma OverlaySource(dist: map<OutPath, Output>, config: SiteConfig, catalog: seq<ArticleMeta>,
                      install: Install, dir: map<string, string>, uploads: map<string, string>, a: ArticleMeta)
    requires forall a :: a in catalog ==> a.filename in dir
    requires a in catalog
    ensures Source(a.filename) in dist + Written(config, catalog, install, dir, uploads)
    ensures (dist + Written(config, catalog, install, dir, uploads))[Source(a.filename)] == Copied(dir[a.filename])
  {
    assert a.filename in Filenames(catalog);
    WrittenAt(config, catalog, install, dir, uploads, Source(a.filename));
    OverlayAt(dist, Written(config, catalog, install, dir, uploads), Source(a.filename));
  }

  lemma OverlayUpload(dist: map<OutPath, Output>, config: SiteConfig, catalog: seq<ArticleMeta>,
                      install: Install, dir: map<string, string>, uploads: map<string, string>, n: string)
    requires forall a :: a in catalog ==> a.filename in dir
    requires n in uploads
    ensures Upload(n) in dist + Written(config, catalog, install, dir, uploads)
    ensures (dist + Written(config, catalog, install, dir, uploads))[Upload(n)] == Copied(uploads[n])
  {
    WrittenAt(config, catalog, install, dir, uploads, Upload(n));
    OverlayAt(dist, Written(config, catalog, install, dir, uploads), Upload(n));
  }

  lemma OverlayAt(dist: map<OutPath, Output>, w: map<OutPath, Output>, p: OutPath)
    requires p in w
    ensures p in dist + w && (dist + w)[p] == w[p]
  {
  }

  lemma WrittenAt(config: SiteConfig, catalog: seq<ArticleMeta>, install: Install,
                  dir: map<string, string>, uploads: map<string, string>, p: OutPath)
    requires forall a :: a in catalog ==> a.filename in dir
    requires Writes(p, catalog, uploads)
    ensures var w := Written(config, catalog, install, dir, uploads);
            p in w && w[p] == Content(p, config, catalog, install, dir, uploads)
  {
  }

  /** Every path one build writes holds that path's content. */
  lemma WrittenContent(config: SiteConfig, catalog: seq<ArticleMeta>, install: Install,
                       dir: map<string, string>, uploads: map<string, string>)
    requires forall a :: a in catalog ==> a.filename in dir
    ensures var w := Written(config, catalog, install, dir, uploads);
            forall p :: (p in w <==> Writes(p, catalog, uploads))
                        && (p in w ==> w[p] == Content(p, config, catalog, install, dir, uploads))
  {
  }
}
