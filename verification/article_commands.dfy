/**
 * The `articles` command (src/commands/articles.ts): `refresh` lists the
 * catalog, `add` writes the skeleton of a new article, `remove` deletes
 * the first article file an id names.
 *
 * The article directory is a map from file name to text (`None` when the
 * directory is missing); the title typed at the prompt, today's date and
 * the front matter parser are parameters.
 */
module ArticleCommands {
  import opened Wrappers
  import opened Text
  import opened Types
  import Catalog
  import Slug
  import Skeleton

  /** How a command ends: lines printed and a normal exit, an error
      message and exit code 1, or an exception that escapes. */
  datatype Outcome = Printed(lines: seq<string>) | Failed(message: string) | Crashed

  /** The outcome and the article directory afterwards. */
  datatype Run = Run(outcome: Outcome, articles: Option<map<string, string>>)

  // ---------------------------------------------------------------------
  // refresh
  // ---------------------------------------------------------------------

  function ListingLine(a: ArticleMeta): string {
    "  [" + a.date + "] " + Shown(a.title) + "  (" + a.filename + ")"
  }

  /** `refresh` given the catalog `buildArticleList` returned (`None` when
      it threw): a count line, then one line per catalog entry in catalog
      order. A catalog that cannot be built is not caught. */
  function Refresh(catalog: Option<seq<ArticleMeta>>): (r: Outcome)
    ensures catalog.None? <==> r.Crashed?
    ensures catalog.Some? ==>
              && r.Printed?
              && |r.lines| == |catalog.value| + 1
              && r.lines[0] == "Refreshed " + NatToString(|catalog.value|) + " article(s):"
              && forall i :: 0 <= i < |catalog.value| ==> r.lines[i + 1] == ListingLine(catalog.value[i])
  {
    match catalog
    case None => Crashed
    case Some(list) => Printed(["Refreshed " + NatToString(|list|) + " article(s):"] + Listing(list))
  }

  /** One listing line per entry, in order. */
  function Listing(list: seq<ArticleMeta>): (ls: seq<string>)
    ensures |ls| == |list|
    ensures forall i :: 0 <= i < |list| ==> ls[i] == ListingLine(list[i])
  {
    seq(|list|, i requires 0 <= i < |list| => ListingLine(list[i]))
  }

  // ---------------------------------------------------------------------
  // add
  // ---------------------------------------------------------------------

  /** `s.replace(/-/g, " ")` */
  function Unhyphen(s: string): (r: string)
    ensures |r| == |s|
    ensures forall i :: 0 <= i < |s| ==> r[i] == if s[i] == '-' then ' ' else s[i]
  {
    seq(|s|, i requires 0 <= i < |s| => if s[i] == '-' then ' ' else s[i])
  }

  /** The title `add` derives from an id given on the command line: its
      hyphens become spaces. */
  function TitleFromId(id: string): (t: string)
    ensures '-' !in t && |t| == |id|
    ensures forall i :: 0 <= i < |id| && id[i] != '-' ==> t[i] == id[i]
    ensures forall i :: 0 <= i < |id| && id[i] == '-' ==> t[i] == ' '
  {
    if '-' in id then Unhyphen(id) else id
  }

  /** An id a well-formed file name can carry: a non-empty slug that
      neither starts nor ends with a hyphen. */
  predicate CleanId(id: string) {
    Slug.IsSlug(id) && |id| > 0 && id[0] != '-' && id[|id| - 1] != '-'
  }

  /** The title derived from a clean id slugifies back to the id, so
      `add <id>` creates `<id>.md`. */
  lemma CleanIdRoundTrip(id: string)
    requires CleanId(id)
    ensures Slug.Slugify(TitleFromId(id)) == id
  {
    if '-' !in id {
      Slug.SlugifyNoop(id);
    } else {
      assert TitleFromId(id) == Unhyphen(id);
      UnhyphenedSlugifies(id);
    }
  }

  lemma UnhyphenedSlugifies(id: string)
    requires CleanId(id)
    ensures Slug.Slugify(Unhyphen(id)) == id
  {
    var t := Unhyphen(id);
    UnhyphenedIsPlain(id);
    assert Slug.SpacesToHyphens(t) == id by {
      SingleSpacesToHyphens(id);
    }
    assert Slug.SqueezeHyphens(id) == id by {
      Slug.SqueezeHyphensNoop(id);
    }
    SlugifyStages(t, id);
  }

  /** The first three passes of `Slugify` leave an unhyphened clean id as
      it is. */
  lemma UnhyphenedIsPlain(id: string)
    requires CleanId(id)
    ensures Lower(Unhyphen(id)) == Unhyphen(id)
    ensures Slug.KeepSlugChars(Unhyphen(id)) == Unhyphen(id)
    ensures Trim(Unhyphen(id)) == Unhyphen(id)
  {
    var t := Unhyphen(id);
    UnhyphenedChars(id);
    LowerNoop(t);
    Slug.KeepSlugCharsNoop(t);
    assert !IsSpace(t[0]) && !IsSpace(t[|t| - 1]) by {
      assert Slug.IsSlugChar(id[0]) && Slug.IsSlugChar(id[|id| - 1]);
    }
    TrimNoop(t);
  }

  lemma UnhyphenedChars(id: string)
    requires Slug.AllSlugChars(id)
    ensures forall i :: 0 <= i < |Unhyphen(id)| ==> !IsAsciiUpper(Unhyphen(id)[i])
    ensures Slug.AllKept(Unhyphen(id))
  {
    var t := Unhyphen(id);
    forall i | 0 <= i < |t| ensures !IsAsciiUpper(t[i]) && Slug.IsKept(t[i]) {
      assert Slug.IsSlugChar(id[i]);
    }
  }

  lemma SlugifyStages(t: string, id: string)
    requires Lower(t) == t && Slug.KeepSlugChars(t) == t && Trim(t) == t
    requires Slug.SpacesToHyphens(t) == id && Slug.SqueezeHyphens(id) == id
    ensures Slug.Slugify(t) == id
  {
  }

  /** On a text whose blanks stand alone, hyphenating the blanks puts back
      the hyphens `Unhyphen` took out. */
  lemma {:induction false} SingleSpacesToHyphens(id: string)
    requires Slug.IsSlug(id)
    ensures Slug.SpacesToHyphens(Unhyphen(id)) == id
    decreases |id|
  {
    if |id| > 0 {
      UnhyphenTail(id);
      SingleSpacesToHyphens(id[1..]);
      UnhyphenStep(id);
    }
  }

  lemma UnhyphenTail(id: string)
    requires |id| > 0 && Slug.IsSlug(id)
    ensures Unhyphen(id[1..]) == Unhyphen(id)[1..]
    ensures Slug.IsSlug(id[1..])
  {
    assert forall i :: 0 <= i < |id| - 1 ==> id[1..][i] == id[i + 1];
  }

  /** Hyphenating the first character of an unhyphened slug puts back its
      first character. */
  lemma UnhyphenStep(id: string)
    requires |id| > 0 && Slug.IsSlug(id)
    requires Slug.SpacesToHyphens(Unhyphen(id)[1..]) == id[1..]
    ensures Slug.SpacesToHyphens(Unhyphen(id)) == id
  {
    if id[0] == '-' {
      UnhyphenDash(id);
    } else {
      UnhyphenKept(id);
    }
    HeadTail(id);
  }

  lemma UnhyphenDash(id: string)
    requires |id| > 0 && Slug.IsSlug(id) && id[0] == '-'
    ensures Slug.SpacesToHyphens(Unhyphen(id)) == [id[0]] + Slug.SpacesToHyphens(Unhyphen(id)[1..])
  {
    var t := Unhyphen(id);
    if |t| > 1 {
      assert id[1] != '-' && Slug.IsSlugChar(id[1]);
    }
    Slug.SpacesToHyphensBlank(t);
  }

  lemma UnhyphenKept(id: string)
    requires |id| > 0 && Slug.IsSlug(id) && id[0] != '-'
    ensures Slug.SpacesToHyphens(Unhyphen(id)) == [id[0]] + Slug.SpacesToHyphens(Unhyphen(id)[1..])
  {
    var t := Unhyphen(id);
    assert Slug.IsSlugChar(id[0]);
    HeadTail(t);
    Slug.SpacesToHyphensCons(t[0], t[1..]);
  }

  lemma HeadTail(s: string)
    requires |s| > 0
    ensures [s[0]] + s[1..] == s
  {
  }


  const EmptyTitle: string := "Title cannot be empty."

  /** `add`: the title is derived from the id when one is given, else it
      is the typed line trimmed; an empty title is refused; an existing
      file is never overwritten; otherwise the skeleton is written. */
  function Add(articleId: Option<string>, typed: string, articles: Option<map<string, string>>,
               today: string): (r: Run)
    ensures var title := if articleId.Some? && articleId.value != "" then TitleFromId(articleId.value)
                         else Trim(typed);
            var f := Slug.Slugify(title) + ".md";
            && (title == "" ==> r == Run(Failed(EmptyTitle), articles))
            && ((title != "" && articles.Some? && f in articles.value)
                  ==> r == Run(Failed("Article already exists: " + f), articles))
            && (r.outcome.Printed? <==> title != "" && (articles.None? || f !in articles.value))
            && (r.outcome.Printed? ==>
                  && r.outcome.lines == ["Created: articles/" + f]
                  && r.articles == Some(articles.GetOr(map[])[f := Skeleton.GenerateFrontmatter(title, "", today)]))
  {
    var title := if articleId.Some? && articleId.value != "" then TitleFromId(articleId.value)
                 else Trim(typed);
    if title == "" then Run(Failed(EmptyTitle), articles)
    else
      var f := Slug.Slugify(title) + ".md";
      if articles.Some? && f in articles.value then
        Run(Failed("Article already exists: " + f), articles)
      else
        Run(Printed(["Created: articles/" + f]),
            Some(articles.GetOr(map[])[f := Skeleton.GenerateFrontmatter(title, "", today)]))
  }

  /** `add` only ever adds a file: every file there before is kept with its
      text, and the new file was not there. */
  lemma AddOnlyAdds(articleId: Option<string>, typed: string, articles: Option<map<string, string>>,
                    today: string)
    requires Add(articleId, typed, articles, today).outcome.Printed?
    ensures var after := Add(articleId, typed, articles, today).articles;
            && after.Some?
            && |after.value.Keys| == |articles.GetOr(map[]).Keys| + 1
            && forall n :: n in articles.GetOr(map[]) ==> n in after.value && after.value[n] == articles.value[n]
  {
    var title := if articleId.Some? && articleId.value != "" then TitleFromId(articleId.value)
                 else Trim(typed);
    var f := Slug.Slugify(title) + ".md";
    var before := articles.GetOr(map[]);
    assert f !in before;
    assert Add(articleId, typed, articles, today).articles.value.Keys == before.Keys + {f};
  }

  /** `add <id>` for a clean id creates exactly `<id>.md`. */
  lemma AddCleanId(id: string, typed: string, articles: Option<map<string, string>>, today: string)
    requires CleanId(id)
    requires articles.None? || id + ".md" !in articles.value
    ensures Add(Some(id), typed, articles, today).outcome == Printed(["Created: articles/" + id + ".md"])
    ensures id + ".md" in Add(Some(id), typed, articles, today).articles.value
  {
    var title := TitleFromId(id);
    assert Slug.Slugify(title) == id by { CleanIdRoundTrip(id); }
    assert title != "";
    assert "Created: articles/" + (id + ".md") == "Created: articles/" + id + ".md";
  }

  // ---------------------------------------------------------------------
  // remove
  // ---------------------------------------------------------------------

  /** The file name `remove <id>` accepts directly. */
  predicate NamesId(f: string, id: string) {
    f == id + ".md" || f == id
  }

  /** Front matter whose `id` is the string `id`; an id of another type
      never equals it. */
  predicate HasId(data: Catalog.Meta, id: string) {
    "id" in data && data["id"] == Str(id)
  }

  /** File `f` is the one `remove` stops at. */
  predicate Stops(f: string, id: string, dir: map<string, string>, matter: string -> Option<Catalog.Meta>)
    requires f in dir
  {
    NamesId(f, id) || (matter(dir[f]).Some? && HasId(matter(dir[f]).value, id))
  }

  /** File `f` is read and passed over. */
  predicate PassesOver(f: string, id: string, dir: map<string, string>,
                       matter: string -> Option<Catalog.Meta>)
    requires f in dir
  {
    !NamesId(f, id) && matter(dir[f]).Some? && !HasId(matter(dir[f]).value, id)
  }

  datatype Scan = Matched(index: nat) | NoMatch | ParseCrashed

  /** The loop of `remove` from position `i` on: each file is first
      compared by name, then its front matter is read and its id compared;
      a file whose front matter cannot be read ends the command. */
  function ScanFrom(files: seq<string>, i: nat, id: string, dir: map<string, string>,
                    matter: string -> Option<Catalog.Meta>): (r: Scan)
    requires i <= |files| && forall k :: 0 <= k < |files| ==> files[k] in dir
    ensures r.Matched? ==> i <= r.index < |files| && Stops(files[r.index], id, dir, matter)
    ensures r.Matched? ==> forall k :: i <= k < r.index ==> PassesOver(files[k], id, dir, matter)
    ensures r.NoMatch? <==> forall k :: i <= k < |files| ==> PassesOver(files[k], id, dir, matter)
    decreases |files| - i
  {
    if i == |files| then NoMatch
    else
      var f := files[i];
      if NamesId(f, id) then Matched(i)
      else match matter(dir[f])
        case None => ParseCrashed
        case Some(data) =>
          if HasId(data, id) then Matched(i) else ScanFrom(files, i + 1, id, dir, matter)
  }

  const RemoveUsage: string := "Usage: newspage articles remove <articleId>"

  /** `remove`: without an id, a usage error; otherwise the first listed
      file the id names is deleted, or "not found" when none is. Listing a
      missing directory is not caught. */
  function Remove(articleId: Option<string>, articles: Option<map<string, string>>,
                  matter: string -> Option<Catalog.Meta>): (r: Run)
    ensures (articleId.None? || articleId == Some("")) ==> r == Run(Failed(RemoveUsage), articles)
    ensures r.outcome.Failed? && articleId.Some? && articleId.value != ""
            ==> r == Run(Failed("Article not found: " + articleId.value), articles)
  {
    if articleId.None? || articleId.value == "" then Run(Failed(RemoveUsage), articles)
    else if articles.None? then Run(Crashed, articles)
    else
      var id := articleId.value;
      var dir := articles.value;
      var files := Catalog.ListFiles(dir);
      match ScanFrom(files, 0, id, dir, matter)
      case NoMatch => Run(Failed("Article not found: " + id), articles)
      case ParseCrashed => Run(Crashed, articles)
      case Matched(k) =>
        Run(Printed(["Removed: articles/" + files[k]]), Some(dir - {files[k]}))
  }

  /** A removal deletes exactly one listed file: the first one in sorted
      order that the id names, by file name or by front matter id; every
      other file is kept. When no listed file matches, nothing changes. */
  lemma RemoveFirstMatch(id: string, dir: map<string, string>, matter: string -> Option<Catalog.Meta>)
    requires id != ""
    ensures var r := Remove(Some(id), Some(dir), matter);
            var files := Catalog.ListFiles(dir);
            && (r.outcome.Printed? <==> exists k :: 0 <= k < |files| && Stops(files[k], id, dir, matter)
                                          && forall j :: 0 <= j < k ==> PassesOver(files[j], id, dir, matter))
            && (r.outcome.Printed? ==> exists k :: (&& 0 <= k < |files|
                                                     && Stops(files[k], id, dir, matter)
                                                     && (forall j :: 0 <= j < k ==> PassesOver(files[j], id, dir, matter))
                                                     && r.articles == Some(dir - {files[k]})))
            && ((forall k :: 0 <= k < |files| ==> PassesOver(files[k], id, dir, matter))
                  ==> r == Run(Failed("Article not found: " + id), Some(dir)))
  {
    var files := Catalog.ListFiles(dir);
    ScanOutcome(files, id, dir, matter);
    var s := ScanFrom(files, 0, id, dir, matter);
    if s.Matched? {
      assert Remove(Some(id), Some(dir), matter).articles == Some(dir - {files[s.index]});
    }
  }

  /** The scan matches exactly when some file stops it and every file
      before that one is passed over; then it is at the first such file. */
  lemma ScanOutcome(files: seq<string>, id: string, dir: map<string, string>,
                    matter: string -> Option<Catalog.Meta>)
    requires forall k :: 0 <= k < |files| ==> files[k] in dir
    ensures var s := ScanFrom(files, 0, id, dir, matter);
            && (s.Matched? <==> exists k :: 0 <= k < |files| && Stops(files[k], id, dir, matter)
                                  && forall j :: 0 <= j < k ==> PassesOver(files[j], id, dir, matter))
            && (s.Matched? ==> forall j :: 0 <= j < s.index ==> PassesOver(files[j], id, dir, matter))
  {
    var s := ScanFrom(files, 0, id, dir, matter);
    if !s.Matched? {
      forall k | 0 <= k < |files| && Stops(files[k], id, dir, matter)
        ensures exists j :: 0 <= j < k && !PassesOver(files[j], id, dir, matter)
      {
        FirstStopOrCrash(files, id, dir, matter, k);
      }
    }
  }

  /** If the scan does not match, any file that would stop it lies behind
      a file whose front matter cannot be read. */
  lemma FirstStopOrCrash(files: seq<string>, id: string, dir: map<string, string>,
                         matter: string -> Option<Catalog.Meta>, k: nat)
    requires forall i :: 0 <= i < |files| ==> files[i] in dir
    requires k < |files| && Stops(files[k], id, dir, matter)
    requires !ScanFrom(files, 0, id, dir, matter).Matched?
    ensures exists j :: 0 <= j < k && !PassesOver(files[j], id, dir, matter)
  {
    if forall j :: 0 <= j < k ==> PassesOver(files[j], id, dir, matter) {
      ScanReaches(files, 0, id, dir, matter, k);
    }
  }

  /** A scan passing over every file before `k` reaches `k`. */
  lemma {:induction false} ScanReaches(files: seq<string>, i: nat, id: string, dir: map<string, string>,
                                       matter: string -> Option<Catalog.Meta>, k: nat)
    requires forall j :: 0 <= j < |files| ==> files[j] in dir
    requires i <= k < |files|
    requires forall j :: i <= j < k ==> PassesOver(files[j], id, dir, matter)
    ensures ScanFrom(files, i, id, dir, matter) == ScanFrom(files, k, id, dir, matter)
    decreases k - i
  {
    if i < k {
      ScanReaches(files, i + 1, id, dir, matter, k);
    }
  }

  // ---------------------------------------------------------------------
  // The command
  // ---------------------------------------------------------------------

  /** `articles <action> [id]`: refresh and remove leave the typed line
      unused; an unknown action is an error. */
  function Articles(action: string, articleId: Option<string>, typed: string,
                    articles: Option<map<string, string>>, matter: string -> Option<Catalog.Meta>,
                    today: string): (r: Run)
    ensures action !in {"refresh", "add", "remove"}
            ==> r == Run(Failed("Unknown action: " + action + ". Use: refresh | add | remove"), articles)
    ensures action == "refresh" ==> r.articles == articles
  {
    if action == "refresh" then Run(Refresh(Catalog.BuildArticleList(articles, matter, today)), articles)
    else if action == "add" then Add(articleId, typed, articles, today)
    else if action == "remove" then Remove(articleId, articles, matter)
    else Run(Failed("Unknown action: " + action + ". Use: refresh | add | remove"), articles)
  }
}
