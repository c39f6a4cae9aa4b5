/**
 * The article catalog (src/lib/articles.ts): which files are articles, how
 * each file's metadata is defaulted, and the date-descending order of the
 * list the site and the API serve.
 *
 * The YAML reader (`gray-matter`) is not part of this model; it is the
 * parameter `matter`, which gives a file's metadata or `None` when the
 * reader throws.
 */
module Catalog {
  import opened Wrappers
  import opened Text
  import opened Types
  import Slug

  // ---------------------------------------------------------------------
  // Metadata as the YAML reader hands it over
  // ---------------------------------------------------------------------

  /** A file's metadata: the values of the keys present and not `null`. */
  type Meta = map<string, Value>

  // ---------------------------------------------------------------------
  // Which files are articles, in which order
  // ---------------------------------------------------------------------

  /** Matched by the glob `*.md` in the articles directory: a name of the
      directory itself ending in `.md`. The glob's `*` does not match a
      leading dot, so hidden files such as `.md` are not articles. */
  predicate IsListed(name: string)
    ensures IsListed(name) ==> |name| > 3 && Stem(name) != "" && Stem(name) + ".md" == name
  {
    EndsWith(name, ".md") && '/' !in name && !StartsWith(name, ".")
  }

  predicate StrictlyAscending(names: seq<string>) {
    forall i, j :: 0 <= i < j < |names| ==> LexLt(names[i], names[j])
  }

  /** `m` is in `s` and sorts no later than any name of `s`. */
  predicate IsLeast(m: string, s: set<string>) {
    m in s && forall y :: y in s ==> LexLe(m, y)
  }

  lemma {:induction false} LeastExists(s: set<string>)
    requires s != {}
    ensures exists m :: IsLeast(m, s)
    decreases |s|
  {
    var x :| x in s;
    if s == {x} {
      LexLeReflexive(x);
      assert IsLeast(x, s);
    } else {
      var t := s - {x};
      LeastExists(t);
      var m :| IsLeast(m, t);
      LexLeTotal(x, m);
      if LexLe(x, m) {
        forall y | y in s ensures LexLe(x, y) {
          if y == x {
            LexLeReflexive(x);
          } else {
            assert y in t;
            LexLeTransitive(x, m, y);
          }
        }
        assert IsLeast(x, s);
      } else {
        forall y | y in s ensures LexLe(m, y) {
          if y != x {
            assert y in t;
          }
        }
        assert IsLeast(m, s);
      }
    }
  }

  lemma LeastUnique(s: set<string>)
    ensures forall a, b :: IsLeast(a, s) && IsLeast(b, s) ==> a == b
  {
    forall a, b | IsLeast(a, s) && IsLeast(b, s) ensures a == b {
      LexLeAntisymmetric(a, b);
    }
  }

  /** The first name of a non-empty set in code-point order. */
  function Least(s: set<string>): (m: string)
    requires s != {}
    ensures IsLeast(m, s)
  {
    LeastExists(s);
    LeastUnique(s);
    var m :| IsLeast(m, s);
    m
  }

  /** The names of a set, each once, in ascending code-point order. */
  function SortedNames(s: set<string>): (r: seq<string>)
    ensures |r| == |s|
    ensures forall n :: n in r <==> n in s
    ensures StrictlyAscending(r)
    decreases |s|
  {
    if s == {} then []
    else
      var m := Least(s);
      var rest := SortedNames(s - {m});
      var r := [m] + rest;
      assert forall j :: 0 < j < |r| ==> r[j] == rest[j - 1];
      r
  }

  /** Two ascending lists of the same names are the same list: the order
      of the article files does not depend on how the directory was read. */
  lemma {:induction false} AscendingUnique(a: seq<string>, b: seq<string>)
    requires StrictlyAscending(a) && StrictlyAscending(b)
    requires forall n :: n in a <==> n in b
    ensures a == b
    decreases |a|
  {
    EmptyIff(a, b);
    if |a| > 0 {
      if a[0] != b[0] {
        LeastOfAscending(a, b[0]);
        LeastOfAscending(b, a[0]);
        LexLeAntisymmetric(a[0], b[0]);
        assert false;
      }
      assert |b| > 0;
      var a', b' := a[1..], b[1..];
      forall n ensures n in a' <==> n in b' {
        NotFirstOfAscending(a, n);
        NotFirstOfAscending(b, n);
      }
      AscendingUnique(a', b');
      assert a == [a[0]] + a';
      assert b == [b[0]] + b';
    }
  }

  lemma EmptyIff<T>(a: seq<T>, b: seq<T>)
    requires forall n :: n in a <==> n in b
    ensures |a| == 0 <==> |b| == 0
  {
    if |a| > 0 {
      assert a[0] in b;
    }
    if |b| > 0 {
      assert b[0] in a;
    }
  }

  lemma LeastOfAscending(a: seq<string>, n: string)
    requires StrictlyAscending(a) && n in a
    ensures LexLe(a[0], n)
  {
    var k :| 0 <= k < |a| && a[k] == n;
    if k == 0 {
      LexLeReflexive(n);
    }
  }

  lemma NotFirstOfAscending(a: seq<string>, n: string)
    requires StrictlyAscending(a) && |a| > 0
    ensures n in a[1..] <==> n in a && n != a[0]
  {
    if n in a && n != a[0] {
      var k :| 0 <= k < |a| && a[k] == n;
      assert a[1..][k - 1] == n;
    }
    if n in a[1..] {
      var k :| 0 <= k < |a[1..]| && a[1..][k] == n;
      assert a[k + 1] == n;
    }
  }

  /** `getArticleFiles`: the `*.md` names of the directory, sorted. */
  function ListFiles(dir: map<string, string>): (r: seq<string>)
    ensures forall n :: n in r <==> n in dir && IsListed(n)
    ensures StrictlyAscending(r)
  {
    SortedNames(set n | n in dir && IsListed(n))
  }

  // ---------------------------------------------------------------------
  // One file
  // ---------------------------------------------------------------------

  /** `basename(filename, ".md")` for a name without a directory part. */
  function Stem(filename: string): (r: string)
    ensures EndsWith(filename, ".md") ==> r + ".md" == filename
    ensures !EndsWith(filename, ".md") ==> r == filename
  {
    if EndsWith(filename, ".md") then filename[..|filename| - 3] else filename
  }

  /** A non-empty slug with `.md` appended is a listed article file whose
      stem is the slug. */
  lemma SlugFileListed(id: string)
    requires Slug.IsSlug(id) && id != ""
    ensures IsListed(id + ".md") && Stem(id + ".md") == id
  {
    var f := id + ".md";
    assert f[|f| - 3..] == ".md";
    assert forall i :: 0 <= i < |id| ==> Slug.IsSlugChar(id[i]);
    assert forall i :: 0 <= i < |f| ==> f[i] == if i < |id| then id[i] else ".md"[i - |id|];
    assert '/' !in f;
    assert f[0] == id[0];
    assert !StartsWith(f, ".");
    assert f[..|f| - 3] == id;
  }

  /** A hidden name, such as the `.md` an empty slug gives, is never
      listed. */
  lemma HiddenFileUnlisted(f: string)
    requires |f| > 0 && f[0] == '.'
    ensures !IsListed(f)
  {
    assert f[..1] == ".";
  }

  /** A slug with `.md` appended is listed exactly when the slug is not
      empty, and then its stem is the slug. */
  lemma SlugFile(id: string)
    requires Slug.IsSlug(id)
    ensures IsListed(id + ".md") <==> id != ""
    ensures id != "" ==> Stem(id + ".md") == id
  {
    if id == "" {
      HiddenFileUnlisted(id + ".md");
    } else {
      SlugFileListed(id);
    }
  }

  /** The date an article shows: the day of a timestamp, a string as it
      is written, and today for anything else or nothing. */
  function DateOf(data: Meta, today: string): (r: string)
    ensures "date" in data && data["date"].Timestamp?
            ==> && StartsWith(data["date"].iso, r)
                && |r| == if |data["date"].iso| < 10 then |data["date"].iso| else 10
    ensures "date" in data && data["date"].Str? ==> r == data["date"].s
    ensures ("date" !in data || data["date"].Other?) ==> r == today
  {
    if "date" !in data then today
    else match data["date"]
      case Timestamp(iso, _) => Prefix(iso, 10)
      case Str(s) => s
      case Other(_, _) => today
  }

  /** `parseArticle` once the metadata is read. A present value is taken
      as it is, whatever its type; only `date` is turned into a string. */
  function ParseArticle(filename: string, data: Meta, today: string): (r: ArticleMeta)
    ensures r.filename == filename
    ensures "id" in data ==> r.id == data["id"]
    ensures "id" !in data ==> r.id.Str? && Slug.IsSlug(r.id.s) && r.id.s == Slug.Slugify(Stem(filename))
    ensures "title" !in data ==> r.title == r.id
    ensures "title" in data ==> r.title == data["title"]
    ensures r.description == if "description" in data then data["description"] else Str("")
    ensures r.thumbnail.Some? <==> "thumbnail" in data
    ensures r.thumbnail.Some? ==> r.thumbnail.value == data["thumbnail"]
    ensures r.date == DateOf(data, today)
  {
    var id := if "id" in data then data["id"] else Str(Slug.Slugify(Stem(filename)));
    ArticleMeta(
      id,
      if "title" in data then data["title"] else id,
      DateOf(data, today),
      if "description" in data then data["description"] else Str(""),
      if "thumbnail" in data then Some(data["thumbnail"]) else None,
      filename)
  }

  /** Only a string id, or none at all, makes an entry that an id taken
      from a URL can name: a number, a boolean or a timestamp never
      equals a string. */
  lemma OnlyStringIdsFound(filename: string, data: Meta, today: string, id: string)
    requires "id" in data && !data["id"].Str?
    ensures !IdIs(ParseArticle(filename, data, today), id)
  {
  }

  /** A file named after a slug and carrying no id reads back with that
      slug as its id and as its title. */
  lemma SlugFileKeepsId(slug: string, data: Meta, today: string)
    requires Slug.IsSlug(slug)
    requires "id" !in data && "title" !in data
    ensures ParseArticle(slug + ".md", data, today).id == Str(slug)
    ensures ParseArticle(slug + ".md", data, today).title == Str(slug)
  {
    var f := slug + ".md";
    assert f[..|f| - 3] == slug;
    Slug.SlugifyFixpoints(slug);
  }

  /** Every file read, in order; `None` as soon as one cannot be read. */
  function ParseAll(names: seq<string>, dir: map<string, string>, matter: string -> Option<Meta>,
                    today: string): (r: Option<seq<ArticleMeta>>)
    requires forall n :: n in names ==> n in dir
    ensures r.Some? <==> forall i :: 0 <= i < |names| ==> matter(dir[names[i]]).Some?
    ensures r.Some? ==> |r.value| == |names|
    ensures r.Some? ==> forall i :: 0 <= i < |names| ==>
              r.value[i] == ParseArticle(names[i], matter(dir[names[i]]).value, today)
    decreases |names|
  {
    if |names| == 0 then Some([])
    else
      assert names[0] in names;
      var rest := names[1..];
      assert forall i :: 0 < i < |names| ==> names[i] == rest[i - 1];
      match matter(dir[names[0]])
      case None => None
      case Some(data) =>
        match ParseAll(rest, dir, matter, today)
        case None => None
        case Some(tail) => Some([ParseArticle(names[0], data, today)] + tail)
  }

  // ---------------------------------------------------------------------
  // Newest first, ties in the order given
  // ---------------------------------------------------------------------

  predicate DatesDescending(s: seq<ArticleMeta>) {
    forall i, j :: 0 <= i < j < |s| ==> LexLe(s[j].date, s[i].date)
  }

  predicate FilenamesAscending(s: seq<ArticleMeta>) {
    forall i, j :: 0 <= i < j < |s| ==> LexLt(s[i].filename, s[j].filename)
  }

  /** The entries dated `d`, in order. */
  function WithDate(s: seq<ArticleMeta>, d: string): (r: seq<ArticleMeta>)
    ensures forall a :: a in r ==> a in s && a.date == d
    decreases |s|
  {
    if |s| == 0 then []
    else (if s[0].date == d then [s[0]] else []) + WithDate(s[1..], d)
  }

  lemma {:induction false} WithDateAppend(a: seq<ArticleMeta>, b: seq<ArticleMeta>, d: string)
    ensures WithDate(a + b, d) == WithDate(a, d) + WithDate(b, d)
    decreases |a|
  {
    if |a| == 0 {
      assert a + b == b;
    } else {
      assert (a + b)[0] == a[0];
      assert (a + b)[1..] == a[1..] + b;
      WithDateAppend(a[1..], b, d);
    }
  }

  lemma {:induction false} WithDateNone(s: seq<ArticleMeta>, d: string)
    requires forall i :: 0 <= i < |s| ==> s[i].date != d
    ensures WithDate(s, d) == []
    decreases |s|
  {
    if |s| > 0 {
      WithDateNone(s[1..], d);
    }
  }

  lemma WithDateOne(x: ArticleMeta, d: string)
    ensures WithDate([x], d) == if x.date == d then [x] else []
  {
    assert [x][1..] == [];
  }

  /** Places `x` after every entry dated no earlier than it. */
  function Insert(x: ArticleMeta, s: seq<ArticleMeta>): (r: seq<ArticleMeta>)
    ensures |r| == |s| + 1
    ensures multiset(r) == multiset(s) + multiset{x}
    decreases |s|
  {
    if |s| == 0 then [x]
    else if LexLt(s[0].date, x.date) then [x] + s
    else
      assert s == [s[0]] + s[1..];
      [s[0]] + Insert(x, s[1..])
  }

  /** `articles.sort((a, b) => b.date.localeCompare(a.date))`: a stable
      sort, newest first. */
  function SortByDateDesc(s: seq<ArticleMeta>): (r: seq<ArticleMeta>)
    ensures |r| == |s|
    ensures multiset(r) == multiset(s)
    decreases |s|
  {
    if |s| == 0 then []
    else
      assert s == s[..|s| - 1] + [s[|s| - 1]];
      Insert(s[|s| - 1], SortByDateDesc(s[..|s| - 1]))
  }

  lemma DateBelowFirst(s: seq<ArticleMeta>, j: nat)
    requires DatesDescending(s) && j < |s|
    ensures LexLe(s[j].date, s[0].date)
  {
    if j == 0 {
      LexLeReflexive(s[0].date);
    }
  }

  lemma {:induction false} InsertDescending(x: ArticleMeta, s: seq<ArticleMeta>)
    requires DatesDescending(s)
    ensures DatesDescending(Insert(x, s))
    decreases |s|
  {
    if |s| == 0 {
    } else if LexLt(s[0].date, x.date) {
      forall j | 0 <= j < |s| ensures LexLe(s[j].date, x.date) {
        DateBelowFirst(s, j);
        LexLeTransitive(s[j].date, s[0].date, x.date);
      }
      DescendingCons(x, s);
    } else {
      var t := Insert(x, s[1..]);
      DescendingTail(s);
      InsertDescending(x, s[1..]);
      LexLeTotal(x.date, s[0].date);
      assert LexLe(x.date, s[0].date) by {
        if x.date == s[0].date {
          LexLeReflexive(x.date);
        }
      }
      forall j | 0 <= j < |t| ensures LexLe(t[j].date, s[0].date) {
        assert t[j] in multiset(t);
        if t[j] != x {
          assert t[j] in multiset(s[1..]);
          BelowFirst(s, t[j]);
        }
      }
      DescendingCons(s[0], t);
    }
  }

  lemma DescendingTail(s: seq<ArticleMeta>)
    requires |s| > 0 && DatesDescending(s)
    ensures DatesDescending(s[1..])
  {
    var rest := s[1..];
    forall i, j | 0 <= i < j < |rest| ensures LexLe(rest[j].date, rest[i].date) {
      assert rest[i] == s[i + 1] && rest[j] == s[j + 1];
    }
  }

  lemma BelowFirst(s: seq<ArticleMeta>, a: ArticleMeta)
    requires |s| > 0 && DatesDescending(s) && a in s[1..]
    ensures LexLe(a.date, s[0].date)
  {
    var k :| 0 <= k < |s[1..]| && s[1..][k] == a;
    DateBelowFirst(s, k + 1);
  }

  lemma DescendingCons(x: ArticleMeta, w: seq<ArticleMeta>)
    requires DatesDescending(w)
    requires forall j :: 0 <= j < |w| ==> LexLe(w[j].date, x.date)
    ensures DatesDescending([x] + w)
  {
    var r := [x] + w;
    forall i, j | 0 <= i < j < |r| ensures LexLe(r[j].date, r[i].date) {
      if i == 0 {
        assert r[j] == w[j - 1];
      } else {
        assert r[i] == w[i - 1] && r[j] == w[j - 1];
      }
    }
  }

  /** The sorted list is newest first. */
  lemma {:induction false} SortDescending(s: seq<ArticleMeta>)
    ensures DatesDescending(SortByDateDesc(s))
    decreases |s|
  {
    if |s| > 0 {
      SortDescending(s[..|s| - 1]);
      InsertDescending(s[|s| - 1], SortByDateDesc(s[..|s| - 1]));
    }
  }

  /** Inserting into a sorted list puts `x` after every entry of its date. */
  lemma {:induction false} InsertStable(x: ArticleMeta, s: seq<ArticleMeta>, d: string)
    requires DatesDescending(s)
    ensures WithDate(Insert(x, s), d) == WithDate(s, d) + (if x.date == d then [x] else [])
    decreases |s|
  {
    if |s| == 0 {
    } else if LexLt(s[0].date, x.date) {
      var r := [x] + s;
      assert r[1..] == s;
      if x.date == d {
        forall i | 0 <= i < |s| ensures s[i].date != d {
          DateBelowFirst(s, i);
          LexLeAntisymmetric(s[0].date, x.date);
          LexLeTransitive(x.date, s[i].date, s[0].date);
        }
        WithDateNone(s, d);
      }
    } else {
      var t := Insert(x, s[1..]);
      var r := [s[0]] + t;
      assert r[1..] == t;
      assert DatesDescending(s[1..]) by {
        forall i, j | 0 <= i < j < |s[1..]| ensures LexLe(s[1..][j].date, s[1..][i].date) {
          assert s[1..][i] == s[i + 1] && s[1..][j] == s[j + 1];
        }
      }
      InsertStable(x, s[1..], d);
    }
  }

  /** Stability: the entries of any one date keep their input order. */
  lemma {:induction false} SortStable(s: seq<ArticleMeta>, d: string)
    ensures WithDate(SortByDateDesc(s), d) == WithDate(s, d)
    decreases |s|
  {
    if |s| > 0 {
      var init, x := s[..|s| - 1], s[|s| - 1];
      SortStable(init, d);
      assert s == init + [x];
      StableStep(init, x, d);
    }
  }

  lemma StableStep(init: seq<ArticleMeta>, x: ArticleMeta, d: string)
    requires WithDate(SortByDateDesc(init), d) == WithDate(init, d)
    ensures WithDate(SortByDateDesc(init + [x]), d) == WithDate(init + [x], d)
  {
    var s := init + [x];
    assert s[..|s| - 1] == init;
    var sorted := SortByDateDesc(init);
    var tail := if x.date == d then [x] else [];
    assert SortByDateDesc(s) == Insert(x, sorted);
    assert WithDate(Insert(x, sorted), d) == WithDate(sorted, d) + tail by {
      SortDescending(init);
      InsertStable(x, sorted, d);
    }
    assert WithDate(s, d) == WithDate(init, d) + tail by {
      WithDateAppend(init, [x], d);
      WithDateOne(x, d);
    }
  }

  /** Keeping the entries of one date keeps them in filename order. */
  lemma {:induction false} WithDateAscending(s: seq<ArticleMeta>, d: string)
    requires FilenamesAscending(s)
    ensures FilenamesAscending(WithDate(s, d))
    decreases |s|
  {
    if |s| > 0 {
      var rest := s[1..];
      AscendingTail(s);
      WithDateAscending(rest, d);
      var w := WithDate(rest, d);
      if s[0].date == d {
        forall j | 0 <= j < |w| ensures LexLt(s[0].filename, w[j].filename) {
          HeadBelowRest(s, w[j]);
        }
        AscendingCons(s[0], w);
        assert WithDate(s, d) == [s[0]] + w;
      } else {
        assert WithDate(s, d) == w;
      }
    }
  }

  lemma AscendingTail(s: seq<ArticleMeta>)
    requires |s| > 0 && FilenamesAscending(s)
    ensures FilenamesAscending(s[1..])
  {
    var rest := s[1..];
    forall i, j | 0 <= i < j < |rest| ensures LexLt(rest[i].filename, rest[j].filename) {
      assert rest[i] == s[i + 1] && rest[j] == s[j + 1];
    }
  }

  lemma HeadBelowRest(s: seq<ArticleMeta>, a: ArticleMeta)
    requires |s| > 0 && FilenamesAscending(s) && a in s[1..]
    ensures LexLt(s[0].filename, a.filename)
  {
    var k :| 0 <= k < |s[1..]| && s[1..][k] == a;
    assert s[k + 1] == a;
  }

  lemma AscendingCons(x: ArticleMeta, w: seq<ArticleMeta>)
    requires FilenamesAscending(w)
    requires forall j :: 0 <= j < |w| ==> LexLt(x.filename, w[j].filename)
    ensures FilenamesAscending([x] + w)
  {
    var r := [x] + w;
    forall i, j | 0 <= i < j < |r| ensures LexLt(r[i].filename, r[j].filename) {
      if i == 0 {
        assert r[j] == w[j - 1];
      } else {
        assert r[i] == w[i - 1] && r[j] == w[j - 1];
      }
    }
  }

  // ---------------------------------------------------------------------
  // The whole catalog
  // ---------------------------------------------------------------------

  /** `buildArticleList`: every article file read and sorted newest
      first. `None` when the directory is missing or a file's metadata
      cannot be read; the failure is not caught here. */
  function BuildArticleList(articles: Option<map<string, string>>, matter: string -> Option<Meta>,
                            today: string): (r: Option<seq<ArticleMeta>>)
    ensures articles.None? ==> r.None?
    ensures r.Some? ==> DatesDescending(r.value)
    ensures r.Some? ==> forall i :: 0 <= i < |r.value| ==>
              r.value[i].filename in articles.value && IsListed(r.value[i].filename)
  {
    match articles
    case None => None
    case Some(dir) => ReadCatalog(dir, matter, today)
  }

  /** The catalog of a directory that exists. */
  function ReadCatalog(dir: map<string, string>, matter: string -> Option<Meta>, today: string)
    : (r: Option<seq<ArticleMeta>>)
    ensures r.Some? ==> DatesDescending(r.value)
    ensures r.Some? ==> forall i :: 0 <= i < |r.value| ==>
              r.value[i].filename in dir && IsListed(r.value[i].filename)
  {
    var names := ListFiles(dir);
    match ParseAll(names, dir, matter, today)
    case None => None
    case Some(ps) =>
      SortDescending(ps);
      ParsedFromListed(names, dir, matter, today);
      SortedFromListed(ps, dir);
      Some(SortByDateDesc(ps))
  }

  /** Every parsed entry belongs to a listed file of the directory. */
  lemma ParsedFromListed(names: seq<string>, dir: map<string, string>, matter: string -> Option<Meta>,
                         today: string)
    requires forall n :: n in names <==> n in dir && IsListed(n)
    requires ParseAll(names, dir, matter, today).Some?
    ensures var ps := ParseAll(names, dir, matter, today).value;
            forall k :: 0 <= k < |ps| ==> ps[k].filename in dir && IsListed(ps[k].filename)
  {
    var ps := ParseAll(names, dir, matter, today).value;
    forall k | 0 <= k < |ps| ensures ps[k].filename in dir && IsListed(ps[k].filename) {
      assert ps[k].filename == names[k];
      assert names[k] in names;
    }
  }

  /** Sorting keeps every entry's file among the listed files. */
  lemma SortedFromListed(ps: seq<ArticleMeta>, dir: map<string, string>)
    requires forall k :: 0 <= k < |ps| ==> ps[k].filename in dir && IsListed(ps[k].filename)
    ensures forall i :: 0 <= i < |SortByDateDesc(ps)| ==>
              SortByDateDesc(ps)[i].filename in dir && IsListed(SortByDateDesc(ps)[i].filename)
  {
    var r := SortByDateDesc(ps);
    forall i | 0 <= i < |r| ensures r[i].filename in dir && IsListed(r[i].filename) {
      assert r[i] in multiset(ps);
      var k :| 0 <= k < |ps| && ps[k] == r[i];
    }
  }

  /** The catalog holds exactly the parsed files, newest first, and
      articles of one date stay in ascending filename order. */
  lemma CatalogOrder(dir: map<string, string>, matter: string -> Option<Meta>, today: string, d: string)
    requires BuildArticleList(Some(dir), matter, today).Some?
    ensures var names := ListFiles(dir);
            var ps := ParseAll(names, dir, matter, today);
            var r := BuildArticleList(Some(dir), matter, today).value;
            && ps.Some?
            && multiset(r) == multiset(ps.value)
            && WithDate(r, d) == WithDate(ps.value, d)
            && FilenamesAscending(WithDate(r, d))
  {
    var names := ListFiles(dir);
    var ps := ParseAll(names, dir, matter, today).value;
    SortStable(ps, d);
    assert FilenamesAscending(ps) by {
      forall i, j | 0 <= i < j < |ps| ensures LexLt(ps[i].filename, ps[j].filename) {
        assert ps[i].filename == names[i] && ps[j].filename == names[j];
      }
    }
    WithDateAscending(ps, d);
  }

  /** `list.find(a => a.id === id)` for an id taken from a URL: the
      position of the first entry whose id is that string. */
  function FindById(list: seq<ArticleMeta>, id: string): (r: Option<nat>)
    ensures r.None? <==> forall i :: 0 <= i < |list| ==> !IdIs(list[i], id)
    ensures r.Some? ==> r.value < |list| && IdIs(list[r.value], id)
    ensures r.Some? ==> forall i :: 0 <= i < r.value ==> !IdIs(list[i], id)
    decreases |list|
  {
    if |list| == 0 then None
    else if IdIs(list[0], id) then Some(0)
    else
      match FindById(list[1..], id)
      case None => None
      case Some(k) => Some(k + 1)
  }
}
