/**
 * The record shapes shared by the whole program: the metadata of one
 * article as listed in the catalog, and the site configuration with its
 * default.
 */
module Types {
  import opened Wrappers

  /** A front-matter value as the YAML reader hands it over: a string, a
      timestamp (a JavaScript `Date`, given by its `toISOString()` text and
      the text it shows when written into a template string), or any other
      value, given by the text it shows and whether JavaScript counts it as
      true (`0`, `false` and `NaN` do not). A key that is absent or `null`
      has no value at all. */
  datatype Value = Str(s: string) | Timestamp(iso: string, text: string) | Other(text: string, truthy: bool)

  /** `${v}`: the text a value shows in a template string. */
  function Shown(v: Value): (r: string)
    ensures v.Str? ==> r == v.s
  {
    match v
    case Str(s) => s
    case Timestamp(_, text) => text
    case Other(text, _) => text
  }

  /** Whether `v ? … : …` takes the first branch. */
  predicate Truthy(v: Value) {
    match v
    case Str(s) => s != ""
    case Timestamp(_, _) => true
    case Other(_, truthy) => truthy
  }

  /** The value after `JSON.stringify` and `JSON.parse`: a `Date` turns into
      its ISO text; strings and the other values come back as they were. */
  function JsonValue(v: Value): (r: Value)
    ensures !r.Timestamp?
    ensures v.Str? ==> r == v
  {
    match v
    case Timestamp(iso, _) => Str(iso)
    case _ => v
  }

  /** One catalog entry. The source declares `id`, `title`, `description`
      and `thumbnail` as strings, but they hold whatever value the YAML
      reader gave, since the declaration is only a cast; `date` is always a
      string and `thumbnail` is optional. */
  datatype ArticleMeta = ArticleMeta(
    id: Value,
    title: Value,
    date: string,
    description: Value,
    thumbnail: Option<Value>,
    filename: string)

  /** `a.id === id` for an id taken from a URL: only a string id can be
      equal to it. */
  predicate IdIs(a: ArticleMeta, id: string) {
    a.id == Str(id)
  }

  /** The entry as a page reads it back from the `articles.json` the build
      writes. */
  function JsonEntry(a: ArticleMeta): (r: ArticleMeta)
    ensures r.filename == a.filename && r.date == a.date
    ensures !r.id.Timestamp? && !r.title.Timestamp? && !r.description.Timestamp?
  {
    ArticleMeta(JsonValue(a.id), JsonValue(a.title), a.date, JsonValue(a.description),
                if a.thumbnail.Some? then Some(JsonValue(a.thumbnail.value)) else None, a.filename)
  }

  /** An entry whose id is a string keeps it through the JSON file, and a
      `Date` id comes back as its ISO text. */
  lemma JsonKeepsStringId(a: ArticleMeta, id: string)
    ensures IdIs(a, id) ==> IdIs(JsonEntry(a), id)
    ensures a.id.Timestamp? ==> IdIs(JsonEntry(a), a.id.iso)
    ensures a.id.Other? ==> !IdIs(JsonEntry(a), id)
  {
  }

  /** The four stylesheets a site can use. */
  datatype Theme = Guardian | Times | Tagesschau | Tech {
    /** The name the configuration file and the stylesheet path use. */
    function Name(): (r: string)
      ensures |r| > 0
    {
      match this
      case Guardian => "guardian"
      case Times => "times"
      case Tagesschau => "tagesschau"
      case Tech => "tech"
    }
  }

  const AllThemes: seq<Theme> := [Guardian, Times, Tagesschau, Tech]

  /** Theme names tell themes apart. */
  lemma ThemeNamesDistinct(a: Theme, b: Theme)
    ensures a.Name() == b.Name() <==> a == b
  {
  }

  datatype SiteConfig = SiteConfig(title: string, theme: Theme, description: string)

  /** The configuration used when none has been saved. */
  const DefaultConfig: SiteConfig := SiteConfig("NewsPage", Tech, "A dynamic news page")
}
