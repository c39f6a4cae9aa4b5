# NewsPage content pipeline in Dafny

NewsPage is a small static news site generator. Articles are Markdown files
in `articles/`, each with a YAML front matter block (`id`, `title`, `date`,
`description`, `thumbnail`). A catalog of them (`articles.json`) is built
newest first. The site is generated into an output directory. A development
server offers a JSON API for the browser editor. Two terminal commands and a
Flavortown importer write article files, and a browser page shows one
article.

This project models that pipeline as pure Dafny functions over immutable
values and proves properties about it. Each module follows one source file:

| module | source |
|---|---|
| `Frontmatter`, `FrontmatterLaws`, `FrontmatterRoundTrip` | the editor's front matter reader and writer, and the title-to-id sync (`src/frontend/editor.ts`) |
| `Slug` | `slugify`. The same text appears in `src/frontend/editor.ts`, `src/lib/articles.ts` and `flavortown.ts`, and `slugify2` only forwards to it, so it is defined once. |
| `Catalog`, `Skeleton` | `src/lib/articles.ts`: listing, parsing and sorting the articles, and the skeleton of a new article |
| `Build` | `src/lib/build.ts`: the site build, with output paths as a datatype (`OutPath`) |
| `Serve` | `src/commands/serve.ts`: the API routes and the static file server over a working tree value |
| `ArticleCommands` | `src/commands/articles.ts`: `refresh`, `add`, `remove` |
| `Viewer` | `src/frontend/article.ts`: the article page |
| `ConfigWizard` | `src/commands/config.ts` |
| `Ui` | `src/lib/ui.ts`: `pickOrDefault` and the arrow-key picker as a state machine |
| `Flavortown` | `flavortown.ts`: rendering imported projects to article files |
| `Types` | `src/types.ts` |
| `Wrappers`, `Text` | `Option`/`Result`, and the JavaScript string operations the code uses (`trim`, `split`, `indexOf`, `replace`, `replaceAll` with its `$` patterns, `String(n)`) |

The following are parameters of the model, not models of their own:

- YAML reading (`gray-matter`): a function from text to an optional key/value map, where `None` is a parse error that throws.
- `extractUploadedImages`: a function from text to the `/uploads/...` references.
- `decodeURIComponent`: a function from a segment to an optional string.
- Today's date, the fresh upload name (`crypto.randomUUID()`), the install templates, and whether the bundler succeeded.

A front matter value is a string, a timestamp (YAML reads an unquoted date as a `Date`), or some other value such as a number or a boolean (`Types.Value`). Lookups compare an id with `===` against a string from a URL or a command line, so only a string id can match.

Two behaviours of the code worth noting:

- A file whose front matter cannot be read makes the whole catalog fail (`Promise.all` rejects). It is not skipped.
- Creating an article through the API overwrites an existing file of the same slug. There is no existence check.

## Model

| member | source | states |
|---|---|---|
| Frontmatter.OpenLength | src/frontend/editor.ts:16 | The opening fence is `---\n` (4 characters) or `---\r\n` (5), and nothing else. |
| Frontmatter.CloseOffset | src/frontend/editor.ts:16 | The lazy block match stops at the earliest closing fence. Any offset returned is a closing fence and none comes before it. No result means no closing fence anywhere. |
| Frontmatter.MatchFrontmatter | src/frontend/editor.ts:16-18 | The text matches exactly when it opens with a fence and a closing fence follows. The body is always a suffix of the text. |
| Frontmatter.StripQuotes | src/frontend/editor.ts:27-29 | A value quoted by `"` or `'` loses exactly one character at each end. Nothing is unescaped. Any other value is kept. |
| Frontmatter.LineEntry | src/frontend/editor.ts:22-29 | A line without a colon contributes nothing. Otherwise the key is the trimmed text before the first colon. |
| Frontmatter.Assign | src/frontend/editor.ts:30-35 | A known key overwrites its field and leaves `extra` alone. Any other key is appended to `extra`. |
| Frontmatter.Parse | src/frontend/editor.ts:15-38 | Text without the fenced shape gives empty fields and the whole text as body. The body is always a suffix of the input. |
| Frontmatter.Escape | src/frontend/editor.ts:42 | Escaping never shortens a value. The length is unchanged exactly when the value holds no `\` and no `"`. |
| Frontmatter.EscapeIdentity | src/frontend/editor.ts:42 | Escaping changes a value if and only if it holds `\` or `"`. |
| Frontmatter.EscapeIsTwoPasses | src/frontend/editor.ts:42 | The program's two `replace` passes (backslashes first, then quotes) equal the one-pass escape. |
| Frontmatter.QuoteIfNeeded | src/frontend/editor.ts:41-42 | A value with a YAML-special character is escaped and put in double quotes. Any other value is written unchanged. |
| Frontmatter.Serialize | src/frontend/editor.ts:40-53 | The saved text opens with the fence and ends with the closing fence, a blank line and the body without its leading line feeds. |
| Frontmatter.StripLeadingNewlines | src/frontend/editor.ts:52 | The result is a suffix of the body and does not start with a line feed. |
| Frontmatter.SyncIdFromTitle | src/frontend/editor.ts:257-260 | Typing a title makes the id a slug and changes no other field. |
| Frontmatter.SyncIdIdempotent | src/frontend/editor.ts:257-260 | Re-deriving the id twice gives the same form as doing it once. |
| FrontmatterLaws.ApplyLinesField | src/frontend/editor.ts:22-34 | After reading the block lines, each known field holds the value of the last line with its key, or its earlier value when no line has that key. |
| FrontmatterLaws.ApplyLinesExtra | src/frontend/editor.ts:35 | Lines with unknown keys are appended to `extra` in source order. |
| Frontmatter.ApplyLines | src/frontend/editor.ts:22-35 | Reading the block's lines keeps the entries already in `extra` first and adds at most one entry per line. |
| FrontmatterLaws.ParseReads | src/frontend/editor.ts:15-38 | For a document whose block is found, the fields and extras are those of the block's lines, and the body is the matched tail. |
| FrontmatterLaws.KeyLineEntry | src/frontend/editor.ts:23-29 | A line `key: value` reads back as its key and its trimmed, unquoted value, whatever colons the value holds. |
| FrontmatterRoundTrip.ValueReadBack | src/frontend/editor.ts:26-29 | A value written by the writer reads back as the value itself, or as its escaped form when it was quoted. |
| FrontmatterRoundTrip.WrittenValueShape | src/frontend/editor.ts:41-42 | A written value holds no line feed and, if non-empty, ends with a non-space character. |
| FrontmatterRoundTrip.CloseAfterLines | src/frontend/editor.ts:16 | The closing fence the writer appends is the first one the reader finds. |
| FrontmatterRoundTrip.EmittedLinesApply | src/frontend/editor.ts:44-50 | Reading the lines the writer emits gives back every non-empty field and every extra entry, in order. |
| FrontmatterRoundTrip.MatchSerialized | src/frontend/editor.ts:44-52 | The writer's output has the fenced shape. Its block is the emitted lines joined, and its body is one line feed followed by the body without leading line feeds. |
| FrontmatterRoundTrip.ParseSerialize | src/frontend/editor.ts:15-53 | Loading what was saved returns every field and extra entry (quoted values keep their escapes). The body comes back with one line feed before it and its own leading line feeds removed. |
| FrontmatterRoundTrip.RoundTrip | src/frontend/editor.ts:15-53 | Front matter whose values hold nothing to escape survives a save and a load unchanged. The body comes back with one line feed before it and its own leading line feeds removed. |
| FrontmatterRoundTrip.SerializeIdempotent | src/frontend/editor.ts:40-53 | Saving, loading and saving again produces the same text as the first save. |
| FrontmatterRoundTrip.EscapesAccumulate | src/frontend/editor.ts:42 | Escapes are never undone on load, so a title with a double quote grows with every save and load. |
| Slug.KeepSlugChars | src/frontend/editor.ts:88 | Only lower-case letters, digits, white space and hyphens are left. A kept first or last character stays first or last. |
| Slug.SpacesToHyphens | src/frontend/editor.ts:90 | No white space is left. A non-space first or last character stays in place. |
| Slug.SqueezeHyphens | src/frontend/editor.ts:91 | No two hyphens are left in a row. The first and last characters are kept. |
| Slug.Slugify | src/frontend/editor.ts:85-92 | The result is always a slug: lower-case letters, digits and single hyphens. |
| Slug.SlugifyFixpoints | src/frontend/editor.ts:85-92 | `Slugify(s) == s` exactly when `s` is a slug. |
| Slug.SlugifyIdempotent | src/frontend/editor.ts:85-92 | Slugifying twice is the same as slugifying once. |
| Slug.SlugifyKeepsLeadingHyphen | src/frontend/editor.ts:89-91 | Leading hyphens are not trimmed: a text that starts with `-` gives a slug that starts with `-`. |
| Slug.SlugifyKeepsTrailingHyphen | src/frontend/editor.ts:89-91 | Trailing hyphens survive too. |
| Slug.SlugifyKeepsEdgeHyphens | src/frontend/editor.ts:89-91 | `-a` and `a-` are already slugs and come back unchanged, edge hyphens included. |
| Slug.SlugifyExample | src/frontend/editor.ts:85-92 | `"Hello, World! 2024"` becomes `"hello-world-2024"`. |
| Slug.WordsToHyphens | src/frontend/editor.ts:89-90 | Three words separated by blanks are joined by hyphens. |
| Catalog.Least | src/lib/articles.ts:23 | Returns the least name of a non-empty set in code-point order. |
| Catalog.SortedNames | src/lib/articles.ts:23 | Lists every name of the set exactly once, in strictly ascending order. |
| Catalog.AscendingUnique | src/lib/articles.ts:20-23 | Two ascending lists of the same names are equal, so the order does not depend on how the directory was read. |
| Catalog.ListFiles | src/lib/articles.ts:16-24 | The result holds exactly the directory's names that `*.md` matches (ending in `.md`, not hidden, no `/`), in ascending order. |
| Catalog.IsListed | src/lib/articles.ts:18 | A listed name is a non-empty stem followed by `.md`. The glob skips hidden names, so `.md` itself is not listed. |
| Catalog.HiddenFileUnlisted | src/lib/articles.ts:18 | A name starting with `.` is never listed, because the glob's `*` does not match a leading dot. |
| Catalog.SlugFileListed | src/lib/articles.ts:18 | A non-empty slug followed by `.md` is listed and its stem is the slug. |
| Catalog.SlugFile | src/lib/articles.ts:18 | A slug followed by `.md` is listed exactly when the slug is not empty, and then its stem is the slug. |
| Catalog.Stem | src/lib/articles.ts:31 | A `.md` name loses exactly that suffix. Any other name is kept. |
| Catalog.DateOf | src/lib/articles.ts:34-40 | A timestamp gives exactly its first ten characters, or the whole text when it is shorter. A string date is kept as written. Anything else, or no date, gives today. |
| Catalog.ParseArticle | src/lib/articles.ts:26-45 | The id is the front matter value as YAML read it (string, date or other), else the slug of the stem. The title defaults to the id, the description to the empty string, and the thumbnail is taken if present. The filename is kept. |
| Catalog.SlugFileKeepsId | src/lib/articles.ts:31-32 | A file named after a slug with no id and no title gets that slug as both. |
| Catalog.OnlyStringIdsFound | src/lib/articles.ts:30-31 | An entry whose front matter id is a number, a boolean or a date never has a given string as its id, so `===` lookups never find it. |
| Catalog.ParseAll | src/lib/articles.ts:49 | Fails exactly when some file's front matter cannot be read. Otherwise entry `i` is file `i` parsed. |
| Catalog.Insert | src/lib/articles.ts:50 | Adds `x` to the list, keeping every other entry. |
| Catalog.SortByDateDesc | src/lib/articles.ts:50 | The result is a permutation of the input. |
| Catalog.SortDescending | src/lib/articles.ts:50 | The sorted list is newest first. |
| Catalog.InsertStable | src/lib/articles.ts:50 | Inserting into a sorted list places `x` after every entry with its date. |
| Catalog.SortStable | src/lib/articles.ts:50 | The sort is stable: the entries of any one date keep their input order. |
| Catalog.WithDateAscending | src/lib/articles.ts:23 | Entries of one date taken from a filename-ordered list stay in filename order. |
| Catalog.BuildArticleList | src/lib/articles.ts:47-51 | A missing directory fails. A built catalog is newest first and lists only `*.md` files of the directory. |
| Catalog.CatalogOrder | src/lib/articles.ts:47-51 | The catalog is a permutation of the parsed files, newest first. Articles of one date stay in ascending filename order. |
| Catalog.FindById | src/commands/serve.ts:58 | Returns the first entry whose id is the given string, or none exactly when no entry has it. |
| Skeleton.GenerateFrontmatter | src/lib/articles.ts:58-62 | A new article is a fenced block of four header lines (the title's slug as id, the quoted title, today's date, the quoted description), a blank line, the heading and the placeholder. |
| Skeleton.QuotedReadsBack | src/lib/articles.ts:61 | A value written in double quotes reads back in the editor as the text between the quotes. |
| Skeleton.SlugReadsBack | src/lib/articles.ts:61 | A slug written unquoted reads back as itself. |
| Skeleton.SkeletonLinesGood | src/lib/articles.ts:61 | With single-line title and description, the header lines never contain the closing fence. |
| Skeleton.SkeletonParses | src/lib/articles.ts:58-62 | The editor opens a new article with the title's slug as id, the title, today's date and the description, no extra keys, and the heading and placeholder as body. |
| Types.ThemeNamesDistinct | src/types.ts:12 | Two themes have the same name exactly when they are the same theme. |
| Types.JsonValue | src/lib/articles.ts:53-56 | Writing a value to JSON turns a date into its ISO text and keeps a string as it is. |
| Types.JsonKeepsStringId | src/lib/articles.ts:53-56 | An entry written to `articles.json` keeps a string id, a date id becomes its ISO text, and a number or boolean id never equals a string. |
| Text.Trim | src/commands/config.ts:11 | Returns an infix that is empty or starts and ends with a non-space character. Everything cut away is white space. |
| Text.Split | src/frontend/editor.ts:22 | Returns at least one piece. No piece holds the separator, and joining the pieces gives the text back. |
| Text.SplitJoin | src/commands/serve.ts:37 | Splitting undoes joining when no piece holds the separator. |
| Text.IndexOf | src/frontend/editor.ts:23 | Returns the first position of the character, or none exactly when it is absent. |
| Text.LastIndexOf | src/commands/serve.ts:139 | Returns the last position of the character, or none exactly when it is absent. |
| Text.ReplaceFirst | src/commands/serve.ts:37 | Replaces only the first occurrence of the pattern. |
| Text.JsReplaceAllLiteral | src/lib/build.ts:15 | Without `$` in the value, JavaScript's `replaceAll` is a literal replacement. |
| Text.NatToString | flavortown.ts:98 | `String(n)` is decimal digits without leading zeros. |
| Text.NatToStringValue | flavortown.ts:98 | Reading the decimal text back gives the number. |
| Build.Placeholder | src/lib/build.ts:15 | `{{KEY}}` is the key with two braces on each side. |
| Build.ProcessHtml | src/lib/build.ts:12-18 | The literal reference definition that `ProcessHtmlAsWritten` and `PagesWithoutDollar` are measured against: every value inserted literally, key by key in the map's order. Its own contract states only that a template without any of the placeholders is returned unchanged, including any other `{{...}}` text. |
| Build.ProcessHtmlAsWritten | src/lib/build.ts:12-18 | The page as `replaceAll` with a string value writes it. For values without `$`, it equals the page with values inserted literally. |
| Build.LaterStepFillsEarlierValue | src/lib/build.ts:14-16 | Replacement is sequential: a site title `{{THEME}}` ends up showing the theme's name. |
| Build.PagesWithoutDollar | src/lib/build.ts:12-18 | With a site title and description free of `$`, the built pages are the templates with every value inserted literally. |
| Build.DollarTitleAltered | src/lib/build.ts:15 | With the title `$$`, the page as written shows `$`, while literal insertion shows `$$`. |
| Build.ThemeNamed | src/lib/build.ts:58-61 | A theme is found for a name only when the name is that theme's. |
| Build.ParsePathText | src/lib/build.ts:52-83 | Every output path reads back from its text, so distinct outputs never share a file name. |
| Build.TextParsePath | src/lib/build.ts:52-83 | A text that reads as a path is that path's text. |
| Build.WrittenPaths | src/lib/build.ts:44-84 | A path is written exactly when it is a fixed output, an upload, or a catalog article's file. |
| Build.StylesheetsFixed | src/lib/build.ts:58-61 | All four theme stylesheets are among the outputs every build writes. |
| Build.BuildSite | src/lib/build.ts:20-87 | A catalog failure fails the build. A bundler failure fails it with "Frontend build failed" and writes nothing. Otherwise the outputs are laid over the old output directory. |
| Build.BuildOutputs | src/lib/build.ts:27-84 | A successful build writes both pages with their placeholders replaced as `replaceAll` does (`$` patterns expanded), the bundler's `js/index.js` and `js/article.js`, the four stylesheets, the configuration, and the catalog in its order. Every upload and every catalog article's source is copied. Any old output at another path is kept. |
| Build.WrittenContent | src/lib/build.ts:27-84 | Each written path holds that path's content: the two bundled scripts, the pages, stylesheets, JSON files, uploads and article sources. The write map holds no other path. |
| Serve.SegmentsOfApiPath | src/commands/serve.ts:37 | Under `/api/`, the segments are the rest of the path split at `/`, and joining them gives it back. |
| Serve.HandleApi | src/commands/serve.ts:36-153 | Every answer is 200, 400, 404 or 500. A request no route takes answers 404 and changes nothing. Only PUT, POST and DELETE change the working tree: articles only through the article routes, uploads only through delete and upload, the output only through generate. |
| Serve.ListArticles | src/commands/serve.ts:41-52 | Always answers 200: the catalog, or an empty list when it cannot be built. |
| Serve.Target | src/commands/serve.ts:55-59 | An article is targeted exactly when the id decodes, the catalog builds and some entry has that string as id. The target is then the first such entry; an entry with a non-string id is never targeted. |
| Serve.GetArticle | src/commands/serve.ts:55-62 | Answers the raw text of the targeted article's file, or the failure of the lookup. |
| Serve.PutArticle | src/commands/serve.ts:65-73 | Replaces exactly the targeted file by the content as sent and changes nothing else. A failed lookup changes nothing. |
| Serve.PutThenGet | src/commands/serve.ts:55-73 | After saving text whose front matter reads the same, reading the article gives back exactly the saved text. |
| Serve.SameMetadataSameCatalog | src/commands/serve.ts:71 | Replacing a file by text with the same front matter leaves the catalog unchanged. |
| Serve.CreateArticle | src/commands/serve.ts:76-86 | A missing or empty title answers 400. Otherwise the skeleton is written to `<slug>.md`, even if that file exists, and the slug is answered. |
| Serve.CreatedIsListed | src/commands/serve.ts:79-84 | The created file is `<id>.md` for the answered id. The catalog lists it exactly when the id is not empty (an empty slug writes the hidden `.md`). Every other article file is unchanged. |
| Serve.UsedBy | src/commands/serve.ts:98-103 | Collects exactly the references found in the given files. |
| Serve.KeepUnused | src/commands/serve.ts:107 | Every reference not in the used set is kept as often as it occurs, and every used one is dropped. |
| Serve.OrphansAsWritten | src/commands/serve.ts:98-107 | As written, the orphans are references of the deleted file only, at most as many as it holds, with entries of the same id not protecting anything. |
| Serve.OrphansAsWrittenExact | src/commands/serve.ts:98-107 | As written, a reference that an entry with a different id holds is never an orphan. A reference that no such entry holds is one, as often as the deleted file mentions it. |
| Serve.Orphans | src/commands/serve.ts:96-97 | The corrected orphans are references of the deleted file only, at most as many as it holds. |
| Serve.OrphansExact | src/commands/serve.ts:96-107 | With the corrected list, no reference held by another article file is an orphan. A reference only the deleted file holds is an orphan, as often as that file mentions it. |
| Serve.SharedIdLosesImage | src/commands/serve.ts:98-107 | As written, an image shared with another file of the same id is an orphan although that file still uses it. The corrected list keeps it. |
| Serve.UploadKeyInjective | src/commands/serve.ts:115 | Two `/uploads/` references with the same key are the same reference. |
| Serve.RemoveUploads | src/commands/serve.ts:113-117 | Removes exactly the named uploads and keeps the bytes of all others. A missing directory is no error. |
| Serve.DeleteArticle | src/commands/serve.ts:89-120 | A failed lookup answers its error and changes nothing. Otherwise the targeted file is removed, then the uploads the as-written orphan list names, and the answer counts that list with its repeats. The output is untouched. |
| Serve.DeleteArticleCorrected | src/commands/serve.ts:89-120 | The same delete with the corrected orphan list: only uploads no other article file uses are removed. |
| Serve.DeleteRemovesOnlyTheArticle | src/commands/serve.ts:106-110 | After a delete, the targeted file is gone and every other article file is as it was. |
| Serve.DeleteKeepsShared | src/commands/serve.ts:96-117 | An upload that a catalog file with a different id refers to survives the delete with the same bytes. |
| Serve.DeleteRemovesOrphan | src/commands/serve.ts:105-117 | An upload the deleted article refers to and no entry with a different id refers to is removed. |
| Serve.DeleteCorrectedKeepsShared | src/commands/serve.ts:96-117 | With the corrected list, an upload any other catalog file refers to survives with the same bytes. |
| Serve.SharedIdDeleteLosesImage | src/commands/serve.ts:98-117 | As written, deleting one of two files with the same id removes an image the other still uses. The corrected delete keeps it. |
| Serve.Generate | src/commands/serve.ts:123-130 | A successful build answers 200 and replaces the output. A failed build answers 500 with its message and keeps the old output. |
| Serve.Extension | src/commands/serve.ts:139 | A name without a dot gives no extension. Otherwise the extension is the lower-cased tail from the last dot, with no other dot and no capital letter. |
| Serve.UploadFile | src/commands/serve.ts:133-150 | A form without a file answers 400. Otherwise the bytes are stored under the fresh name plus the extension, that URL is answered, and nothing else changes. |
| Serve.ServeStatic | src/commands/serve.ts:155-162 | The reply is a stored output or the plain-text 404. |
| Serve.Fetch | src/commands/serve.ts:190-227 | Only `/api/` requests reach the API, and no other request changes the working tree. |
| Serve.UploadThenFetch | src/commands/serve.ts:213-216 | An uploaded file is served back byte for byte when the request path is the answered URL text as it stands. |
| Serve.ServedFromDist | src/commands/serve.ts:224-226 | Outside the live routes, a build output's path serves that output, or the plain-text 404 when it is missing. |
| Serve.RootIsIndex | src/commands/serve.ts:225 | `/` serves the built `index.html`. |
| Serve.EditorRoutes | src/commands/serve.ts:201-206 | `/editor` and `/editor/` answer the editor page whatever the output directory holds. |
| Serve.LiveSourceFirst | src/commands/serve.ts:219-222 | A live `/articles/<f>.md` file is served from the working tree, before any built copy. |
| Serve.LiveMissFallsBack | src/commands/serve.ts:213-226 | An upload or article path the working tree does not answer falls back to the build output, or to the plain-text 404. |
| ArticleCommands.Refresh | src/commands/articles.ts:14-20 | A catalog failure is not caught. Otherwise prints a count line and one line per entry, in catalog order. |
| ArticleCommands.TitleFromId | src/commands/articles.ts:27 | Every hyphen becomes a space and every other character is kept. |
| ArticleCommands.CleanIdRoundTrip | src/commands/articles.ts:27-48 | The title derived from a clean id slugifies back to that id. |
| ArticleCommands.Add | src/commands/articles.ts:22-64 | An empty title is refused and an existing file is never overwritten. Otherwise the skeleton is written to `<slug>.md`. |
| ArticleCommands.AddOnlyAdds | src/commands/articles.ts:53-62 | A successful `add` keeps every earlier file with its text and adds exactly one new file. |
| ArticleCommands.AddCleanId | src/commands/articles.ts:25-63 | `add <id>` for a clean id creates exactly `<id>.md`. |
| ArticleCommands.ScanFrom | src/commands/articles.ts:80-91 | The scan stops at the first file named by the id, by file name or by its front matter id. A file whose front matter cannot be read ends the command. |
| ArticleCommands.Remove | src/commands/articles.ts:66-100 | Without an id, prints the usage error. When nothing matches, "not found" and no change. |
| ArticleCommands.RemoveFirstMatch | src/commands/articles.ts:78-98 | Deletes exactly the first listed file the id names and keeps every other file. When none matches, nothing changes. |
| ArticleCommands.FirstStopOrCrash | src/commands/articles.ts:80-91 | If the scan finds nothing, every file that would stop it lies behind a file whose front matter cannot be read. |
| ArticleCommands.Articles | src/commands/articles.ts:102-117 | Dispatches `refresh`, `add` and `remove`. Any other action is the "Unknown action" error with nothing changed. |
| Viewer.StripFrontmatter | src/frontend/article.ts:30-32 | The result is a suffix of the text. Text that does not start with `---`, or has no later `---`, is kept whole. |
| Viewer.StripClosedHeader | src/frontend/article.ts:31 | A header without three dashes is dropped together with its closing run and one line feed. |
| Viewer.DashesInValueEndHeader | src/frontend/article.ts:31 | Three dashes inside a header value end the header early, and the viewer shows the rest of the value, the closing run and the body. |
| Viewer.SkeletonHeaderNoFence | src/frontend/article.ts:31 | The header of a new article whose title, description and date hold no dash holds no three dashes. |
| Viewer.SkeletonShowsBody | src/frontend/article.ts:31 | Such a new article shows exactly its heading and placeholder, after one line feed. |
| Viewer.ViewArticle | src/frontend/article.ts:34-79 | No or an empty id shows "No article ID specified." and fetches nothing. A shown article is the first entry with the id, its source is fetched from `./articles/<filename>`, and the document title is the article title and site title. |
| Viewer.UnknownIdNotFound | src/frontend/article.ts:50-54 | An id no entry has shows the not-found message, fetches no source and keeps the document title. |
| Viewer.NonStringIdNeverShown | src/frontend/article.ts:50 | An entry whose id is a number or a boolean in `articles.json` is never the one the page shows. A shown article is the first entry whose id is the query string itself: its source is fetched and its title is the heading. |
| Viewer.OptionalParts | src/frontend/article.ts:63-72 | A banner is shown exactly when the thumbnail is present and truthy in JavaScript, and a description exactly when it is truthy; each shows its value as text. |
| Viewer.NewArticleView | src/frontend/article.ts:57-60 | A new article in the catalog shows its heading and placeholder under the title of the article and the site. |
| Ui.PickOrDefault | src/lib/ui.ts:66-68 | Returns the input when it is non-empty, else the fallback. |
| Ui.PickIdempotent | src/lib/ui.ts:66-68 | Picking again with the same fallback changes nothing, and an empty answer keeps the fallback. |
| Ui.PickEmpty | src/lib/ui.ts:66-68 | The answer is empty exactly when both the input and the fallback are. |
| Ui.KeyOf | src/lib/ui.ts:105-124 | `\r` and `\n` are Enter. Any chunk other than the four known keys is ignored. |
| Ui.FirstIndex | src/lib/ui.ts:80 | Returns the first position of the item, or none exactly when it is absent. |
| Ui.InitialIndex | src/lib/ui.ts:80 | The highlight starts on the default's first position, or at the top when the default is not listed. |
| Ui.Above | src/lib/ui.ts:107 | Up moves one place up, and from the top wraps to the bottom. |
| Ui.Below | src/lib/ui.ts:110 | Down moves one place down, and from the bottom wraps to the top. |
| Ui.UpDownInverse | src/lib/ui.ts:106-111 | Up undoes Down and Down undoes Up. |
| Ui.DownsWrap | src/lib/ui.ts:109-111 | Up to a full lap, `k` Down presses move the highlight `k` places, wrapping once past the end. |
| Ui.FullLap | src/lib/ui.ts:109-111 | As many Down presses as items bring the highlight back to where it started. |
| Ui.Step | src/lib/ui.ts:105-124 | Enter resolves with the highlighted item. An ignored key changes nothing. A resolved or exited picker stays as it is, and the highlight stays on the list. |
| Ui.Run | src/lib/ui.ts:127 | After any input, the highlight stays on the list and a resolved item is one of the items. |
| Ui.SelectFromList | src/lib/ui.ts:74-128 | The resolved item is always one of the items. Before any key, the default is highlighted. |
| Ui.RunDowns | src/lib/ui.ts:109-111 | A run of Down keys is that many Down presses. |
| Ui.DownsThenEnter | src/lib/ui.ts:80-118 | `k` Down presses, at most one lap, then Enter choose the item `k` places below the default, wrapping round. |
| Ui.SettledStays | src/lib/ui.ts:112-123 | Once resolved or exited, the picker ignores all further input. |
| ConfigWizard.ChooseTheme | src/commands/config.ts:36-42 | An offered name switches to that theme. Any other non-empty answer keeps the current theme with a warning, and an empty answer keeps it silently. |
| ConfigWizard.OfferedThemesChosen | src/commands/config.ts:38-39 | Every theme except `tech` can be chosen by its name. |
| ConfigWizard.TechRejected | src/commands/config.ts:37-41 | Typing `tech` is rejected with the warning, although `tech` is a valid theme. |
| ConfigWizard.TechOnlyKept | src/commands/config.ts:36-42 | The wizard yields the tech theme only when it was already current. |
| ConfigWizard.Wizard | src/commands/config.ts:20-45 | Title and description are the trimmed answer, or the current value when that is empty. The theme is current or offered. At most one warning. |
| ConfigWizard.EnterKeepsConfig | src/commands/config.ts:26-42 | Pressing Enter at every question saves the current configuration with no warning. |
| ConfigWizard.WizardIdempotent | src/commands/config.ts:26-44 | Running the wizard again with the same answers saves the same configuration. |
| ConfigWizard.FieldsFromAnswers | src/commands/config.ts:26-44 | Each saved field is either the trimmed answer or the current value. |
| Flavortown.TrackedSplit | flavortown.ts:96-97 | The minutes left over are under 60, and the whole hours and minutes account for the seconds to within one minute. |
| Flavortown.FormatTrackedTime | flavortown.ts:95-99 | The text is `<h>h <m>m` with `h` the whole hours and `m` the whole minutes left over, in decimal without leading zeros. |
| Flavortown.Thumbnail | flavortown.ts:170 | The thumbnail is the host followed by the banner, or by the default banner when the banner is missing or empty. |
| Flavortown.ArticleHeader | flavortown.ts:162-173 | The header is a fenced block of five unquoted lines: slug, title, creation date, description, thumbnail. |
| Flavortown.ImportedHeaderParses | flavortown.ts:165-172 | The editor reads an imported header back with the slug as id and the values as written, less one character at each end when a value looks quoted. The body keeps one line feed. |
| Flavortown.MediaMarkdown | flavortown.ts:187-193 | An image becomes a Markdown image and a video a `<video>` tag, both pointing at the host. Anything else gives nothing. |
| Flavortown.OnlyImagesAndVideos | flavortown.ts:187-193 | Media that are neither images nor videos leave no trace in the article. |
| Flavortown.MediaListConcat | flavortown.ts:187-193 | A devlog's media list is the text of each medium, one after another in order. |
| Flavortown.DevlogMarkdown | flavortown.ts:185-193 | A devlog's section is a blank line, the heading `## <tracked time> - <date>`, a blank line, then the devlog text, a blank line and its media. |
| Flavortown.DevlogsConcat | flavortown.ts:184-194 | The devlog section is the text of each devlog, one after another in the fetched order. |
| Flavortown.Markdown | flavortown.ts:181-194 | The article text is the header followed by the devlog section. |
| Flavortown.MarkdownPieces | flavortown.ts:181-194 | An imported article is its header followed by every devlog's text in order. |
| Flavortown.ImportParses | flavortown.ts:183-194 | With at least one devlog, the editor reads the imported article's header back as the header form. |
| Flavortown.ImportFilename | flavortown.ts:196 | Each import is written to the project title's slug with `.md`. The catalog lists it exactly when the slug is not empty; an empty slug writes the hidden `.md`. |
| Flavortown.WriteFiles | flavortown.ts:196 | After the writes, the files present are the files written plus those already there. |
| Flavortown.WrittenText | flavortown.ts:196 | Each file holds the text of its last write, and a file never written keeps its text. |
| Flavortown.RenderArticles | flavortown.ts:175-199 | The files afterwards are the old files plus one per import. |
| Flavortown.LastWriteWins | flavortown.ts:181-196 | A write that no later write overrides remains in the directory. |
| Flavortown.ImportSurvives | flavortown.ts:181-196 | An import whose file no later import writes survives. An earlier import whose title has the same slug as a later one is overwritten. |

## Left out

- YAML parsing (`gray-matter`), `extractUploadedImages` and `decodeURIComponent` are parameters. The model does not implement YAML, and `extractUploadedImages` is not part of this model.
- JSON encoding and decoding, HTTP status text, headers and the transport are left out. Responses are a datatype of status and body.
- The bundler (`Bun.build`) is a boolean "succeeded" parameter. On success the model writes `js/index.js` and `js/article.js`, but their code is given with the installation rather than computed from the frontend sources. The editor bundle built on demand at serve.ts:21-34 and at start-up is left out.
- File system paths are names in maps. `join` normalisation, `mkdir` and file permissions are left out. A `rm` of an article file is assumed to succeed.
- Upload deletions run concurrently and their errors are ignored. The model removes them all at once, which has the same final state.
- Catalog.BuildArticleList: when several reads fail under `Promise.all`, which error surfaces first is not modelled, only that the catalog fails.
- Viewer.ViewArticle: when both the catalog and the configuration fetch fail, the catalog's error is shown. In JavaScript the earlier rejection would win, and that timing is not modelled.
- `formatDate`, `toLocaleDateString` and `marked` (Markdown to HTML) are left out. The viewer shows the date string and the body Markdown, and Flavortown's shown date is given as a string.
- The unused `target` search at src/commands/articles.ts:73-76 has no effect and is left out.
- Catalog.SortByDateDesc: `localeCompare` on dates is modelled as code-point order, which agrees on ISO dates. `files.sort()` compares UTF-16 code units, and differences above U+FFFF are not modelled.
- Text.Lower: lower-casing covers the ASCII letters only.
- Types.Value: a value other than a string or a date (a number, a boolean, a list) carries its printed text and its JavaScript truthiness as given data. Number formatting and the truthiness rules for `0`, `NaN` and the like are not computed, and a date prints as its given `toString` text.
- The clock, `crypto.randomUUID()` and all console output other than the command outcomes are parameters or left out.
- The Flavortown network client, API-key prompt and `init` loop (flavortown.ts:101-160), including skipping projects whose fetch fails, are left out. The model starts from the fetched imports.
- Flavortown.RenderArticles: `Bun.write` is not awaited. The model applies the writes in loop order, and an interleaving that finishes them in another order is not modelled.
- Serve.UploadThenFetch: the request path is taken to be the answered URL text itself. URL parsing (serve.ts:191-192) is not modelled. An extension holding a space, `%`, `?`, `#`, `"`, `<`, `>`, `` ` ``, `{`, `}`, a control character or non-ASCII text reaches the server percent-encoded or cut, and the server then answers the static 404.
- Flavortown.FormatTrackedTime: durations are natural numbers. Negative or fractional seconds are not modelled.
- The terminal drawing of src/lib/ui.ts (colours, cursor movement, raw mode) and the `header`/`info`/`success` printers are left out. `ask` is modelled only as trimming its input line.
- Ui.Step: the picker requires a non-empty list. On an empty list the source's index arithmetic yields `NaN`, and that case is not modelled.
- Ui.DownsThenEnter: stated for at most one full lap of Down presses (`k <= |items|`).
- Loading and saving `newspage.config.json` (src/lib/config.ts) is not part of this model. The current configuration is a parameter.
- The interactive menu (src/commands/interactive.ts), `cli.ts`, the index page script and the editor's DOM handling beyond the front matter codec and title sync are not part of this model.

## Findings

| source | as written | input that shows it | evidently intended | confidence | as-written member | corrected member |
|---|---|---|---|---|---|---|
| src/lib/build.ts:15 | `replaceAll` with a string value expands `$$`, `$&`, `` $` `` and `$'` in the site title, description and theme | site title `$$` | the configured text appears on the page literally (`$$`) | high, not executed | Build.ProcessHtmlAsWritten, Build.DollarTitleAltered | Build.ProcessHtml |
| src/commands/serve.ts:98-107 | the files protecting images from deletion are those with a different id | two files `a.md` and `b.md` both with `id: x` and the same image; delete `x` | only the deleted file itself is excluded, so an image `b.md` still uses is kept | medium, not executed | Serve.OrphansAsWritten, Serve.DeleteArticle, Serve.SharedIdDeleteLosesImage | Serve.Orphans, Serve.DeleteArticleCorrected, Serve.DeleteCorrectedKeepsShared |
