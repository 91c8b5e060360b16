# png-tablet-app build scripts, modelled in Dafny

The PNG Museum tablet app is a static site whose article pages are fed by JSON records in
`data/`. Two Node scripts prepare the site before publishing, and this project models both:

- `scripts/build-articles.js` takes every `data/article<N>.json` record and merges them into
  one catalog, `data/articles.json`, sorted by the number in each record's id. Each entry
  keeps its original `redirectUrl` as `redirectBaseUrl` and gets a canonical `redirectUrl` on
  GitHub Pages. The script then writes one redirect page `redirect/<id>.html` per entry, built
  from an HTML template by replacing the `{{ARTICLE_ID}}` placeholder.
- `scripts/pack-images.js` needs exactly four article records. It reads the `image` field of
  each record, resizes each image to fit a 1024 × 1024 cell, and composites the four images
  into the quadrants of a transparent 2048 × 2048 PNG, `images/packed-articles.png`.

The modules are:

- `Wrappers`: `Option` and `Result`.
- `Seqs`: order-preserving filter and "first failing index".
- `JsValues`: JSON values, plus the JavaScript semantics the scripts rely on (property
  access, truthiness, object spread, `String(...)` in template literals).
- `JsStrings`: `startsWith`/`endsWith`, `replace` with a string pattern (first occurrence
  only), `parseInt`, a global regular-expression `replace` that expands `$` patterns, and a
  literal replace-all.
- `Sorting`: a stable sort by an optional integer rank. This is the comparator of the
  catalog sort, with NaN read as 0.
- `Host`: paths, file writes and the record reader.
- `BuildArticles` and `PackImages`: the two scripts.

The file system and the image library are parameters:

- `read: Path -> Option<Json>` is `readFileSync` followed by `JSON.parse`. `None` means it
  threw.
- the directory listing is a `seq<string>` in `readdirSync` order.
- `fileExists` is `existsSync`, and `redirectDirExists` is the one `existsSync` answer the
  catalog builder needs.
- `resize: Path -> Bytes` is the image library's read-resize-encode step.

Each script is a method. It returns what the script would write (the catalog, the redirect
pages, the packed atlas) and how the run ends.

## Model

| member | source | states |
|---|---|---|
| BuildArticles.ArticleFileAccepts | scripts/build-articles.js:29 | every name `article` + one or more decimal digits + `.json` matches the filter |
| BuildArticles.ArticleFileDecomposes | scripts/build-articles.js:29 | every name the filter keeps is `article` + a non-empty run of decimal digits + `.json` |
| BuildArticles.ArticleFileRejects | scripts/build-articles.js:29 | the catalog `articles.json` and the digit-less `article.json` are rejected |
| BuildArticles.ArticleFilesAreTheMatches | scripts/build-articles.js:26-31 | a path is an article file iff it is in the data directory and its name is in the listing and matches the pattern |
| BuildArticles.ArticleFilesIgnoreCatalog | scripts/build-articles.js:27-30 | an `articles.json` anywhere in the listing (the output of an earlier run) does not change the article files |
| BuildArticles.LoadedAreTheLoadable | scripts/build-articles.js:70-83 | the loop keeps exactly the records of the files that read, parse and give a truthy value (same count), in file order. Each kept record equals that file's parsed value. A file whose read or parse fails, or that parses to `null`, `false`, `0` or `""`, is dropped |
| BuildArticles.Derive | scripts/build-articles.js:74-78 | the entry's `redirectUrl` is the GitHub Pages redirect URL for the id. `redirectBaseUrl` is present iff the record has a `redirectUrl`, and then equals it. Every other key is the spread record's, with the same value |
| BuildArticles.DeriveKeepsId | scripts/build-articles.js:75 | the entry's id is the record's id, for any JSON value (spread arrays and strings give only index keys) |
| BuildArticles.CollectArticles | scripts/build-articles.js:68-83 | the loop produces the derived entries of the loaded records, one per record, in file order |
| BuildArticles.RankOfArticleId | scripts/build-articles.js:87-88 | an id `article` + digits has the rank spelled by those digits (read in base 10) |
| BuildArticles.NumericNotLexicalOrder | scripts/build-articles.js:85-90 | entries with ids article{b}, article{c}, article{a} and a < b < c sort ascending by number: article1, article2, article10 in numeric order |
| BuildArticles.CatalogHoldsEveryLoadedRecord | scripts/build-articles.js:86-94 | the written catalog is a permutation of the collected entries, with one entry per file that reads, parses and gives a truthy value |
| BuildArticles.CatalogEntriesAreDerived | scripts/build-articles.js:74-94 | every catalog entry comes from some loaded record, and its `redirectUrl` is the canonical URL for its own id |
| BuildArticles.CatalogIsOrdered | scripts/build-articles.js:85-90 | for each rank, entries of that rank (including NaN) keep their file order. When every id parses, ranks do not decrease along the catalog |
| BuildArticles.RedirectHtmlReplacesEveryPlaceholder | scripts/build-articles.js:34-43 | the template is its placeholder-free pieces joined by `{{ARTICLE_ID}}`, and the page is the same pieces joined by the id |
| BuildArticles.RedirectHtmlWithoutPlaceholder | scripts/build-articles.js:40 | a template without the placeholder is written unchanged |
| BuildArticles.RedirectHtmlAsWrittenAgrees | scripts/build-articles.js:40 | for an id without `$`, the JavaScript global replace gives the same page as a literal replacement |
| BuildArticles.RedirectHtmlAsWrittenExpandsDollar | scripts/build-articles.js:40 | with id `x$&` the JavaScript replace writes `x{{ARTICLE_ID}}`, while the literal replacement writes `x$&` |
| BuildArticles.CanonicalRedirectNamesRedirectPage | scripts/build-articles.js:57 | an entry's canonical URL is the base URL followed by the directory and file name of the redirect page written for it |
| BuildArticles.RedirectPathsDistinct | scripts/build-articles.js:57 | entries whose ids print differently, and contain no `/`, get different redirect files. Such an id is one path segment ending in `.html`, which `path.join` keeps as it is |
| BuildArticles.GenerateRedirectFiles | scripts/build-articles.js:46-61 | the redirect directory is created iff it is missing, and there is one write per entry, in catalog order, of that entry's page to `redirect/<id>.html` |
| BuildArticles.BuildArticlesAndRedirects | scripts/build-articles.js:64-99 | the run fails iff the sort throws (a non-string id with two or more entries). Otherwise the catalog is the sorted collected entries, it goes to `data/articles.json`, and one redirect page is written per catalog entry |
| Sorting.SortPermutes | scripts/build-articles.js:86-90 | sorting returns a permutation of its input |
| Sorting.SortIsStable | scripts/build-articles.js:86-90 | for each rank, the subsequence of elements with that rank is unchanged by sorting |
| Sorting.SortSorts | scripts/build-articles.js:86-90 | when every element has a rank, the result is in non-decreasing rank order |
| JsStrings.IndexOf | scripts/build-articles.js:87 | the result is the first occurrence at or after `from`, or none exists |
| JsStrings.RemoveFirst | scripts/build-articles.js:87 | `replace('article', '')` leaves a string without `article` unchanged and drops a leading `article` |
| JsStrings.ParseIntOfDigits | scripts/build-articles.js:87 | `parseInt` of a non-empty digit string is the decimal value of the digits |
| JsStrings.ParseNegated | scripts/build-articles.js:87 | `parseInt` of `-` followed by t is the negation of the unsigned number t spells, and NaN when t spells none |
| JsStrings.ParseIntOfIntText | scripts/build-articles.js:87 | `parseInt` inverts `String(n)`, the decimal printing of an integer (digits, with a leading `-` for negatives) |
| JsStrings.ReplaceAllIsJoinOfPieces | scripts/build-articles.js:40 | joining the pieces with the pattern rebuilds the string, and replacing all occurrences is the same pieces joined by the replacement |
| JsStrings.PiecesAreFree | scripts/build-articles.js:40 | no piece contains the pattern |
| JsStrings.ReplaceGlobalJsAgreesWithoutDollar | scripts/build-articles.js:40 | a global regex replace whose replacement has no `$` is the literal replace-all |
| JsValues.Spread | scripts/build-articles.js:75 | spreading an object copies its members; null, booleans and numbers contribute nothing; arrays and strings contribute only index keys |
| PackImages.CatalogNamesArePackNames | scripts/pack-images.js:16-17 | every name the catalog builder accepts passes this filter too |
| PackImages.PackFilterIsLooser | scripts/pack-images.js:17 | `article.json` and `articlex.json` pass this filter but not the catalog builder's, and `articles.json` is rejected |
| PackImages.JsonFilesIgnoreCatalog | scripts/pack-images.js:16-17 | a catalog `articles.json` anywhere in the listing does not change the selected files |
| PackImages.BranchesFollowGrid | scripts/pack-images.js:47-55 | for positions 0 to 3, the two conditional assignments compute the commented grid formula `((i % 2) * cell, floor(i / 2) * cell)` |
| PackImages.GridQuadrants | scripts/pack-images.js:10-12 | a cell is 1024 wide, and positions 0, 1, 2 and 3 sit at (0,0), (1024,0), (0,1024) and (1024,1024) |
| PackImages.GridCellsInsideCanvas | scripts/pack-images.js:10-12 | every cell of the four positions lies inside the 2048 × 2048 canvas |
| PackImages.GridCellsDisjoint | scripts/pack-images.js:47-57 | distinct positions get distinct, non-overlapping cells |
| PackImages.CellOffsets | scripts/pack-images.js:52-55 | the two conditional assignments give position i its grid cell |
| PackImages.PlaceImages | scripts/pack-images.js:34-58 | the images resized are those of the first positions, and each exists. A missing image is the one right after them, and the loop stops there. Otherwise every image is resized in order and the i-th lies at grid cell i |
| PackImages.ResizedBeforeFirstMissing | scripts/pack-images.js:36-41 | the images the loop resized are exactly the image paths before the first missing one |
| PackImages.PackImages | scripts/pack-images.js:14-73 | a count other than 4 stops the run before any read. Otherwise the first unreadable or null record stops it after reading the records up to it, and the first missing image stops it after resizing the images before it. Otherwise it writes a 2048 × 2048, 4-channel, transparent PNG to `images/packed-articles.png` with image i at grid cell i |

## Findings

| source | as written | input that shows it | evidently intended | confidence | as-written member | corrected member |
|---|---|---|---|---|---|---|
| scripts/build-articles.js:40 | `replace(/{{ARTICLE_ID}}/g, articleId)` reads the id as a replacement pattern, so `$&`, `$$`, `` $` `` and `$'` in an id are expanded | template `{{ARTICLE_ID}}` with id `x$&` gives `x{{ARTICLE_ID}}` rather than `x$&` | the id is inserted literally, so the page holds the template's pieces joined by the id | not executed | BuildArticles.RedirectHtmlAsWrittenExpandsDollar | BuildArticles.RedirectHtmlReplacesEveryPlaceholder |

The redirect pages of the model are produced by the corrected `BuildArticles.RedirectHtml`.
The as-written `BuildArticles.RedirectHtmlAsWritten` agrees with it whenever the id has no
`$` (`BuildArticles.RedirectHtmlAsWrittenAgrees`).

## Left out

- File system, console output and the image library are parameters or are not modelled. Both
  scripts' log messages are not modelled. The top-level `.catch` of `packImages` is modelled
  only by the outcome values.
- BuildArticles.RedirectHtmlReplacesEveryPlaceholder: it does not claim that the page has no
  `{{ARTICLE_ID}}` left whenever the id has none. That claim fails for some templates, where
  the id plus neighbouring template text re-form the placeholder (template
  `{{{ARTICLE_ID}}ARTICLE_ID}}` with id `{`). The lemma states the exact shape of the page
  instead.
- JSON numbers are integers only. Fractions, exponents, numbers of 1e21 and above, and
  precision loss beyond 2^53 are not modelled. `String(n)` of an integer is its plain decimal
  text.
- BuildArticles.Rank and Sorting.Compare: a rank is an exact integer, but `parseInt` returns
  a double. Ids whose numbers differ only beyond 2^53 (`article9007199254740992` and
  `article9007199254740993`) compare equal in the program and unequal in the model. Ids of
  more than about 309 digits parse to `Infinity`, and `Infinity - Infinity` is NaN, which the
  program reads as 0. The model compares them exactly instead.
- Key order of objects is not modelled (entries are maps), so the indentation and key order
  of the catalog text written by `JSON.stringify(articles, null, 2)` are not modelled.
  The catalog is the sequence of entries as that call serialises them: `undefined`-valued keys
  are dropped.
- Strings are sequences of characters. UTF-16 code units, surrogate pairs and the
  `utf8` decoding of files are not modelled.
- `path.join` normalisation (`..`, `.`, duplicate separators) is not modelled. A path is a
  directory name plus a file name. An id containing `/`, such as `./a` or `a/b`, names a
  different file (or a missing subdirectory) in the program. BuildArticles.RedirectPathsDistinct
  is therefore stated only for ids without `/`.
- BuildArticles.BuildArticlesAndRedirects: the only failure modelled is the sort's
  TypeError. The model fails as soon as any id is not a string and there are two or more
  entries; which comparisons the engine makes is an engine detail. These other throws are not
  modelled, and the model returns success for them:
  - `readdirSync` failing (line 27);
  - a missing or unreadable template (line 37). This throws at the first entry, after
    `articles.json` is written and the directory created;
  - `mkdirSync` or `writeFileSync` failing (lines 51, 58 and 94). This includes an id such as
    `a/b`, whose subdirectory of `redirect/` does not exist;
  - a template literal over an object with its own `toString` member (line 77 for the id,
    line 81 for the title).
- BuildArticles.CatalogIsOrdered: when NaN ranks are mixed with numbers, the comparator is
  not consistent. ECMA-262 (`Array.prototype.sort`) then leaves the resulting order
  implementation-defined. The model's order is the one a stable insertion sort gives with NaN
  comparing as 0. For such inputs, the per-rank stability the lemma proves holds in the
  model, but not every engine promises it.
- BuildArticles.GenerateRedirectFiles and BuildArticles.BuildArticlesAndRedirects: the pages
  they write are the corrected, literal `BuildArticles.RedirectHtml`. They are not the
  `$`-expanding replacement of line 40 (`BuildArticles.RedirectHtmlAsWritten`). The two
  differ only for ids containing `$`, such as `x$&` (`BuildArticles.RedirectHtmlAsWrittenAgrees`,
  and see Findings).
- JsValues.ToText: `String(v)` of an object is always `[object Object]` here. In the program,
  a parsed object with its own `toString` member makes a template literal throw
  TypeError (build-articles.js lines 57, 77 and 81; pack-images.js line 37). The model prints
  `[object Object]` and goes on.
- PackImages.PackImages: the sharp decoding, resizing, compositing and PNG encoding are not
  modelled (`resize` is a total function to bytes). Failures in those steps (an unreadable
  image, a write error) are not modelled. The `fit: 'inside'` sizing of each image within its
  cell is not modelled either.
- PackImages.JsonFiles: the file list is not sorted, as in the code; the records are taken in
  `readdirSync` order.
- PackImages.GridQuadrants: the cell size is the code's 1024. The comment on line 50 of
  `scripts/pack-images.js` speaks of offsets 2048, which the code does not use.
- `js/main.js` (the page script that reads the catalog) is not part of this model.
