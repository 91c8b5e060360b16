/** scripts/build-articles.js: merge the per-article JSON records of the data directory into
    one catalog, sorted by the number in each id, and write one redirect page per entry. */
module BuildArticles {
  import opened Wrappers
  import opened Seqs
  import opened JsValues
  import opened JsStrings
  import opened Host
  import opened Sorting

  const GithubPagesBaseUrl := "https://png-museum.github.io/png-tablet-app"
  const DataDir := "data"
  const RedirectDir := "redirect"
  const CatalogFile := Path(DataDir, "articles.json")
  const Placeholder := "{{ARTICLE_ID}}"

  // ---------------------------------------------------------------------------
  // getArticleFiles

  /** The file name matches /^article\d+\.json$/. */
  predicate IsArticleFile(f: string) {
    |f| > 12 && StartsWith(f, "article") && EndsWith(f, ".json") && AllDecimalDigits(f[7..|f| - 5])
  }

  /** Every name "article" + digits + ".json" with at least one digit is accepted. */
  lemma ArticleFileAccepts(d: string)
    requires |d| > 0 && AllDecimalDigits(d)
    ensures IsArticleFile("article" + d + ".json")
  {
    var f := "article" + d + ".json";
    assert f[..7] == "article";
    assert f[|f| - 5..] == ".json";
    assert f[7..|f| - 5] == d;
  }

  /** Every accepted name is "article" + a non-empty run of digits + ".json". */
  lemma ArticleFileDecomposes(f: string)
    requires IsArticleFile(f)
    ensures |f[7..|f| - 5]| > 0 && AllDecimalDigits(f[7..|f| - 5])
    ensures f == "article" + f[7..|f| - 5] + ".json"
  {
    assert f == f[..7] + f[7..|f| - 5] + f[|f| - 5..];
  }

  /** The catalog itself and a name without digits are rejected. */
  lemma ArticleFileRejects()
    ensures !IsArticleFile("articles.json")
    ensures !IsArticleFile("article.json")
  {
    assert !IsDecimalDigit("articles.json"[7]);
  }

  /** `getArticleFiles`: the matching names of the listing, in listing order, joined to the
      data directory. */
  function ArticleFiles(listing: seq<string>): seq<Path> {
    var names := Filter(listing, IsArticleFile);
    seq(|names|, i requires 0 <= i < |names| => Path(DataDir, names[i]))
  }

  /** The article files are the data-directory paths of exactly the matching names. */
  lemma ArticleFilesAreTheMatches(listing: seq<string>)
    ensures forall p :: p in ArticleFiles(listing) <==> p.dir == DataDir && p.name in listing && IsArticleFile(p.name)
  {
    var names := Filter(listing, IsArticleFile);
    forall p: Path | p.dir == DataDir && p.name in listing && IsArticleFile(p.name)
      ensures p in ArticleFiles(listing)
    {
      var i :| 0 <= i < |names| && names[i] == p.name;
      assert ArticleFiles(listing)[i] == p;
    }
  }

  /** A second run sees the catalog it wrote in the listing, wherever it sits, and ignores it. */
  lemma ArticleFilesIgnoreCatalog(before: seq<string>, after: seq<string>)
    ensures ArticleFiles(before + ["articles.json"] + after) == ArticleFiles(before + after)
  {
    ArticleFileRejects();
    FilterSkipsRejected(before, "articles.json", after, IsArticleFile);
  }

  // ---------------------------------------------------------------------------
  // readJsonFile and `if (article)`

  /** The record a file contributes: `None` when reading or parsing fails and when the parsed
      value is falsy. */
  function ReadArticle(read: Reader, p: Path): (r: Option<Json>)
    ensures r.Some? <==> read(p).Some? && Truthy(read(p).value)
    ensures r.Some? ==> r == read(p)
  {
    match read(p)
    case Some(v) => if Truthy(v) then Some(v) else None
    case None => None
  }

  /** The records the loop keeps, in file order. */
  function Loaded(files: seq<Path>, read: Reader): seq<Json>
    decreases |files|
  {
    if |files| == 0 then []
    else
      Loaded(files[..|files| - 1], read)
      + match ReadArticle(read, files[|files| - 1]) case Some(v) => [v] case None => []
  }

  /** The files whose record is kept. */
  function LoadableFiles(files: seq<Path>, read: Reader): seq<Path> {
    Filter(files, (p: Path) => ReadArticle(read, p).Some?)
  }

  /** A file whose read fails is left out and every other file's record is kept, in order:
      the loaded records are exactly the records of the loadable files. */
  lemma {:induction false} LoadedAreTheLoadable(files: seq<Path>, read: Reader)
    ensures |Loaded(files, read)| == |LoadableFiles(files, read)|
    ensures forall i | 0 <= i < |Loaded(files, read)| ::
      Some(Loaded(files, read)[i]) == ReadArticle(read, LoadableFiles(files, read)[i])
    decreases |files|
  {
    if |files| > 0 {
      var init, last := files[..|files| - 1], files[|files| - 1];
      assert files == init + [last];
      LoadedAreTheLoadable(init, read);
      FilterAppend(init, [last], (p: Path) => ReadArticle(read, p).Some?);
      FilterSingleton(last, (p: Path) => ReadArticle(read, p).Some?);
    }
  }

  // ---------------------------------------------------------------------------
  // The derived catalog entry

  /** `${githubPagesBaseUrl}/redirect/${article.id}.html` */
  function CanonicalRedirect(id: Option<Json>): string {
    GithubPagesBaseUrl + "/redirect/" + ToText(id) + ".html"
  }

  /** `{ ...article, redirectBaseUrl: article.redirectUrl, redirectUrl: ... }`, as written to
      the catalog: a `redirectBaseUrl` that is `undefined` is not written. */
  function Derive(article: Json): (e: Fields)
    ensures "redirectUrl" in e && e["redirectUrl"] == JString(CanonicalRedirect(Property(article, "id")))
    ensures "redirectBaseUrl" in e <==> Property(article, "redirectUrl").Some?
    ensures "redirectBaseUrl" in e ==> Some(e["redirectBaseUrl"]) == Property(article, "redirectUrl")
    ensures forall k | k != "redirectUrl" && k != "redirectBaseUrl" ::
      (k in e <==> k in Spread(article)) && (k in e ==> e[k] == Spread(article)[k])
  {
    var copied := Spread(article) - {"redirectBaseUrl"};
    var saved := match Property(article, "redirectUrl")
      case Some(u) => copied["redirectBaseUrl" := u]
      case None => copied;
    saved["redirectUrl" := JString(CanonicalRedirect(Property(article, "id")))]
  }

  function DeriveAll(records: seq<Json>): seq<Fields> {
    seq(|records|, i requires 0 <= i < |records| => Derive(records[i]))
  }

  /** `article.id` of a catalog entry. */
  function EntryId(e: Fields): Option<Json> {
    if "id" in e then Some(e["id"]) else None
  }

  /** The entry keeps the record's id. */
  lemma DeriveKeepsId(article: Json)
    ensures EntryId(Derive(article)) == Property(article, "id")
  {
    if !article.JObject? {
      assert "id" !in Spread(article) by { assert !('0' <= "id"[0] <= '9'); }
    }
  }

  // ---------------------------------------------------------------------------
  // The loop of buildArticlesAndRedirects

  /** `for (const filePath of articleFiles) { ... articles.push(modifiedArticle) }` */
  method CollectArticles(files: seq<Path>, read: Reader) returns (articles: seq<Fields>)
    ensures articles == DeriveAll(Loaded(files, read))
  {
    articles := [];
    var n := 0;
    while n < |files|
      invariant 0 <= n <= |files|
      invariant articles == DeriveAll(Loaded(files[..n], read))
    {
      var article := ReadArticle(read, files[n]);
      assert files[..n + 1][..n] == files[..n];
      if article.Some? {
        articles := articles + [Derive(article.value)];
      }
      n := n + 1;
    }
    assert files[..n] == files;
  }

  // ---------------------------------------------------------------------------
  // The sort

  /** `article.id` when it is a string; any other id makes `a.id.replace` throw. */
  function IdString(e: Fields): Option<string> {
    match EntryId(e)
    case Some(JString(s)) => Some(s)
    case _ => None
  }

  /** `parseInt(a.id.replace('article', ''))`; `None` is NaN. */
  function Rank(e: Fields): Option<int> {
    match IdString(e)
    case Some(s) => ParseInt(RemoveFirst(s, "article"))
    case None => None
  }

  /** An id "article" + digits ranks as the number those digits spell. */
  lemma RankOfArticleId(e: Fields, d: string)
    requires |d| > 0 && AllDecimalDigits(d)
    requires EntryId(e) == Some(JString("article" + d))
    ensures Rank(e) == Some(DigitsValue(d, 10))
  {
    var s := "article" + d;
    assert IdString(e) == Some(s);
    assert s[..7] == "article";
    assert OccursAt(s, "article", 0);
    assert s[7..] == d;
    assert RemoveFirst(s, "article") == d;
    ParseIntOfDigits(d);
  }

  /** `articles.sort((a, b) => idA - idB)` */
  function SortByRank(articles: seq<Fields>): seq<Fields> {
    SortBy(articles, Rank)
  }

  /** An entry whose only field is the id "article<n>". */
  function NumberedEntry(n: nat): Fields {
    map["id" := JString("article" + NatText(n))]
  }

  lemma RankOfNumberedEntry(n: nat)
    ensures Rank(NumberedEntry(n)) == Some(n)
  {
    RankOfArticleId(NumberedEntry(n), NatText(n));
    DigitsValueOfNatText(n);
  }

  /** Ids sort by their number, not by their text: with a < b < c, as with article1,
      article2 and article10, the order b, c, a comes out as a, b, c. */
  lemma NumericNotLexicalOrder(a: nat, b: nat, c: nat)
    requires a < b < c
    ensures SortByRank([NumberedEntry(b), NumberedEntry(c), NumberedEntry(a)])
         == [NumberedEntry(a), NumberedEntry(b), NumberedEntry(c)]
  {
    RankOfNumberedEntry(a);
    RankOfNumberedEntry(b);
    RankOfNumberedEntry(c);
    SortThree(NumberedEntry(a), NumberedEntry(b), NumberedEntry(c), Rank);
  }

  /** A comparison on two entries throws when either id is not a string; the engine compares
      every element at least once when there are two or more. */
  predicate SortThrows(articles: seq<Fields>) {
    |articles| >= 2 && exists i | 0 <= i < |articles| :: IdString(articles[i]).None?
  }

  // ---------------------------------------------------------------------------
  // Redirect pages

  /** `path.join(redirectDir, `${article.id}.html`)` */
  function RedirectPath(e: Fields): Path {
    Path(RedirectDir, ToText(EntryId(e)) + ".html")
  }

  /** The redirect page, with every placeholder replaced by the id taken literally. */
  function RedirectHtml(template: string, e: Fields): string {
    ReplaceAll(template, Placeholder, ToText(EntryId(e)))
  }

  /** The redirect page as `template.replace(/{{ARTICLE_ID}}/g, articleId)` produces it, with
      the id read as a replacement pattern. */
  function RedirectHtmlAsWritten(template: string, e: Fields): string {
    ReplaceGlobalJs(template, Placeholder, ToText(EntryId(e)))
  }

  /** Every placeholder is replaced: the template is its pieces joined by the placeholder, no
      piece holds the placeholder, and the page is the same pieces joined by the id. */
  lemma RedirectHtmlReplacesEveryPlaceholder(template: string, e: Fields)
    ensures Join(Pieces(template, Placeholder), Placeholder) == template
    ensures forall k | 0 <= k < |Pieces(template, Placeholder)| :: !Contains(Pieces(template, Placeholder)[k], Placeholder)
    ensures RedirectHtml(template, e) == Join(Pieces(template, Placeholder), ToText(EntryId(e)))
  {
    ReplaceAllIsJoinOfPieces(template, Placeholder, ToText(EntryId(e)));
    PiecesAreFree(template, Placeholder);
  }

  /** A template without the placeholder is written unchanged. */
  lemma RedirectHtmlWithoutPlaceholder(template: string, e: Fields)
    requires !Contains(template, Placeholder)
    ensures RedirectHtml(template, e) == template
  {
    ReplaceAllWithoutOccurrence(template, Placeholder, ToText(EntryId(e)));
  }

  /** For an id without "$" the source's replacement and the literal one agree. */
  lemma RedirectHtmlAsWrittenAgrees(template: string, e: Fields)
    requires forall k | 0 <= k < |ToText(EntryId(e))| :: ToText(EntryId(e))[k] != '$'
    ensures RedirectHtmlAsWritten(template, e) == RedirectHtml(template, e)
  {
    ReplaceGlobalJsAgreesWithoutDollar(template, Placeholder, ToText(EntryId(e)));
  }

  /** An id holding "$&" is not inserted verbatim: the source writes the placeholder back. */
  lemma RedirectHtmlAsWrittenExpandsDollar()
    ensures var e := map["id" := JString("x$&")];
            RedirectHtmlAsWritten(Placeholder, e) == "x" + Placeholder
            && RedirectHtml(Placeholder, e) == "x$&"
  {
    var e := map["id" := JString("x$&")];
    assert OccursAt(Placeholder, Placeholder, 0);
    assert Expand("x$&", Placeholder, "", "") == "x" + Placeholder by {
      assert "x$&"[1..] == "$&" && "$&"[2..] == "";
    }
    assert Placeholder[..0] == "" && Placeholder[14..] == "";
    assert StartsWith(Placeholder, Placeholder);
    assert Placeholder[14..] == "";
  }

  /** The canonical URL of an entry names the redirect page written for it. */
  lemma CanonicalRedirectNamesRedirectPage(article: Json)
    ensures Derive(article)["redirectUrl"]
      == JString(GithubPagesBaseUrl + "/" + RedirectPath(Derive(article)).dir + "/" + RedirectPath(Derive(article)).name)
  {
    var id := ToText(Property(article, "id"));
    DeriveKeepsId(article);
    assert RedirectPath(Derive(article)) == Path(RedirectDir, id + ".html");
    assert "/" + RedirectDir + "/" == "/redirect/";
    assert GithubPagesBaseUrl + "/" + RedirectDir + "/" + (id + ".html")
        == GithubPagesBaseUrl + "/redirect/" + id + ".html";
  }

  /** Entries with different id texts get different redirect files. An id text without "/"
      joins the redirect directory as one segment ending in ".html", which `path.join` leaves
      as it is. */
  lemma RedirectPathsDistinct(a: Fields, b: Fields)
    requires '/' !in ToText(EntryId(a)) && '/' !in ToText(EntryId(b))
    requires ToText(EntryId(a)) != ToText(EntryId(b))
    ensures RedirectPath(a) != RedirectPath(b)
  {
    var ta, tb := ToText(EntryId(a)), ToText(EntryId(b));
    assert (ta + ".html")[..|ta|] == ta;
    assert (tb + ".html")[..|tb|] == tb;
  }

  /** `generateRedirectFiles`: create the directory when missing, then one page per entry,
      in catalog order. */
  method GenerateRedirectFiles(articles: seq<Fields>, template: string, dirExists: bool)
    returns (createdDir: bool, writes: seq<FileWrite>)
    ensures createdDir == !dirExists
    ensures |writes| == |articles|
    ensures forall i | 0 <= i < |articles| ::
      writes[i] == FileWrite(RedirectPath(articles[i]), RedirectHtml(template, articles[i]))
  {
    createdDir := !dirExists;
    writes := [];
    var i := 0;
    while i < |articles|
      invariant 0 <= i <= |articles|
      invariant |writes| == i
      invariant forall j | 0 <= j < i ::
        writes[j] == FileWrite(RedirectPath(articles[j]), RedirectHtml(template, articles[j]))
    {
      var article := articles[i];
      var page := FileWrite(RedirectPath(article), RedirectHtml(template, article));
      assert (writes + [page])[i] == page;
      assert forall j | 0 <= j < i :: (writes + [page])[j] == writes[j];
      writes := writes + [page];
      i := i + 1;
    }
  }

  // ---------------------------------------------------------------------------
  // buildArticlesAndRedirects

  datatype BuildError = SortTypeError

  datatype BuildOutput = BuildOutput(
    catalog: seq<Fields>, catalogPath: Path, createdRedirectDir: bool, redirects: seq<FileWrite>)

  /** The entries the loop collects from a directory listing. */
  function Collected(listing: seq<string>, read: Reader): seq<Fields> {
    DeriveAll(Loaded(ArticleFiles(listing), read))
  }

  /** The whole run: collect, sort, write the catalog, write the redirect pages. A sort that
      throws stops the run before anything is written. */
  method BuildArticlesAndRedirects(listing: seq<string>, read: Reader, template: string, redirectDirExists: bool)
    returns (r: Result<BuildOutput, BuildError>)
    ensures r.Failure? <==> SortThrows(Collected(listing, read))
    ensures r.Success? ==>
      r.value.catalog == SortByRank(Collected(listing, read))
      && r.value.catalogPath == CatalogFile
      && r.value.createdRedirectDir == !redirectDirExists
      && |r.value.redirects| == |r.value.catalog|
      && forall i | 0 <= i < |r.value.catalog| ::
           r.value.redirects[i] == FileWrite(RedirectPath(r.value.catalog[i]), RedirectHtml(template, r.value.catalog[i]))
  {
    var articleFiles := ArticleFiles(listing);
    var articles := CollectArticles(articleFiles, read);
    if SortThrows(articles) {
      return Failure(SortTypeError);
    }
    var sorted := SortByRank(articles);
    var createdDir, writes := GenerateRedirectFiles(sorted, template, redirectDirExists);
    r := Success(BuildOutput(sorted, CatalogFile, createdDir, writes));
  }

  /** The catalog holds one entry per loaded record: a permutation of the derived records,
      as many as there are files whose read succeeded. */
  lemma CatalogHoldsEveryLoadedRecord(listing: seq<string>, read: Reader)
    ensures multiset(SortByRank(Collected(listing, read))) == multiset(Collected(listing, read))
    ensures |SortByRank(Collected(listing, read))| == |LoadableFiles(ArticleFiles(listing), read)|
  {
    SortPermutes(Collected(listing, read), Rank);
    LoadedAreTheLoadable(ArticleFiles(listing), read);
    assert |multiset(SortByRank(Collected(listing, read)))| == |multiset(Collected(listing, read))|;
  }

  /** Every catalog entry is derived from a loaded record: its redirectBaseUrl is that record's
      redirectUrl and its redirectUrl is the canonical one for its id. */
  lemma CatalogEntriesAreDerived(listing: seq<string>, read: Reader, e: Fields)
    requires e in SortByRank(Collected(listing, read))
    ensures exists v :: v in Loaded(ArticleFiles(listing), read) && e == Derive(v)
    ensures e["redirectUrl"] == JString(CanonicalRedirect(EntryId(e)))
  {
    SortPermutes(Collected(listing, read), Rank);
    assert e in multiset(Collected(listing, read));
    var records := Loaded(ArticleFiles(listing), read);
    var i :| 0 <= i < |records| && Collected(listing, read)[i] == e;
    assert e == Derive(records[i]);
    DeriveKeepsId(records[i]);
  }

  /** Entries with equal id numbers (or with NaN ones) keep their file order, and when every id
      parses the catalog is in non-decreasing order of the id number. */
  lemma CatalogIsOrdered(listing: seq<string>, read: Reader, key: Option<int>)
    ensures WithRank(SortByRank(Collected(listing, read)), Rank, key) == WithRank(Collected(listing, read), Rank, key)
    ensures var catalog := SortByRank(Collected(listing, read));
      AllRanked(Collected(listing, read), Rank) ==>
        AllRanked(catalog, Rank)
        && forall i, j | 0 <= i < j < |catalog| :: Rank(catalog[i]).value <= Rank(catalog[j]).value
  {
    SortIsStable(Collected(listing, read), Rank, key);
    if AllRanked(Collected(listing, read), Rank) {
      SortSorts(Collected(listing, read), Rank);
    }
  }
}
