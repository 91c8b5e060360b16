/** scripts/pack-images.js: place the images of the four article records into the four cells
    of one 2048 x 2048 transparent canvas. */
module PackImages {
  import opened Wrappers
  import opened Seqs
  import opened JsValues
  import opened JsStrings
  import opened Host
  import BuildArticles

  const CanvasSize := 2048
  const Grid := 2
  const CellSize := CanvasSize / Grid
  const DataDir := "data"
  const InputDir := "images"
  const OutputFile := Path("images", "packed-articles.png")

  /** An encoded image, as the image library's `toBuffer` returns it. */
  type Bytes = seq<bv8>

  datatype Rgba = Rgba(r: int, g: int, b: int, alpha: int)

  /** One entry `{ input: buffer, left: x, top: y }` of `compositeList`. */
  datatype Layer = Layer(input: Bytes, left: int, top: int)

  /** The PNG written to the output file: a canvas and the layers composited onto it. */
  datatype Atlas = Atlas(width: int, height: int, channels: int, background: Rgba, layers: seq<Layer>, file: Path)

  /** How a run of `packImages` ends. */
  datatype PackOutcome =
    | WrongCount(count: nat)   // logged; returns before reading any record
    | ReadFailed(file: Path)   // readFileSync or JSON.parse throws
    | NullRecord(file: Path)   // `data.image` on a record that is `null` throws
    | MissingImage(path: Path) // logged; returns before compositing
    | Packed(atlas: Atlas)

  // ---------------------------------------------------------------------------
  // Selecting the records

  /** `f.endsWith('.json') && f.startsWith('article') && !(f === 'articles.json')` */
  predicate IsPackFile(f: string) {
    EndsWith(f, ".json") && StartsWith(f, "article") && f != "articles.json"
  }

  /** `jsonFiles`, in listing order (they are not sorted), joined to the data directory. */
  function JsonFiles(listing: seq<string>): seq<Path> {
    var names := Filter(listing, IsPackFile);
    seq(|names|, i requires 0 <= i < |names| => Path(DataDir, names[i]))
  }

  /** Every name the catalog builder accepts is accepted here too. */
  lemma CatalogNamesArePackNames(f: string)
    requires BuildArticles.IsArticleFile(f)
    ensures IsPackFile(f)
  {
    BuildArticles.ArticleFileRejects();
  }

  /** The filter here is looser: "article.json" and "articlex.json" pass it, though the catalog
      builder rejects them; the catalog itself is rejected. */
  lemma PackFilterIsLooser()
    ensures IsPackFile("article.json") && !BuildArticles.IsArticleFile("article.json")
    ensures IsPackFile("articlex.json") && !BuildArticles.IsArticleFile("articlex.json")
    ensures !IsPackFile("articles.json")
  {
    BuildArticles.ArticleFileRejects();
    assert "article.json"[..7] == "article" && "article.json"[7..] == ".json";
    assert "articlex.json"[..7] == "article" && "articlex.json"[8..] == ".json";
    assert !IsDecimalDigit("articlex.json"[7..8][0]);
  }

  /** A catalog written into the data directory does not change the selection. */
  lemma JsonFilesIgnoreCatalog(before: seq<string>, after: seq<string>)
    ensures JsonFiles(before + ["articles.json"] + after) == JsonFiles(before + after)
  {
    FilterSkipsRejected(before, "articles.json", after, IsPackFile);
  }

  // ---------------------------------------------------------------------------
  // Image names

  /** `data.image` can be evaluated: the read and parse succeeded and the record is not null. */
  predicate RecordReadable(read: Reader, p: Path) {
    read(p).Some? && !read(p).value.JNull?
  }

  function Readable(read: Reader): Path -> bool {
    (p: Path) => RecordReadable(read, p)
  }

  /** `path.join(inputDir, `${imageName}`)` */
  function ImagePath(imageName: Option<Json>): Path {
    Path(InputDir, ToText(imageName))
  }

  /** `imageNames`: the `image` field of each record, in record order. */
  function ImageNames(files: seq<Path>, read: Reader): seq<Option<Json>>
    requires forall i | 0 <= i < |files| :: RecordReadable(read, files[i])
  {
    seq(|files|, i requires 0 <= i < |files| && RecordReadable(read, files[i]) =>
      Property(read(files[i]).value, "image"))
  }

  function ImagePaths(imageNames: seq<Option<Json>>): seq<Path> {
    seq(|imageNames|, i requires 0 <= i < |imageNames| => ImagePath(imageNames[i]))
  }

  // ---------------------------------------------------------------------------
  // Grid placement

  /** The cell origin of position `i`: `((i % grid) * cellSize, floor(i / grid) * cellSize)`. */
  function GridOrigin(i: nat): (int, int) {
    ((i % Grid) * CellSize, (i / Grid) * CellSize)
  }

  /** The offsets the loop computes with its two conditional assignments. */
  function BranchOffsets(i: nat): (int, int) {
    (if i % 2 == 1 then CellSize else 0, if i > 1 then CellSize else 0)
  }

  /** For the four positions, the branches compute the grid formula. */
  lemma BranchesFollowGrid(i: nat)
    requires i < Grid * Grid
    ensures BranchOffsets(i) == GridOrigin(i)
  {
    assert i == 0 || i == 1 || i == 2 || i == 3;
  }

  /** A cell is 1024 pixels wide, and each position has its own quadrant: 0 top-left,
      1 top-right, 2 bottom-left, 3 bottom-right. */
  lemma GridQuadrants()
    ensures CellSize == 1024
    ensures GridOrigin(0) == (0, 0) && GridOrigin(1) == (CellSize, 0)
    ensures GridOrigin(2) == (0, CellSize) && GridOrigin(3) == (CellSize, CellSize)
  {
  }

  /** Every cell lies inside the canvas. */
  lemma GridCellsInsideCanvas(i: nat)
    requires i < Grid * Grid
    ensures 0 <= GridOrigin(i).0 && GridOrigin(i).0 + CellSize <= CanvasSize
    ensures 0 <= GridOrigin(i).1 && GridOrigin(i).1 + CellSize <= CanvasSize
  {
    assert i == 0 || i == 1 || i == 2 || i == 3;
  }

  /** Different positions get different cells, which do not overlap. */
  lemma GridCellsDisjoint(i: nat, j: nat)
    requires i < Grid * Grid && j < Grid * Grid && i != j
    ensures GridOrigin(i) != GridOrigin(j)
    ensures GridOrigin(i).0 + CellSize <= GridOrigin(j).0 || GridOrigin(j).0 + CellSize <= GridOrigin(i).0
         || GridOrigin(i).1 + CellSize <= GridOrigin(j).1 || GridOrigin(j).1 + CellSize <= GridOrigin(i).1
  {
    assert i == 0 || i == 1 || i == 2 || i == 3;
    assert j == 0 || j == 1 || j == 2 || j == 3;
  }

  // ---------------------------------------------------------------------------
  // packImages

  /** The two conditional assignments of the loop body, which place position `i`. */
  method CellOffsets(i: nat) returns (x: int, y: int)
    requires i < Grid * Grid
    ensures (x, y) == GridOrigin(i)
  {
    x := 0;
    if i % 2 == 1 { x := CellSize; }
    y := 0;
    if i > 1 { y := CellSize; }
    BranchesFollowGrid(i);
  }

  /** The loop of `packImages`: check each image in order and stop at the first missing one,
      otherwise resize it and push its layer at the cell of its position. `resized` are the
      images resized before the loop ends; a missing image is the one right after them. */
  method PlaceImages(imageNames: seq<Option<Json>>, fileExists: Path -> bool, resize: Path -> Bytes)
    returns (missing: Option<Path>, compositeList: seq<Layer>, resized: seq<Path>)
    requires |imageNames| <= Grid * Grid
    ensures |resized| <= |imageNames|
    ensures forall j | 0 <= j < |resized| :: resized[j] == ImagePath(imageNames[j]) && fileExists(resized[j])
    ensures missing.Some? ==>
      |resized| < |imageNames| && missing.value == ImagePath(imageNames[|resized|]) && !fileExists(missing.value)
    ensures missing.None? ==>
      |resized| == |imageNames| && |compositeList| == |imageNames|
      && forall j | 0 <= j < |imageNames| ::
           compositeList[j] == Layer(resize(resized[j]), GridOrigin(j).0, GridOrigin(j).1)
  {
    compositeList := [];
    resized := [];
    var i := 0;
    while i < |imageNames|
      invariant 0 <= i <= |imageNames| && |resized| == i && |compositeList| == i
      invariant forall j | 0 <= j < i :: resized[j] == ImagePath(imageNames[j]) && fileExists(resized[j])
      invariant forall j | 0 <= j < i :: compositeList[j] == Layer(resize(resized[j]), GridOrigin(j).0, GridOrigin(j).1)
    {
      var imgPath := ImagePath(imageNames[i]);
      if !fileExists(imgPath) {
        return Some(imgPath), compositeList, resized;
      }
      var buffer := resize(imgPath);
      resized := resized + [imgPath];

      var x, y := CellOffsets(i);

      compositeList := compositeList + [Layer(buffer, x, y)];
      i := i + 1;
    }
    missing := None;
  }

  /** The images resized by the loop are the paths before the first missing one. */
  lemma ResizedBeforeFirstMissing(imageNames: seq<Option<Json>>, fileExists: Path -> bool, resized: seq<Path>)
    requires |resized| <= |imageNames|
    requires forall j | 0 <= j < |resized| :: resized[j] == ImagePath(imageNames[j]) && fileExists(resized[j])
    requires |resized| < |imageNames| ==> !fileExists(ImagePath(imageNames[|resized|]))
    ensures FirstFailing(ImagePaths(imageNames), fileExists) == |resized|
    ensures resized == ImagePaths(imageNames)[..|resized|]
  {
    var paths := ImagePaths(imageNames);
    assert forall j | 0 <= j < |resized| :: paths[j] == resized[j];
    FirstFailingIsUnique(paths, fileExists, |resized|);
  }

  /** A run of `packImages` over a directory listing. `read` parses a record, `fileExists` is
      `fs.existsSync` and `resize` the image library's resize to fit one cell. Besides the
      outcome it reports the records read and the images resized, in order. */
  method PackImages(listing: seq<string>, read: Reader, fileExists: Path -> bool, resize: Path -> Bytes)
    returns (outcome: PackOutcome, recordsRead: seq<Path>, resized: seq<Path>)
    ensures var files := JsonFiles(listing);
      |files| != 4 ==> outcome == WrongCount(|files|) && recordsRead == [] && resized == []
    ensures var files := JsonFiles(listing); var k := FirstFailing(files, Readable(read));
      |files| == 4 && k < 4 ==>
        recordsRead == files[..k + 1] && resized == []
        && outcome == if read(files[k]).None? then ReadFailed(files[k]) else NullRecord(files[k])
    ensures var files := JsonFiles(listing);
      |files| == 4 && FirstFailing(files, Readable(read)) == 4 ==>
        recordsRead == files
        && var paths := ImagePaths(ImageNames(files, read)); var m := FirstFailing(paths, fileExists);
        (m < 4 ==> outcome == MissingImage(paths[m]) && resized == paths[..m])
        && (m == 4 ==>
              resized == paths
              && outcome.Packed?
              && var a := outcome.atlas;
              a.width == CanvasSize && a.height == CanvasSize && a.channels == 4
              && a.background == Rgba(0, 0, 0, 0) && a.file == OutputFile
              && |a.layers| == 4
              && forall i | 0 <= i < 4 ::
                   a.layers[i] == Layer(resize(paths[i]), GridOrigin(i).0, GridOrigin(i).1))
  {
    var jsonFiles := JsonFiles(listing);
    if |jsonFiles| != 4 {
      return WrongCount(|jsonFiles|), [], [];
    }

    // jsonFiles.map(...) reads every record first and throws at the first bad one.
    var k := FirstFailing(jsonFiles, Readable(read));
    if k < |jsonFiles| {
      recordsRead := jsonFiles[..k + 1];
      outcome := if read(jsonFiles[k]).None? then ReadFailed(jsonFiles[k]) else NullRecord(jsonFiles[k]);
      return outcome, recordsRead, [];
    }
    recordsRead := jsonFiles;
    var imageNames := ImageNames(jsonFiles, read);

    var missing, compositeList;
    missing, compositeList, resized := PlaceImages(imageNames, fileExists, resize);
    ResizedBeforeFirstMissing(imageNames, fileExists, resized);
    if missing.Some? {
      return MissingImage(missing.value), recordsRead, resized;
    }
    outcome := Packed(Atlas(CanvasSize, CanvasSize, 4, Rgba(0, 0, 0, 0), compositeList, OutputFile));
  }
}
