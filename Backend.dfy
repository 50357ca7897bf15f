/**
 * The demo web backend (`webapp/backend/app/main.py`): an uploaded file is
 * stored under a sanitised name, copied as the "original" result, drawn
 * over with five random boxes once per model, and copied twice more as the
 * heat maps.
 *
 * FastAPI routing, the pixels PIL decodes and draws, and the random
 * metrics are not part of this model; whether PIL can decode the upload
 * and which extensions it can save are parameters. `random.randint` is replaced by caller-supplied
 * draws: the draw `d` for `randint(lo, hi)` picks `lo + d % (hi - lo + 1)`,
 * so every value the library can return is the pick of some draw.
 */
module Backend {
  import opened Strings
  import opened Results

  const UploadDir := "uploads"
  const ResultDir := "results"

  // ---------------------------------------------------------------------
  // sanitize_filename
  // ---------------------------------------------------------------------

  /** `filename.replace(" ", "_").replace("/", "_")`. */
  function SanitizeFilename(filename: string): (r: string)
    ensures |r| == |filename|
    ensures forall i :: 0 <= i < |r| ==>
              r[i] == if filename[i] == ' ' || filename[i] == '/' then '_' else filename[i]
  {
    var spaced := Replace(filename, " ", "_");
    ReplaceChar(filename, ' ', '_');
    ReplaceChar(spaced, '/', '_');
    Replace(spaced, "/", "_")
  }

  /** The stored name contains neither a space nor a slash, so it is one path component. */
  lemma SanitizedHasNoSeparators(filename: string)
    ensures forall i :: 0 <= i < |SanitizeFilename(filename)| ==>
              SanitizeFilename(filename)[i] != ' ' && SanitizeFilename(filename)[i] != '/'
  {
  }

  /** Sanitising a sanitised name changes nothing. */
  lemma SanitizeIdempotent(filename: string)
    ensures SanitizeFilename(SanitizeFilename(filename)) == SanitizeFilename(filename)
  {
    var once := SanitizeFilename(filename);
    var twice := SanitizeFilename(once);
    assert forall i :: 0 <= i < |once| ==> twice[i] == once[i];
  }

  /** A name without spaces and slashes is stored exactly as uploaded. */
  lemma SanitizeKeepsPlainNames(filename: string)
    requires forall i :: 0 <= i < |filename| ==> filename[i] != ' ' && filename[i] != '/'
    ensures SanitizeFilename(filename) == filename
  {
  }

  /** Slashes cannot climb out of the directory, but the name `..` itself survives. */
  lemma DotNamesSurvive()
    ensures SanitizeFilename("../x") == ".._x"
    ensures SanitizeFilename("..") == ".."
  {
    var a := SanitizeFilename("../x");
    assert |a| == 4 && a[0] == '.' && a[1] == '.' && a[2] == '_' && a[3] == 'x';
    SanitizeKeepsPlainNames("..");
  }

  // ---------------------------------------------------------------------
  // simulate_segmentation
  // ---------------------------------------------------------------------

  /** How many boxes are drawn per result image. */
  const BoxCount: nat := 5
  const OutlineWidth: nat := 3

  /** `random.randint(lo, hi)` driven by the draw `d`. */
  function RandInt(lo: int, hi: int, d: nat): (v: int)
    requires lo <= hi
    ensures lo <= v <= hi
  {
    lo + d % (hi - lo + 1)
  }

  /** Every value `randint` can return is picked by some draw, namely its offset from `lo`. */
  lemma RandIntReaches(lo: int, hi: int, v: int)
    requires lo <= v <= hi
    ensures RandInt(lo, hi, (v - lo) as nat) == v
  {
  }

  /** The four draws of one iteration, in evaluation order: `x0`, `y0`, then the two extents. */
  datatype BoxDraws = BoxDraws(x: nat, y: nat, dx: nat, dy: nat)

  /** `draw.rectangle([x0, y0, x1, y1], outline=color, width=3)`. */
  datatype Box = Box(x0: int, y0: int, x1: int, y1: int, outline: string, width: nat)

  function OutlineColor(modelType: string): (c: string)
    ensures c == "red" <==> modelType == "segnet"
    ensures c == "red" || c == "green"
  {
    if modelType == "segnet" then "red" else "green"
  }

  /** One iteration of the loop, for an image `w` wide and `h` high. */
  function BoxFor(w: nat, h: nat, modelType: string, d: BoxDraws): (b: Box)
    ensures WithinBounds(b, w, h, modelType)
  {
    var x0 := RandInt(0, w / 2, d.x);
    var y0 := RandInt(0, h / 2, d.y);
    Box(x0, y0, x0 + RandInt(20, 50, d.dx), y0 + RandInt(20, 50, d.dy), OutlineColor(modelType), OutlineWidth)
  }

  /** What every drawn box satisfies. */
  ghost predicate WithinBounds(b: Box, w: nat, h: nat, modelType: string)
  {
    && 0 <= b.x0 <= w / 2 && 0 <= b.y0 <= h / 2
    && 20 <= b.x1 - b.x0 <= 50 && 20 <= b.y1 - b.y0 <= 50
    && (b.outline == "red" <==> modelType == "segnet")
    && (b.outline == "red" || b.outline == "green")
    && b.width == OutlineWidth
  }

  /** Every drawn box is within the bounds... */
  lemma BoxWithinBounds(w: nat, h: nat, modelType: string, d: BoxDraws)
    ensures WithinBounds(BoxFor(w, h, modelType, d), w, h, modelType)
  {
  }

  /** ... and every box within the bounds is drawn by some draws. */
  lemma BoundedBoxReachable(w: nat, h: nat, modelType: string, b: Box)
    requires WithinBounds(b, w, h, modelType)
    ensures BoxFor(w, h, modelType, BoxDraws(b.x0, b.y0, b.x1 - b.x0 - 20, b.y1 - b.y0 - 20)) == b
  {
    RandIntReaches(0, w / 2, b.x0);
    RandIntReaches(0, h / 2, b.y0);
    RandIntReaches(20, 50, b.x1 - b.x0);
    RandIntReaches(20, 50, b.y1 - b.y0);
  }

  /** The five-iteration loop of `simulate_segmentation`, returning the boxes drawn in order. */
  method SimulateSegmentation(w: nat, h: nat, modelType: string, draws: seq<BoxDraws>) returns (boxes: seq<Box>)
    requires |draws| == BoxCount
    ensures |boxes| == BoxCount
    ensures boxes == DrawnBoxes(w, h, modelType, draws)
  {
    boxes := [];
    for i := 0 to BoxCount
      invariant |boxes| == i
      invariant forall j :: 0 <= j < i ==> boxes[j] == BoxFor(w, h, modelType, draws[j])
    {
      boxes := boxes + [BoxFor(w, h, modelType, draws[i])];
    }
  }

  // ---------------------------------------------------------------------
  // upload_image
  // ---------------------------------------------------------------------

  /** The file-system effects of one upload, in order. */
  datatype Effect =
    | Store(path: string)
    | CopyFile(source: string, target: string)
    | Segment(source: string, target: string, boxes: seq<Box>)

  /** The subdirectory of `results` holding each kind of output, in upload order. */
  const OriginalSub := "original"
  const SegNetSub := "segnet"
  const UNetPlusPlusSub := "unetpp"
  const SegNetHeatmapSub := "heatmap/segnet"
  const UNetPlusPlusHeatmapSub := "heatmap/unetpp"

  function ResultPath(sub: string, filename: string): (p: string)
    ensures EndsWith(p, filename)
  {
    PathJoin(PathJoin(ResultDir, sub), filename)
  }

  /** `simulate_segmentation`'s boxes, one per draw. */
  function DrawnBoxes(w: nat, h: nat, modelType: string, draws: seq<BoxDraws>): (boxes: seq<Box>)
    ensures |boxes| == |draws|
    ensures forall i :: 0 <= i < |boxes| ==> WithinBounds(boxes[i], w, h, modelType)
  {
    seq(|draws|, i requires 0 <= i < |draws| => BoxFor(w, h, modelType, draws[i]))
  }

  /** The first two writes of an upload: the stored file and its copy as the original result. */
  function StoredEffects(filename: string): (e: seq<Effect>)
    ensures |e| == 2 && e[0].Store? && e[1].CopyFile?
    ensures e[0].path == e[1].source == PathJoin(UploadDir, filename)
    ensures e[1].target == ResultPath(OriginalSub, filename)
  {
    var filePath := PathJoin(UploadDir, filename);
    [Store(filePath), CopyFile(filePath, ResultPath(OriginalSub, filename))]
  }

  /**
   * The six writes of an upload read from `filePath`: store it, copy it to
   * the first target, draw over it into the next two, copy it to the last two.
   */
  function Writes(filePath: string, targets: seq<string>, segnetBoxes: seq<Box>, unetppBoxes: seq<Box>): (e: seq<Effect>)
    requires |targets| == 5
    ensures |e| == 6 && e[0] == Store(filePath)
    ensures forall k :: 0 <= k < 5 ==> !e[k + 1].Store? && e[k + 1].source == filePath && e[k + 1].target == targets[k]
    ensures e[2].Segment? && e[2].boxes == segnetBoxes && e[3].Segment? && e[3].boxes == unetppBoxes
    ensures e[1].CopyFile? && e[4].CopyFile? && e[5].CopyFile?
  {
    [ Store(filePath),
      CopyFile(filePath, targets[0]),
      Segment(filePath, targets[1], segnetBoxes),
      Segment(filePath, targets[2], unetppBoxes),
      CopyFile(filePath, targets[3]),
      CopyFile(filePath, targets[4]) ]
  }

  /**
   * What `upload_image` does with the stored name, once the boxes are drawn:
   * Writes from the stored file to the five result paths, in upload order.
   */
  function UploadEffects(filename: string, segnetBoxes: seq<Box>, unetppBoxes: seq<Box>): (e: seq<Effect>)
    ensures |e| == 6 && e[0] == StoredEffects(filename)[0] && e[1] == StoredEffects(filename)[1]
  {
    Writes(PathJoin(UploadDir, filename),
           [ ResultPath(OriginalSub, filename), ResultPath(SegNetSub, filename), ResultPath(UNetPlusPlusSub, filename),
             ResultPath(SegNetHeatmapSub, filename), ResultPath(UNetPlusPlusHeatmapSub, filename) ],
           segnetBoxes, unetppBoxes)
  }

  datatype Upload = Upload(filename: string, effects: seq<Effect>)

  /** The three ways `upload_image` raises instead of answering. */
  datatype UploadError =
      /** `open(file_path, "wb")` on a path that names a directory: nothing is written. */
    | IsADirectory(path: string)
      /** `Image.open(...).convert("RGB")` cannot decode the stored file: `written` was already done. */
    | NotAnImage(written: seq<Effect>)
      /** `im.save(output_path)` finds no format for the lower-cased extension `ext`. */
    | UnknownExtension(ext: string, written: seq<Effect>)

  /**
   * The slash-free names that, joined to a directory, name that directory
   * or its parent instead of an entry inside it.
   */
  predicate IsDirectoryName(f: string): (b: bool)
    ensures b <==> |f| <= 2 && forall i :: 0 <= i < |f| ==> f[i] == '.'
  {
    f == "" || f == "." || f == ".."
  }

  /** The lower-cased extension `im.save` looks up to choose a format. */
  function SaveKey(filename: string): (k: string)
    ensures k == "" || (k[0] == '.' && |k| <= |filename|)
  {
    AsciiLower(Extension(filename))
  }

  /**
   * The stored name and content for which `upload_image` answers:
   * `decodes` is whether PIL can open and convert the stored bytes,
   * `saveExtensions` the extensions PIL has a writer for.
   */
  predicate UploadSucceeds(filename: string, decodes: bool, saveExtensions: set<string>): (b: bool)
    ensures b ==> decodes && SaveKey(filename) in saveExtensions
    ensures b && "" !in saveExtensions ==>
      exists j :: 0 <= j < |filename| - |SaveKey(filename)| && filename[j] != '.'
  {
    !IsDirectoryName(filename) && decodes && SaveKey(filename) in saveExtensions
  }

  /**
   * `upload_image`: the stored name, then the six writes. A stored name of
   * "", "." or ".." makes the first write open a directory, which raises
   * before anything is written. Otherwise the file is stored and copied,
   * and the first `simulate_segmentation` raises when PIL cannot decode it
   * or has no writer for its extension, leaving those two writes behind;
   * the second call sees the same file and the same extension, so it
   * cannot fail once the first has not.
   */
  method UploadImage(clientName: string, decodes: bool, saveExtensions: set<string>, w: nat, h: nat,
                     segnetDraws: seq<BoxDraws>, unetppDraws: seq<BoxDraws>)
    returns (res: Result<Upload, UploadError>)
    requires |segnetDraws| == BoxCount && |unetppDraws| == BoxCount
    ensures res.Ok? <==> UploadSucceeds(SanitizeFilename(clientName), decodes, saveExtensions)
    ensures IsDirectoryName(SanitizeFilename(clientName)) ==>
              res == Err(IsADirectory(PathJoin(UploadDir, SanitizeFilename(clientName))))
    ensures !IsDirectoryName(SanitizeFilename(clientName)) && !decodes ==>
              res == Err(NotAnImage(StoredEffects(SanitizeFilename(clientName))))
    ensures !IsDirectoryName(SanitizeFilename(clientName)) && decodes && SaveKey(SanitizeFilename(clientName)) !in saveExtensions ==>
              res == Err(UnknownExtension(SaveKey(SanitizeFilename(clientName)), StoredEffects(SanitizeFilename(clientName))))
    ensures res.Ok? ==> res.value.filename == SanitizeFilename(clientName)
    ensures res.Ok? ==> res.value.effects == UploadEffects(res.value.filename, DrawnBoxes(w, h, "segnet", segnetDraws),
                                                           DrawnBoxes(w, h, "unetpp", unetppDraws))
  {
    var filename := SanitizeFilename(clientName);
    if IsDirectoryName(filename) {
      return Err(IsADirectory(PathJoin(UploadDir, filename)));
    }
    var written := StoredEffects(filename);
    if !decodes {
      return Err(NotAnImage(written));
    }
    var segnetBoxes := SimulateSegmentation(w, h, "segnet", segnetDraws);
    var key := AsciiLower(Extension(filename));
    if key !in saveExtensions {
      return Err(UnknownExtension(key, written));
    }
    var unetppBoxes := SimulateSegmentation(w, h, "unetpp", unetppDraws);
    res := Ok(Upload(filename, UploadEffects(filename, segnetBoxes, unetppBoxes)));
  }

  /** Each of the three directory names is reached by some client name, e.g. ".." itself. */
  lemma DirectoryNamesRejected()
    ensures IsDirectoryName(SanitizeFilename(""))
    ensures IsDirectoryName(SanitizeFilename("."))
    ensures IsDirectoryName(SanitizeFilename(".."))
  {
    SanitizeKeepsPlainNames(".");
    SanitizeKeepsPlainNames("..");
  }

  /**
   * A name without a dot, such as `scan`, has the empty extension, which no
   * writer claims: its upload fails whatever the content.
   */
  lemma DotlessNamesFail(clientName: string, decodes: bool, saveExtensions: set<string>)
    requires forall i :: 0 <= i < |clientName| ==> clientName[i] != '.'
    requires "" !in saveExtensions
    ensures !UploadSucceeds(SanitizeFilename(clientName), decodes, saveExtensions)
  {
    var f := SanitizeFilename(clientName);
    assert forall i :: 0 <= i < |f| ==> f[i] != '.';
    ExtensionOfDotless(f);
  }

  /** A name `stem.ext` is saved under the lower-cased `.ext`, whatever case the client used. */
  lemma SaveKeyOfStemAndExtension(stem: string, ext: string)
    requires |stem| > 0 && stem[0] != '.'
    requires forall i :: 0 <= i < |ext| ==> ext[i] != '.'
    ensures SaveKey(stem + "." + ext) == "." + AsciiLower(ext)
  {
    ExtensionAfterStem(stem, ext);
    assert AsciiLower("." + ext) == [AsciiLower(".")[0]] + AsciiLower(ext) by {
      assert ("." + ext)[1..] == ext;
    }
  }

  /** `x.PNG` is looked up as `.png`: the upper-case extension is lowered letter by letter. */
  lemma UpperCasePngIsLowered(stem: string)
    requires |stem| > 0 && stem[0] != '.'
    ensures SaveKey(stem + ".PNG") == ".png"
  {
    assert stem + ".PNG" == stem + "." + "PNG";
    SaveKeyOfStemAndExtension(stem, "PNG");
    var l := AsciiLower("PNG");
    assert l[0] == 'p' && l[1] == 'n' && l[2] == 'g';
    assert l == "png";
  }

  /** A name that is accepted is one entry of a directory: not empty, not `.` or `..`, no slash. */
  predicate IsEntryName(f: string)
  {
    !IsDirectoryName(f) && forall i :: 0 <= i < |f| ==> f[i] != '/'
  }

  /** Every stored name of a successful upload names an entry, not a directory. */
  lemma AcceptedNamesAreEntries(clientName: string, decodes: bool, saveExtensions: set<string>)
    requires UploadSucceeds(SanitizeFilename(clientName), decodes, saveExtensions)
    ensures IsEntryName(SanitizeFilename(clientName))
  {
    SanitizedHasNoSeparators(clientName);
  }

  /** A name with no slash written under a directory lands directly in that directory. */
  lemma JoinStaysInDirectory(dir: string, filename: string)
    requires dir != "" && !EndsWith(dir, "/")
    requires forall i :: 0 <= i < |filename| ==> filename[i] != '/'
    ensures PathJoin(dir, filename) == dir + "/" + filename
  {
    assert !StartsWith(filename, "/") by {
      if |filename| > 0 {
        assert filename[0] != '/';
      }
    }
  }

  /** A result written under a plain subdirectory lands directly in it. */
  lemma ResultPathInDirectory(sub: string, f: string)
    requires |sub| > 0 && sub[0] != '/' && sub[|sub| - 1] != '/'
    requires forall i :: 0 <= i < |f| ==> f[i] != '/'
    ensures ResultPath(sub, f) == ResultDir + "/" + sub + "/" + f
  {
    assert !StartsWith(sub, "/") && !EndsWith(sub, "/");
    var d := PathJoin(ResultDir, sub);
    assert d == ResultDir + "/" + sub;
    assert d[|d| - 1] == sub[|sub| - 1];
    JoinStaysInDirectory(d, f);
  }

  /** The five result subdirectories are plain relative names. */
  lemma ResultSubdirectoriesPlain()
    ensures forall sub :: sub in {OriginalSub, SegNetSub, UNetPlusPlusSub, SegNetHeatmapSub, UNetPlusPlusHeatmapSub} ==>
              |sub| > 0 && sub[0] != '/' && sub[|sub| - 1] != '/'
  {
  }

  /**
   * Whatever name the client sends, the upload path and every result path
   * derived from it are the directory, `/`, and the stored name; for a
   * successful upload (AcceptedNamesAreEntries) that is a file
   * directly inside the directory.
   */
  lemma UploadsStayInTheirDirectories(clientName: string, sub: string)
    requires sub in {OriginalSub, SegNetSub, UNetPlusPlusSub, SegNetHeatmapSub, UNetPlusPlusHeatmapSub}
    ensures PathJoin(UploadDir, SanitizeFilename(clientName)) == UploadDir + "/" + SanitizeFilename(clientName)
    ensures ResultPath(sub, SanitizeFilename(clientName)) == ResultDir + "/" + sub + "/" + SanitizeFilename(clientName)
  {
    var f := SanitizeFilename(clientName);
    SanitizedHasNoSeparators(clientName);
    ResultSubdirectoriesPlain();
    JoinStaysInDirectory(UploadDir, f);
    ResultPathInDirectory(sub, f);
  }
}
