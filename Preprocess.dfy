/**
 * Turning the split directories into tensors: each image becomes an RGB
 * grid scaled to [0, 1], each mask a 4-channel binary tensor that repeats
 * the same "lesion present" plane in every channel, and images and masks
 * are paired by their positions in the two sorted directory listings.
 *
 * Decoding (`cv2.imread`, `cvtColor`) and resizing (`cv2.resize`) are
 * foreign: their results are inputs here.
 */
module Preprocess {
  import opened Results
  import opened Strings
  import opened Sorting

  const TrainImgDir := "data/processed/train/images"
  const TrainMaskDir := "data/processed/train/masks"
  const TestImgDir := "data/processed/test/images"
  const TestMaskDir := "data/processed/test/masks"
  const OutputDir := "data/processed"
  const TargetSize: (nat, nat) := (512, 512)
  const Classes: nat := 4

  /** `rows` rows of `cols` grey values, as `cv2.resize(mask, (cols, rows))` returns them. */
  ghost predicate IsGray(g: seq<seq<int>>, rows: nat, cols: nat)
  {
    |g| == rows && forall r :: 0 <= r < rows ==> |g[r]| == cols
  }

  /** `rows` x `cols` RGB pixels with 8-bit channels. */
  ghost predicate IsRgb(g: seq<seq<seq<int>>>, rows: nat, cols: nat)
  {
    && |g| == rows
    && (forall r :: 0 <= r < rows ==> |g[r]| == cols)
    && (forall r, c :: 0 <= r < rows && 0 <= c < cols ==> |g[r][c]| == 3)
    && (forall r, c, k :: 0 <= r < rows && 0 <= c < cols && 0 <= k < 3 ==> 0 <= g[r][c][k] <= 255)
  }

  /** `v / 255.0` for an 8-bit value. */
  function Normalize(v: int): (x: real)
    requires 0 <= v <= 255
    ensures 0.0 <= x <= 1.0
    ensures x * 255.0 == v as real
  {
    v as real / 255.0
  }

  /** `img.astype(np.float32) / 255.0` over the whole grid. */
  function NormalizeImage(img: seq<seq<seq<int>>>, rows: nat, cols: nat): (t: seq<seq<seq<real>>>)
    requires IsRgb(img, rows, cols)
    ensures |t| == rows
    ensures forall r :: 0 <= r < rows ==> |t[r]| == cols
    ensures forall r, c :: 0 <= r < rows && 0 <= c < cols ==> |t[r][c]| == 3
    ensures forall r, c, k :: 0 <= r < rows && 0 <= c < cols && 0 <= k < 3 ==>
              0.0 <= t[r][c][k] <= 1.0 && t[r][c][k] * 255.0 == img[r][c][k] as real
  {
    seq(rows, r requires 0 <= r < rows =>
      seq(cols, c requires 0 <= c < cols =>
        seq(3, k requires 0 <= k < 3 => Normalize(img[r][c][k]))))
  }

  /** `(mask > 0).astype(np.uint8)` for one pixel. */
  function Foreground(v: int): (b: int)
    ensures b == 0 || b == 1
    ensures b == 1 <==> v > 0
  {
    if v > 0 then 1 else 0
  }

  /**
   * `t` is the encoding of `mask`: `n` x `n` pixels of `Classes` channels,
   * each channel holding 1 exactly where the mask pixel is positive.
   */
  ghost predicate IsMaskEncoding(t: seq<seq<seq<int>>>, mask: seq<seq<int>>, n: nat)
    requires IsGray(mask, n, n)
  {
    && |t| == n
    && (forall r :: 0 <= r < n ==> |t[r]| == n)
    && (forall r, c :: 0 <= r < n && 0 <= c < n ==> |t[r][c]| == Classes)
    && (forall r, c, k :: 0 <= r < n && 0 <= c < n && 0 <= k < Classes ==>
          t[r][c][k] == Foreground(mask[r][c]))
  }

  datatype PreprocessError =
    | ImageUnreadable     // cv2.imread returned None, cvtColor raises
    | MaskUnreadable      // cv2.imread returned None, resize raises
    | ShapeMismatch       // the resized mask does not fit the (w, h, 4) buffer

  function Zeros(n: nat): (t: seq<seq<seq<int>>>)
    ensures |t| == n && forall r :: 0 <= r < n ==> |t[r]| == n
    ensures forall r, c :: 0 <= r < n && 0 <= c < n ==> |t[r][c]| == Classes
    ensures forall r, c, k :: 0 <= r < n && 0 <= c < n && 0 <= k < Classes ==> t[r][c][k] == 0
  {
    seq(n, r => seq(n, c => seq(Classes, k => 0)))
  }

  /** `t[:, :, k] = plane`. */
  function SetChannel(t: seq<seq<seq<int>>>, k: nat, plane: seq<seq<int>>, n: nat): (u: seq<seq<seq<int>>>)
    requires k < Classes && IsGray(plane, n, n)
    requires |t| == n && forall r :: 0 <= r < n ==> |t[r]| == n
    requires forall r, c :: 0 <= r < n && 0 <= c < n ==> |t[r][c]| == Classes
    ensures |u| == n && forall r :: 0 <= r < n ==> |u[r]| == n
    ensures forall r, c :: 0 <= r < n && 0 <= c < n ==> |u[r][c]| == Classes
    ensures forall r, c :: 0 <= r < n && 0 <= c < n ==> u[r][c][k] == plane[r][c]
    ensures forall r, c, j :: 0 <= r < n && 0 <= c < n && 0 <= j < Classes && j != k ==> u[r][c][j] == t[r][c][j]
  {
    seq(n, r requires 0 <= r < n => seq(n, c requires 0 <= c < n => t[r][c][k := plane[r][c]]))
  }

  /**
   * The mask half of `load_and_preprocess`: `mask_multi` has shape
   * (target_size[0], target_size[1], 4), and each channel is assigned the
   * binarised mask, whose shape is (target_size[1], target_size[0]); NumPy
   * refuses the assignment unless the two shapes agree, i.e. unless the
   * target is square.
   */
  method EncodeMask(mask: seq<seq<int>>, targetSize: (nat, nat))
    returns (res: Result<seq<seq<seq<int>>>, PreprocessError>)
    requires IsGray(mask, targetSize.1, targetSize.0)
    ensures res.Err? <==> targetSize.0 != targetSize.1
    ensures res.Err? ==> res.error == ShapeMismatch
    ensures res.Ok? ==> IsMaskEncoding(res.value, mask, targetSize.0)
  {
    var n := targetSize.0;
    if targetSize.1 != n {
      return Err(ShapeMismatch);
    }
    var plane := seq(n, r requires 0 <= r < n => seq(n, c requires 0 <= c < n => Foreground(mask[r][c])));
    var multi := Zeros(n);
    for i := 0 to Classes
      invariant |multi| == n && forall r :: 0 <= r < n ==> |multi[r]| == n
      invariant forall r, c :: 0 <= r < n && 0 <= c < n ==> |multi[r][c]| == Classes
      invariant forall r, c, k :: 0 <= r < n && 0 <= c < n && 0 <= k < Classes ==>
                  multi[r][c][k] == if k < i then Foreground(mask[r][c]) else 0
    {
      multi := SetChannel(multi, i, plane, n);
    }
    res := Ok(multi);
  }

  /** Every element of an encoded mask is 0 or 1. */
  lemma MaskEncodingBinary(t: seq<seq<seq<int>>>, mask: seq<seq<int>>, n: nat)
    requires IsGray(mask, n, n) && IsMaskEncoding(t, mask, n)
    ensures forall r, c, k :: 0 <= r < n && 0 <= c < n && 0 <= k < Classes ==>
              t[r][c][k] == 0 || t[r][c][k] == 1
    ensures forall r, c, k :: 0 <= r < n && 0 <= c < n && 0 <= k < Classes ==>
              (t[r][c][k] == 1 <==> mask[r][c] > 0)
  {
  }

  /** The four channels of an encoded mask are the same plane. */
  lemma MaskChannelsIdentical(t: seq<seq<seq<int>>>, mask: seq<seq<int>>, n: nat)
    requires IsGray(mask, n, n) && IsMaskEncoding(t, mask, n)
    ensures forall r, c, k, l :: 0 <= r < n && 0 <= c < n && 0 <= k < Classes && 0 <= l < Classes ==>
              t[r][c][k] == t[r][c][l]
  {
  }

  /** The encoding of a mask is unique. */
  lemma MaskEncodingUnique(t: seq<seq<seq<int>>>, u: seq<seq<seq<int>>>, mask: seq<seq<int>>, n: nat)
    requires IsGray(mask, n, n) && IsMaskEncoding(t, mask, n) && IsMaskEncoding(u, mask, n)
    ensures t == u
  {
    forall r | 0 <= r < n ensures t[r] == u[r] {
      forall c | 0 <= c < n ensures t[r][c] == u[r][c] {
        assert forall k :: 0 <= k < Classes ==> t[r][c][k] == u[r][c][k];
      }
    }
  }

  /**
   * `load_and_preprocess`: `image` and `mask` are what `cv2.imread` gave
   * (None for an unreadable file), after colour conversion and resizing.
   */
  method LoadAndPreprocess(image: Option<seq<seq<seq<int>>>>, mask: Option<seq<seq<int>>>, targetSize: (nat, nat))
    returns (res: Result<(seq<seq<seq<real>>>, seq<seq<seq<int>>>), PreprocessError>)
    requires image.Some? ==> IsRgb(image.value, targetSize.1, targetSize.0)
    requires mask.Some? ==> IsGray(mask.value, targetSize.1, targetSize.0)
    ensures image.None? ==> res == Err(ImageUnreadable)
    ensures image.Some? && mask.None? ==> res == Err(MaskUnreadable)
    ensures image.Some? && mask.Some? && targetSize.0 != targetSize.1 ==> res == Err(ShapeMismatch)
    ensures res.Ok? <==> image.Some? && mask.Some? && targetSize.0 == targetSize.1
    ensures res.Ok? ==> res.value.0 == NormalizeImage(image.value, targetSize.1, targetSize.0)
    ensures res.Ok? ==> IsMaskEncoding(res.value.1, mask.value, targetSize.0)
  {
    if image.None? {
      return Err(ImageUnreadable);
    }
    var img := NormalizeImage(image.value, targetSize.1, targetSize.0);
    if mask.None? {
      return Err(MaskUnreadable);
    }
    var encoded := EncodeMask(mask.value, targetSize);
    if encoded.Err? {
      return Err(encoded.error);
    }
    res := Ok((img, encoded.value));
  }

  /** `glob(os.path.join(dir, "*.png"))`: names ending in ".png" that are not hidden. */
  predicate GlobPng(name: string)
    ensures GlobPng(name) ==> |name| > |".png"|
  {
    EndsWith(name, ".png") && !StartsWith(name, ".")
  }

  function GlobPngNames(listing: seq<string>): (r: seq<string>)
    ensures |r| <= |listing|
    ensures forall i :: 0 <= i < |r| ==> GlobPng(r[i])
  {
    if listing == [] then []
    else
      var rest := GlobPngNames(listing[1..]);
      if GlobPng(listing[0]) then [listing[0]] + rest else rest
  }

  /** The glob keeps every visible ".png" name as often as it is listed, and nothing else. */
  lemma {:induction false} GlobPngCounts(listing: seq<string>, f: string)
    ensures multiset(GlobPngNames(listing))[f] == if GlobPng(f) then multiset(listing)[f] else 0
  {
    if listing != [] {
      GlobPngCounts(listing[1..], f);
      assert listing == [listing[0]] + listing[1..];
    }
  }

  function Min(a: nat, b: nat): nat
  {
    if a <= b then a else b
  }

  /**
   * `zip(sorted(images), sorted(masks))`: the i-th image name with the i-th
   * mask name, as long as both lists last. process_dataset sorts full paths;
   * SortedPathsPairAsNames shows that this pairs the same files.
   */
  function Pairs(imageListing: seq<string>, maskListing: seq<string>): (p: seq<(string, string)>)
    ensures |p| == Min(|GlobPngNames(imageListing)|, |GlobPngNames(maskListing)|)
    ensures forall i :: 0 <= i < |p| ==>
              p[i] == (SortNames(GlobPngNames(imageListing))[i], SortNames(GlobPngNames(maskListing))[i])
  {
    Zip(SortNames(GlobPngNames(imageListing)), SortNames(GlobPngNames(maskListing)))
  }

  /**
   * Sorting the globbed paths `dir + "/" + name` and zipping them pairs the
   * same files as `Pairs` does on the bare names.
   */
  lemma SortedPathsPairAsNames(imgDir: string, maskDir: string, imageListing: seq<string>, maskListing: seq<string>)
    ensures var z := Zip(SortNames(Prefixed(imgDir + "/", GlobPngNames(imageListing))),
                         SortNames(Prefixed(maskDir + "/", GlobPngNames(maskListing))));
            var p := Pairs(imageListing, maskListing);
            |z| == |p| && forall i :: 0 <= i < |z| ==> z[i] == (imgDir + "/" + p[i].0, maskDir + "/" + p[i].1)
  {
    SortPrefixed(imgDir + "/", GlobPngNames(imageListing));
    SortPrefixed(maskDir + "/", GlobPngNames(maskListing));
  }

  /** Python's `zip`: pairs by position, as long as both lists last. */
  function Zip<A, B>(a: seq<A>, b: seq<B>): (r: seq<(A, B)>)
    ensures |r| == Min(|a|, |b|)
    ensures forall i :: 0 <= i < |r| ==> r[i] == (a[i], b[i])
  {
    seq(Min(|a|, |b|), i requires 0 <= i < Min(|a|, |b|) => (a[i], b[i]))
  }

  /**
   * Pairing is by position, not by name: when the image of `x` sorts before
   * that of `y` but the mask of `y` sorts before that of `x`, each image is
   * paired with the other one's mask.
   */
  lemma PairingIsPositional(x: string, y: string)
    requires GlobPng(x + ".png") && GlobPng(y + ".png") && GlobPng(x + "_valid.png") && GlobPng(y + "_valid.png")
    requires LexLe(x + ".png", y + ".png") && !LexLe(x + "_valid.png", y + "_valid.png")
    ensures var il, ml := [x + ".png", y + ".png"], [x + "_valid.png", y + "_valid.png"];
            Pairs(il, ml) == [(x + ".png", y + "_valid.png"), (y + ".png", x + "_valid.png")]
  {
    LexLeTotal(x + "_valid.png", y + "_valid.png");
    CrossedPairs(x + ".png", y + ".png", x + "_valid.png", y + "_valid.png");
  }

  /** Two images in order and two masks in reverse order pair crosswise. */
  lemma CrossedPairs(i1: string, i2: string, m1: string, m2: string)
    requires GlobPng(i1) && GlobPng(i2) && GlobPng(m1) && GlobPng(m2)
    requires LexLe(i1, i2) && LexLe(m2, m1)
    ensures Pairs([i1, i2], [m1, m2]) == [(i1, m2), (i2, m1)]
  {
    SortedPair(i1, i2);
    SortedPair(m2, m1);
    PairsOfTwo([i1, i2], [m1, m2], i1, i2, m2, m1);
  }

  /** Two sorted images and two sorted masks make two pairs, first with first. */
  lemma PairsOfTwo(il: seq<string>, ml: seq<string>, x1: string, x2: string, y1: string, y2: string)
    requires SortNames(GlobPngNames(il)) == [x1, x2] && SortNames(GlobPngNames(ml)) == [y1, y2]
    ensures Pairs(il, ml) == [(x1, y1), (x2, y2)]
  {
    ZipTwo(x1, x2, y1, y2);
  }

  lemma ZipTwo<A, B>(x1: A, x2: A, y1: B, y2: B)
    ensures Zip([x1, x2], [y1, y2]) == [(x1, y1), (x2, y2)]
  {
    var z := Zip([x1, x2], [y1, y2]);
    assert |z| == 2 && z[0] == (x1, y1) && z[1] == (x2, y2);
  }

  /** Two visible ".png" names, listed in either order, glob and sort to `[a, b]` when `a <= b`. */
  lemma SortedPair(a: string, b: string)
    requires GlobPng(a) && GlobPng(b) && LexLe(a, b)
    ensures SortNames(GlobPngNames([a, b])) == [a, b]
    ensures SortNames(GlobPngNames([b, a])) == [a, b]
  {
    GlobSortTwo(a, b);
    GlobSortTwo(b, a);
    if LexLe(b, a) {
      LexLeAntisym(a, b);
    }
  }

  lemma GlobSortTwo(a: string, b: string)
    requires GlobPng(a) && GlobPng(b)
    ensures SortNames(GlobPngNames([a, b])) == if LexLe(a, b) then [a, b] else [b, a]
  {
    GlobKeepsAll([a, b]);
    SortTwo(a, b);
  }

  /** Sorting two names puts the smaller first. */
  lemma SortTwo(a: string, b: string)
    ensures SortNames([a, b]) == if LexLe(a, b) then [a, b] else [b, a]
  {
    if LexLe(a, b) {
      assert Sorted([a, b]);
      SortedUnique(SortNames([a, b]), [a, b]);
    } else {
      LexLeTotal(a, b);
      assert Sorted([b, a]);
      assert multiset([a, b]) == multiset([b, a]);
      SortedUnique(SortNames([a, b]), [b, a]);
    }
  }

  /** Such ids exist: "a" and "a_b" ('.' sorts before '_', but 'b' before 'v')... */
  lemma CrossingIdsExist()
    ensures LexLe("a" + ".png", "a_b" + ".png") && !LexLe("a" + "_valid.png", "a_b" + "_valid.png")
  {
    assert "a" + ".png" == "a.png" && "a_b" + ".png" == "a_b.png";
    assert "a" + "_valid.png" == "a_valid.png" && "a_b" + "_valid.png" == "a_b_valid.png";
    assert LexLe("a.png", "a_b.png") by {
      assert "a.png"[1..] == ".png" && "a_b.png"[1..] == "_b.png";
    }
    assert !LexLe("a_valid.png", "a_b_valid.png") by {
      assert "a_valid.png"[1..] == "_valid.png" && "a_b_valid.png"[1..] == "_b_valid.png";
      assert "_valid.png"[1..] == "valid.png" && "_b_valid.png"[1..] == "b_valid.png";
    }
  }

  /** ... and their files are all matched by the glob. */
  lemma CrossingIdsVisible()
    ensures GlobPng("a" + ".png") && GlobPng("a_b" + ".png")
    ensures GlobPng("a" + "_valid.png") && GlobPng("a_b" + "_valid.png")
  {
    assert "a" + ".png" == "a.png" && "a_b" + ".png" == "a_b.png";
    assert "a" + "_valid.png" == "a_valid.png" && "a_b" + "_valid.png" == "a_b_valid.png";
    assert "a.png"[1..] == ".png" && "a_b.png"[3..] == ".png";
    assert "a_valid.png"[7..] == ".png" && "a_b_valid.png"[9..] == ".png";
    assert "a.png"[..1] == "a_b.png"[..1] == "a_valid.png"[..1] == "a_b_valid.png"[..1] == "a";
  }

  lemma {:induction false} GlobKeepsAll(l: seq<string>)
    requires forall i :: 0 <= i < |l| ==> GlobPng(l[i])
    ensures GlobPngNames(l) == l
  {
    if l != [] {
      GlobKeepsAll(l[1..]);
    }
  }

  /** The arrays `process_dataset` returns: `images[i]` and `masks[i]` come from pair `i`. */
  datatype Dataset = Dataset(images: seq<seq<seq<seq<real>>>>, masks: seq<seq<seq<seq<int>>>>)

  /** Both files of a pair decode. */
  ghost predicate Readable(pair: (string, string), imgDir: string, maskDir: string,
                           readImage: string -> Option<seq<seq<seq<int>>>>,
                           readMask: string -> Option<seq<seq<int>>>)
  {
    readImage(PathJoin(imgDir, pair.0)).Some? && readMask(PathJoin(maskDir, pair.1)).Some?
  }

  /** `x` and `y` are what `load_and_preprocess` makes of the files of `pair`. */
  ghost predicate Loaded(x: seq<seq<seq<real>>>, y: seq<seq<seq<int>>>, pair: (string, string),
                         imgDir: string, maskDir: string,
                         readImage: string -> Option<seq<seq<seq<int>>>>,
                         readMask: string -> Option<seq<seq<int>>>,
                         targetSize: (nat, nat))
  {
    var image, mask := readImage(PathJoin(imgDir, pair.0)), readMask(PathJoin(maskDir, pair.1));
    && image.Some? && mask.Some? && targetSize.0 == targetSize.1
    && IsRgb(image.value, targetSize.1, targetSize.0)
    && IsGray(mask.value, targetSize.1, targetSize.0)
    && x == NormalizeImage(image.value, targetSize.1, targetSize.0)
    && IsMaskEncoding(y, mask.value, targetSize.0)
  }

  /** What `load_and_preprocess` raises for `pair`, if anything; the image is read first. */
  ghost function PairError(pair: (string, string), imgDir: string, maskDir: string,
                           readImage: string -> Option<seq<seq<seq<int>>>>,
                           readMask: string -> Option<seq<seq<int>>>,
                           targetSize: (nat, nat)): (e: Option<PreprocessError>)
    ensures e.None? <==> Readable(pair, imgDir, maskDir, readImage, readMask) && targetSize.0 == targetSize.1
  {
    if readImage(PathJoin(imgDir, pair.0)).None? then Some(ImageUnreadable)
    else if readMask(PathJoin(maskDir, pair.1)).None? then Some(MaskUnreadable)
    else if targetSize.0 != targetSize.1 then Some(ShapeMismatch)
    else None
  }

  /** `e` is the error of pair `i`, and every pair before `i` loads. */
  ghost predicate FailsWith(e: PreprocessError, pairs: seq<(string, string)>, imgDir: string, maskDir: string,
                            readImage: string -> Option<seq<seq<seq<int>>>>,
                            readMask: string -> Option<seq<seq<int>>>,
                            targetSize: (nat, nat))
  {
    exists i :: 0 <= i < |pairs| && PairError(pairs[i], imgDir, maskDir, readImage, readMask, targetSize) == Some(e)
      && forall j :: 0 <= j < i ==> PairError(pairs[j], imgDir, maskDir, readImage, readMask, targetSize).None?
  }

  /** Every pair loads (with no pair, even a non-square target does). */
  ghost predicate AllLoad(pairs: seq<(string, string)>, imgDir: string, maskDir: string,
                          readImage: string -> Option<seq<seq<seq<int>>>>,
                          readMask: string -> Option<seq<seq<int>>>,
                          targetSize: (nat, nat))
  {
    (targetSize.0 == targetSize.1 || |pairs| == 0) &&
    forall i :: 0 <= i < |pairs| ==> Readable(pairs[i], imgDir, maskDir, readImage, readMask)
  }

  /** `d` holds one loaded entry per pair, in pair order. */
  ghost predicate LoadedAll(d: Dataset, pairs: seq<(string, string)>, imgDir: string, maskDir: string,
                            readImage: string -> Option<seq<seq<seq<int>>>>,
                            readMask: string -> Option<seq<seq<int>>>,
                            targetSize: (nat, nat))
  {
    && |d.images| == |d.masks| == |pairs|
    && forall i :: 0 <= i < |pairs| ==>
         Loaded(d.images[i], d.masks[i], pairs[i], imgDir, maskDir, readImage, readMask, targetSize)
  }

  /**
   * `process_dataset`: load every zipped pair in order; the first pair that
   * fails aborts the whole call with its error. `readImage` and `readMask`
   * give the decoded, converted and resized grid for a path, or None when
   * `cv2.imread` fails.
   */
  method ProcessDataset(imgDir: string, maskDir: string, imageListing: seq<string>, maskListing: seq<string>,
                        readImage: string -> Option<seq<seq<seq<int>>>>,
                        readMask: string -> Option<seq<seq<int>>>,
                        targetSize: (nat, nat))
    returns (res: Result<Dataset, PreprocessError>)
    requires forall p :: readImage(p).Some? ==> IsRgb(readImage(p).value, targetSize.1, targetSize.0)
    requires forall p :: readMask(p).Some? ==> IsGray(readMask(p).value, targetSize.1, targetSize.0)
    ensures res.Ok? <==> AllLoad(Pairs(imageListing, maskListing), imgDir, maskDir, readImage, readMask, targetSize)
    ensures res.Ok? ==> LoadedAll(res.value, Pairs(imageListing, maskListing), imgDir, maskDir, readImage, readMask, targetSize)
    ensures res.Err? ==> FailsWith(res.error, Pairs(imageListing, maskListing), imgDir, maskDir, readImage, readMask, targetSize)
  {
    res := LoadPairs(Pairs(imageListing, maskListing), imgDir, maskDir, readImage, readMask, targetSize);
  }

  /** The loop of `process_dataset` over the zipped pairs. */
  method LoadPairs(pairs: seq<(string, string)>, imgDir: string, maskDir: string,
                   readImage: string -> Option<seq<seq<seq<int>>>>,
                   readMask: string -> Option<seq<seq<int>>>,
                   targetSize: (nat, nat))
    returns (res: Result<Dataset, PreprocessError>)
    requires forall p :: readImage(p).Some? ==> IsRgb(readImage(p).value, targetSize.1, targetSize.0)
    requires forall p :: readMask(p).Some? ==> IsGray(readMask(p).value, targetSize.1, targetSize.0)
    ensures res.Ok? <==> AllLoad(pairs, imgDir, maskDir, readImage, readMask, targetSize)
    ensures res.Ok? ==> LoadedAll(res.value, pairs, imgDir, maskDir, readImage, readMask, targetSize)
    ensures res.Err? ==> FailsWith(res.error, pairs, imgDir, maskDir, readImage, readMask, targetSize)
  {
    var xs, ys := [], [];
    for i := 0 to |pairs|
      invariant |xs| == |ys| == i
      invariant forall j :: 0 <= j < i ==> Loaded(xs[j], ys[j], pairs[j], imgDir, maskDir, readImage, readMask, targetSize)
      invariant forall j :: 0 <= j < i ==> PairError(pairs[j], imgDir, maskDir, readImage, readMask, targetSize).None?
    {
      var loaded := LoadAndPreprocess(readImage(PathJoin(imgDir, pairs[i].0)),
                                      readMask(PathJoin(maskDir, pairs[i].1)), targetSize);
      if loaded.Err? {
        assert PairError(pairs[i], imgDir, maskDir, readImage, readMask, targetSize) == Some(loaded.error);
        assert !Readable(pairs[i], imgDir, maskDir, readImage, readMask) || targetSize.0 != targetSize.1;
        return Err(loaded.error);
      }
      assert Loaded(loaded.value.0, loaded.value.1, pairs[i], imgDir, maskDir, readImage, readMask, targetSize);
      xs := xs + [loaded.value.0];
      ys := ys + [loaded.value.1];
    }
    assert forall j :: 0 <= j < |pairs| ==> Readable(pairs[j], imgDir, maskDir, readImage, readMask);
    assert |pairs| > 0 ==> Loaded(xs[0], ys[0], pairs[0], imgDir, maskDir, readImage, readMask, targetSize);
    res := Ok(Dataset(xs, ys));
  }

  /** One element of a saved archive. */
  datatype Sample =
    | ImageSample(image: seq<seq<seq<real>>>)
    | MaskSample(mask: seq<seq<seq<int>>>)

  /** `np.savez_compressed(path, images=X, masks=Y)`. */
  function SaveArchive(d: Dataset): (a: map<string, seq<Sample>>)
    ensures a.Keys == {"images", "masks"}
    ensures |a["images"]| == |d.images| && |a["masks"]| == |d.masks|
    ensures forall i :: 0 <= i < |d.images| ==> a["images"][i] == ImageSample(d.images[i])
    ensures forall i :: 0 <= i < |d.masks| ==> a["masks"][i] == MaskSample(d.masks[i])
  {
    map["images" := seq(|d.images|, i requires 0 <= i < |d.images| => ImageSample(d.images[i])),
        "masks" := seq(|d.masks|, i requires 0 <= i < |d.masks| => MaskSample(d.masks[i]))]
  }

  const TrainArchivePath := PathJoin(OutputDir, "X_train.npz")
  const TestArchivePath := PathJoin(OutputDir, "X_test.npz")

  /** The two archives sit side by side in the output directory. */
  lemma ArchivePathsInOutputDir()
    ensures TrainArchivePath == OutputDir + "/" + "X_train.npz"
    ensures TestArchivePath == OutputDir + "/" + "X_test.npz"
    ensures TrainArchivePath != TestArchivePath
  {
    assert !EndsWith(OutputDir, "/") by {
      assert OutputDir[|OutputDir| - 1..] == "d";
    }
    assert TrainArchivePath[|OutputDir| + 4] == 'r' && TestArchivePath[|OutputDir| + 4] == 'e';
  }

  /** Both datasets and the archive files written from them. */
  datatype Preprocessed = Preprocessed(train: Dataset, test: Dataset, files: map<string, map<string, seq<Sample>>>)

  /**
   * The `__main__` block: process the train split, then the test split,
   * each at 512 x 512, and only then write the two archives. A failure in
   * either split raises before any archive is written, and a failure in
   * the train split means the test split is never read.
   */
  method PreprocessSplits(trainImages: seq<string>, trainMasks: seq<string>,
                          testImages: seq<string>, testMasks: seq<string>,
                          readImage: string -> Option<seq<seq<seq<int>>>>,
                          readMask: string -> Option<seq<seq<int>>>)
    returns (res: Result<Preprocessed, PreprocessError>)
    requires forall p :: readImage(p).Some? ==> IsRgb(readImage(p).value, TargetSize.1, TargetSize.0)
    requires forall p :: readMask(p).Some? ==> IsGray(readMask(p).value, TargetSize.1, TargetSize.0)
    ensures res.Ok? <==> (AllLoad(Pairs(trainImages, trainMasks), TrainImgDir, TrainMaskDir, readImage, readMask, TargetSize) &&
                          AllLoad(Pairs(testImages, testMasks), TestImgDir, TestMaskDir, readImage, readMask, TargetSize))
    ensures !AllLoad(Pairs(trainImages, trainMasks), TrainImgDir, TrainMaskDir, readImage, readMask, TargetSize) ==>
              res.Err? && FailsWith(res.error, Pairs(trainImages, trainMasks), TrainImgDir, TrainMaskDir, readImage, readMask, TargetSize)
    ensures AllLoad(Pairs(trainImages, trainMasks), TrainImgDir, TrainMaskDir, readImage, readMask, TargetSize) && res.Err? ==>
              FailsWith(res.error, Pairs(testImages, testMasks), TestImgDir, TestMaskDir, readImage, readMask, TargetSize)
    ensures res.Err? ==> res.error != ShapeMismatch
    ensures res.Ok? ==> LoadedAll(res.value.train, Pairs(trainImages, trainMasks), TrainImgDir, TrainMaskDir, readImage, readMask, TargetSize)
    ensures res.Ok? ==> LoadedAll(res.value.test, Pairs(testImages, testMasks), TestImgDir, TestMaskDir, readImage, readMask, TargetSize)
    ensures res.Ok? ==> res.value.files == map[TrainArchivePath := SaveArchive(res.value.train),
                                               TestArchivePath := SaveArchive(res.value.test)]
  {
    var train := ProcessDataset(TrainImgDir, TrainMaskDir, trainImages, trainMasks, readImage, readMask, TargetSize);
    if train.Err? {
      return Err(train.error);
    }
    var test := ProcessDataset(TestImgDir, TestMaskDir, testImages, testMasks, readImage, readMask, TargetSize);
    if test.Err? {
      return Err(test.error);
    }
    var files := map[TrainArchivePath := SaveArchive(train.value)];
    files := files[TestArchivePath := SaveArchive(test.value)];
    res := Ok(Preprocessed(train.value, test.value, files));
  }
}
