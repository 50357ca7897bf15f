/**
 * Preparation of the train/test directories from the DIARETDB fundus images
 * and their binary masks: list the ".png" images, sort, shuffle, cut at 80%,
 * and copy each image together with its "<id>_valid.png" mask when the mask
 * exists.
 *
 * The file system is modelled by a directory listing (a sequence of names)
 * and the set of names present in the mask directory; copies and skip
 * messages are returned as lists instead of being performed.
 */
module DataLoader {
  import opened Strings
  import opened Sorting
  import opened Partition

  const RootDir := "data/diaretdb1/resources/images"
  const FundusDir := PathJoin(RootDir, "diaretdb0_fundus_images")
  const MaskDir := PathJoin(RootDir, "diaretdb0_binary_masks")
  const OutputDir := "data/processed"

  datatype Split = Train | Test

  function SplitDir(split: Split): (d: string)
    ensures d == OutputDir + "/" + (if split == Train then "train" else "test")
  {
    match split
    case Train => JoinUnder(OutputDir, "train"); PathJoin(OutputDir, "train")
    case Test => JoinUnder(OutputDir, "test"); PathJoin(OutputDir, "test")
  }

  /** The images in the fundus directory: the listed names ending in ".png", in listing order. */
  function PngNames(listing: seq<string>): (r: seq<string>)
    ensures forall f :: multiset(r)[f] == if EndsWith(f, ".png") then multiset(listing)[f] else 0
  {
    if listing == [] then []
    else
      var rest := PngNames(listing[1..]);
      assert listing == [listing[0]] + listing[1..];
      if EndsWith(listing[0], ".png") then [listing[0]] + rest else rest
  }

  /**
   * The list `random.shuffle` leaves behind, with `draws[k]` the number drawn
   * at step `k`: CPython walks `i` from the back down to 1 and swaps entry
   * `i` with entry `randbelow(i + 1)`, here `draws[i] % (i + 1)`.
   */
  function Shuffled(s: seq<string>, draws: seq<nat>, i: int): (r: seq<string>)
    requires |draws| == |s| && -1 <= i < |s|
    ensures |r| == |s| && multiset(r) == multiset(s)
    decreases i + 1
  {
    if i < 1 then s
    else
      var j := draws[i] % (i + 1);
      Shuffled(s[i := s[j]][j := s[i]], draws, i - 1)
  }

  /** `random.shuffle(images)`: Fisher-Yates in place; the result is a permutation. */
  method Shuffle(a: array<string>, draws: seq<nat>)
    requires |draws| == a.Length
    modifies a
    ensures a[..] == Shuffled(old(a[..]), draws, a.Length - 1)
    ensures multiset(a[..]) == old(multiset(a[..]))
  {
    var i := a.Length - 1;
    while i >= 1
      invariant -1 <= i < a.Length
      invariant Shuffled(a[..], draws, i) == Shuffled(old(a[..]), draws, a.Length - 1)
    {
      var j := draws[i] % (i + 1);
      a[i], a[j] := a[j], a[i];
      i := i - 1;
    }
  }

  /** `images[:split_idx]` and `images[split_idx:]`. */
  function SplitImages(images: seq<string>): (r: (seq<string>, seq<string>))
    ensures r.0 + r.1 == images
    ensures |r.0| == SplitIndex(|images|)
    ensures |r.1| == |images| - SplitIndex(|images|)
  {
    var k := SplitIndex(|images|);
    (images[..k], images[k..])
  }

  lemma FiveImagesSplitFourOne(images: seq<string>)
    requires |images| == 5
    ensures |SplitImages(images).0| == 4 && |SplitImages(images).1| == 1
  {
  }

  /** Every non-empty list leaves at least one image for the test split. */
  lemma TestSplitNonEmpty(images: seq<string>)
    requires |images| > 0
    ensures |SplitImages(images).1| > 0
  {
  }

  /** `img_file.replace(".png", "")`: every occurrence of ".png" removed. */
  function ImageId(imgFile: string): (id: string)
    ensures |id| <= |imgFile|
  {
    Replace(imgFile, ".png", "")
  }

  function MaskFileName(imgFile: string): (m: string)
    ensures EndsWith(m, "_valid.png") && StartsWith(m, ImageId(imgFile))
  {
    ImageId(imgFile) + "_valid.png"
  }

  /** For an image named `id + ".png"` with no other ".png" in it, the mask is `id + "_valid.png"`. */
  lemma MaskOfPlainName(id: string)
    requires !Occurs(id, ".png")
    ensures ImageId(id + ".png") == id
    ensures MaskFileName(id + ".png") == id + "_valid.png"
  {
    RemovePngSuffix(id);
  }

  /**
   * Two different images can claim the same mask: for any character `c`
   * other than '.', such as 'a', "a.png.png" and "a.png" both look for
   * "a_valid.png".
   */
  lemma MaskNameNotInjective(c: char)
    requires c != '.'
    ensures MaskFileName([c] + ".png" + ".png") == MaskFileName([c] + ".png") == [c] + "_valid.png"
  {
    var png := ".png";
    ReplaceAtMatch(png, [], "");
    ReplaceAtMatch(png, png, "");
    ReplaceAtOther(c, png + png, png, "");
    ReplaceAtOther(c, png + [], png, "");
    assert [c] + png + png == [c] + (png + png) && [c] + png == [c] + (png + []);
  }

  /** One image copied, with its mask, into a split directory (both under their own names). */
  datatype Copy = Copy(split: Split, image: string, mask: string)
  {
    function ImageSource(): string { PathJoin(FundusDir, image) }
    function MaskSource(): string { PathJoin(MaskDir, mask) }
    function ImageDest(): string { PathJoin(PathJoin(SplitDir(split), "images"), image) }
    function MaskDest(): string { PathJoin(PathJoin(SplitDir(split), "masks"), mask) }
  }

  /** Joining a relative name to a directory that does not end in '/' puts one '/' between them. */
  lemma JoinUnder(dir: string, name: string)
    requires |dir| > 0 && dir[|dir| - 1] != '/' && (name == "" || name[0] != '/')
    ensures PathJoin(dir, name) == dir + "/" + name
  {
    assert !EndsWith(dir, "/") by {
      assert dir[|dir| - 1..] == [dir[|dir| - 1]];
    }
    assert !StartsWith(name, "/") by {
      if |name| > 0 {
        assert name[..1] == [name[0]];
      }
    }
  }

  /** The split directories are plain directory names. */
  lemma SplitDirPlain(split: Split)
    ensures |SplitDir(split)| > 0 && SplitDir(split)[|SplitDir(split)| - 1] != '/'
  {
    JoinUnder(OutputDir, "train");
    JoinUnder(OutputDir, "test");
  }

  /** The two source directories are plain directory names. */
  lemma SourceDirsPlain()
    ensures |FundusDir| > 0 && FundusDir[|FundusDir| - 1] != '/'
    ensures |MaskDir| > 0 && MaskDir[|MaskDir| - 1] != '/'
  {
    JoinUnder(RootDir, "diaretdb0_fundus_images");
    JoinUnder(RootDir, "diaretdb0_binary_masks");
  }

  /** A relative name in a subdirectory of a plain directory. */
  lemma JoinTwice(dir: string, sub: string, name: string)
    requires |dir| > 0 && dir[|dir| - 1] != '/'
    requires |sub| > 0 && sub[0] != '/' && sub[|sub| - 1] != '/'
    requires name == "" || name[0] != '/'
    ensures PathJoin(PathJoin(dir, sub), name) == dir + "/" + sub + "/" + name
  {
    JoinUnder(dir, sub);
    var d := dir + "/" + sub;
    assert d[|d| - 1] == sub[|sub| - 1];
    JoinUnder(d, name);
  }

  /**
   * For relative names, the image is copied from the fundus directory to
   * the split's `images` directory and the mask from the mask directory to
   * its `masks` directory, each under its own name.
   */
  lemma CopyPaths(c: Copy)
    requires c.image == "" || c.image[0] != '/'
    requires c.mask == "" || c.mask[0] != '/'
    ensures c.ImageSource() == FundusDir + "/" + c.image
    ensures c.MaskSource() == MaskDir + "/" + c.mask
    ensures c.ImageDest() == SplitDir(c.split) + "/" + "images" + "/" + c.image
    ensures c.MaskDest() == SplitDir(c.split) + "/" + "masks" + "/" + c.mask
  {
    SourceDirsPlain();
    JoinUnder(FundusDir, c.image);
    JoinUnder(MaskDir, c.mask);
    SplitDirPlain(c.split);
    JoinTwice(SplitDir(c.split), "images", c.image);
    JoinTwice(SplitDir(c.split), "masks", c.mask);
  }

  /** The copies `copy_files(images, split)` makes when `masks` are the names in the mask directory. */
  function Copies(images: seq<string>, split: Split, masks: set<string>): (r: seq<Copy>)
    ensures |r| <= |images|
  {
    if images == [] then []
    else
      var f := images[|images| - 1];
      Copies(images[..|images| - 1], split, masks)
        + (if MaskFileName(f) in masks then [Copy(split, f, MaskFileName(f))] else [])
  }

  /** The image ids `copy_files` reports as skipped for want of a mask. */
  function Skips(images: seq<string>, masks: set<string>): (r: seq<string>)
    ensures |r| <= |images|
  {
    if images == [] then []
    else
      var f := images[|images| - 1];
      Skips(images[..|images| - 1], masks)
        + (if MaskFileName(f) in masks then [] else [ImageId(f)])
  }

  /** The loop of `copy_files`: copy the pair when the mask exists, otherwise report and go on. */
  method CopyFiles(images: seq<string>, split: Split, masks: set<string>)
    returns (copies: seq<Copy>, skipped: seq<string>)
    ensures copies == Copies(images, split, masks)
    ensures skipped == Skips(images, masks)
  {
    copies, skipped := [], [];
    for i := 0 to |images|
      invariant copies == Copies(images[..i], split, masks)
      invariant skipped == Skips(images[..i], masks)
    {
      var imgFile := images[i];
      var maskFile := MaskFileName(imgFile);
      assert images[..i + 1][..i] == images[..i];
      if maskFile in masks {
        copies := copies + [Copy(split, imgFile, maskFile)];
      } else {
        skipped := skipped + [ImageId(imgFile)];
      }
    }
    assert images[..|images|] == images;
  }

  /** Every copy goes to the split it was made for, uses an image of the list and its own existing mask. */
  lemma {:induction false} CopiesSound(images: seq<string>, split: Split, masks: set<string>, c: Copy)
    requires c in Copies(images, split, masks)
    ensures c.split == split && c.image in images
    ensures c.mask == MaskFileName(c.image) && c.mask in masks
  {
    var n := |images|;
    if c !in Copies(images[..n - 1], split, masks) {
      assert c.image == images[n - 1];
    } else {
      CopiesSound(images[..n - 1], split, masks, c);
      assert c.image in images[..n - 1];
    }
  }

  /**
   * With the relative names a directory listing gives, every copy takes the
   * image from the fundus directory into `<split>/images` and its mask from
   * the mask directory into `<split>/masks`, keeping both names.
   */
  lemma CopiesLand(images: seq<string>, split: Split, masks: set<string>, c: Copy)
    requires c in Copies(images, split, masks)
    requires forall i :: 0 <= i < |images| ==> images[i] == "" || images[i][0] != '/'
    requires forall m :: m in masks ==> m == "" || m[0] != '/'
    ensures c.ImageSource() == FundusDir + "/" + c.image
    ensures c.ImageDest() == SplitDir(split) + "/" + "images" + "/" + c.image
    ensures c.MaskSource() == MaskDir + "/" + MaskFileName(c.image)
    ensures c.MaskDest() == SplitDir(split) + "/" + "masks" + "/" + MaskFileName(c.image)
  {
    CopiesSound(images, split, masks, c);
    CopyPaths(c);
  }

  /** An image of the list is copied exactly when its mask exists. */
  lemma {:induction false} CopiedIff(images: seq<string>, split: Split, masks: set<string>, f: string)
    ensures Copy(split, f, MaskFileName(f)) in Copies(images, split, masks)
            <==> f in images && MaskFileName(f) in masks
  {
    if images != [] {
      var n := |images|;
      CopiedIff(images[..n - 1], split, masks, f);
      assert images == images[..n - 1] + [images[n - 1]];
    }
  }

  /** An id is reported as skipped exactly when some image with that id has no mask. */
  lemma {:induction false} SkippedIff(images: seq<string>, masks: set<string>, id: string)
    ensures id in Skips(images, masks)
            <==> exists f :: f in images && ImageId(f) == id && MaskFileName(f) !in masks
  {
    if images != [] {
      var n := |images|;
      SkippedIff(images[..n - 1], masks, id);
      assert images == images[..n - 1] + [images[n - 1]];
    }
  }

  /** Each image is either copied or skipped: nothing is dropped or handled twice. */
  lemma {:induction false} CopiedPlusSkipped(images: seq<string>, split: Split, masks: set<string>)
    ensures |Copies(images, split, masks)| + |Skips(images, masks)| == |images|
  {
    if images != [] {
      CopiedPlusSkipped(images[..|images| - 1], split, masks);
    }
  }

  /** With every mask present, nothing is skipped and every image is copied in order. */
  lemma {:induction false} AllMasksPresent(images: seq<string>, split: Split, masks: set<string>)
    requires forall f :: f in images ==> MaskFileName(f) in masks
    ensures Skips(images, masks) == []
    ensures |Copies(images, split, masks)| == |images|
    ensures forall i :: 0 <= i < |images| ==>
              Copies(images, split, masks)[i] == Copy(split, images[i], MaskFileName(images[i]))
  {
    if images != [] {
      var n := |images|;
      var init := images[..n - 1];
      assert forall f :: f in init ==> f in images;
      AllMasksPresent(init, split, masks);
      var before := Copies(init, split, masks);
      assert images[n - 1] in images;
      assert Copies(images, split, masks) == before + [Copy(split, images[n - 1], MaskFileName(images[n - 1]))];
      forall i | 0 <= i < n - 1
        ensures Copies(images, split, masks)[i] == Copy(split, images[i], MaskFileName(images[i]))
      {
        assert init[i] == images[i];
      }
    }
  }

  /** What the preparation script did and what it reports. */
  datatype Preparation = Preparation(
    images: seq<string>,        // the shuffled image names
    trainImages: seq<string>,
    testImages: seq<string>,
    copies: seq<Copy>,          // pairs copied, train split first
    skipped: seq<string>,       // ids reported as having no mask
    trainReported: nat,         // "Training set: {len(train_images)} images"
    testReported: nat)          // "Test set: {len(test_images)} images"

  /** The whole script, for a given directory listing, set of mask names and random draws. */
  method PrepareDataset(listing: seq<string>, masks: set<string>, draws: seq<nat>)
    returns (p: Preparation)
    requires |draws| == |PngNames(listing)|
    ensures p.images == Shuffled(SortNames(PngNames(listing)), draws, |draws| - 1)
    ensures multiset(p.images) == multiset(PngNames(listing))
    ensures p.trainImages + p.testImages == p.images
    ensures |p.trainImages| == SplitIndex(|p.images|)
    ensures p.copies == Copies(p.trainImages, Train, masks) + Copies(p.testImages, Test, masks)
    ensures p.skipped == Skips(p.trainImages, masks) + Skips(p.testImages, masks)
    ensures p.trainReported == |p.trainImages| && p.testReported == |p.testImages|
  {
    var sorted := SortNames(PngNames(listing));
    var a := new string[|sorted|](i requires 0 <= i < |sorted| => sorted[i]);
    assert a[..] == sorted;
    Shuffle(a, draws);
    var images := a[..];
    assert images == Shuffled(sorted, draws, |draws| - 1);
    assert multiset(images) == multiset(sorted) == multiset(PngNames(listing));
    var split := SplitImages(images);
    var trainImages, testImages := split.0, split.1;
    var trainCopies, trainSkipped := CopyFiles(trainImages, Train, masks);
    var testCopies, testSkipped := CopyFiles(testImages, Test, masks);
    p := Preparation(images, trainImages, testImages, trainCopies + testCopies,
                     trainSkipped + testSkipped, |trainImages|, |testImages|);
  }

  /**
   * Sorting before the shuffle makes the outcome independent of the order in
   * which the directory was listed: the same names and the same draws give
   * the same shuffled list.
   */
  lemma ShuffleIgnoresListingOrder(l1: seq<string>, l2: seq<string>, draws: seq<nat>)
    requires multiset(l1) == multiset(l2)
    requires |draws| == |PngNames(l1)|
    ensures |draws| == |PngNames(l2)|
    ensures Shuffled(SortNames(PngNames(l1)), draws, |draws| - 1)
         == Shuffled(SortNames(PngNames(l2)), draws, |draws| - 1)
  {
    var p1, p2 := PngNames(l1), PngNames(l2);
    forall f ensures multiset(p1)[f] == multiset(p2)[f] { }
    assert multiset(p1) == multiset(p2);
    assert |p1| == |multiset(p1)| == |multiset(p2)| == |p2|;
    SortIgnoresListingOrder(p1, p2);
  }

  /** The image lists of a run are a permutation of the ".png" names, split without overlap. */
  lemma PreparationCoversListing(p: Preparation, listing: seq<string>, masks: set<string>)
    requires multiset(p.images) == multiset(PngNames(listing))
    requires p.trainImages + p.testImages == p.images
    ensures multiset(p.trainImages) + multiset(p.testImages) == multiset(PngNames(listing))
    ensures forall f :: f in p.trainImages || f in p.testImages <==> f in listing && EndsWith(f, ".png")
  {
    assert multiset(p.trainImages + p.testImages) == multiset(p.trainImages) + multiset(p.testImages);
    forall f ensures f in p.trainImages || f in p.testImages <==> f in listing && EndsWith(f, ".png") {
      assert f in p.images <==> f in multiset(p.images);
      assert f in listing <==> f in multiset(listing);
    }
  }

  /** The reported split sizes count the skipped images too. */
  lemma ReportedSizesIncludeSkipped(p: Preparation, masks: set<string>)
    requires p.trainReported == |p.trainImages| && p.testReported == |p.testImages|
    ensures p.trainReported == |Copies(p.trainImages, Train, masks)| + |Skips(p.trainImages, masks)|
    ensures p.testReported == |Copies(p.testImages, Test, masks)| + |Skips(p.testImages, masks)|
  {
    CopiedPlusSkipped(p.trainImages, Train, masks);
    CopiedPlusSkipped(p.testImages, Test, masks);
  }
}
