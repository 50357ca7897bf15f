/**
 * `run_inference.py`: the last five preprocessed samples go through the
 * network, the predicted probabilities are thresholded at 0.5, and two
 * kinds of PNG files are written: one binary mask per (sample, lesion
 * channel) and one overlay per sample showing where any lesion was found.
 *
 * The network (`build_segnet`, `load_weights`, `predict`) is foreign: its
 * output is a parameter. `cv2.imwrite` becomes a record of the path and
 * the pixels handed to it.
 */
module Inference {
  import opened Strings

  /** An image-shaped tensor: rows of columns of channel values. */
  type Tensor<T> = seq<seq<seq<T>>>

  /** One grey plane: rows of columns. */
  type Plane<T> = seq<seq<T>>

  const OutputDir := "inference_results"
  const OverlayDir := PathJoin(OutputDir, "overlays")
  const MaskDir := PathJoin(OutputDir, "masks")

  /** How many samples the demo keeps, counted from the end. */
  const DemoSamples: nat := 5

  /** Channel `k` of the network's output is the lesion `LesionNames[k]`. */
  const LesionNames: seq<string> := ["MA", "HE", "SE", "EX"]

  // ---------------------------------------------------------------------
  // Selecting the demo samples
  // ---------------------------------------------------------------------

  /** `s[-5:]`: the last five elements, or all of them when there are fewer. */
  function LastFive<T>(s: seq<T>): (r: seq<T>)
    ensures |r| == if |s| < DemoSamples then |s| else DemoSamples
    ensures forall i :: 0 <= i < |r| ==> r[i] == s[|s| - |r| + i]
  {
    if |s| < DemoSamples then s else s[|s| - DemoSamples..]
  }

  /** Taking the last five twice changes nothing, and what is cut off is a prefix. */
  lemma LastFiveSuffix<T>(s: seq<T>)
    ensures LastFive(LastFive(s)) == LastFive(s)
    ensures s[..|s| - |LastFive(s)|] + LastFive(s) == s
  {
  }

  // ---------------------------------------------------------------------
  // Thresholding
  // ---------------------------------------------------------------------

  /** `(p > 0.5).astype(np.uint8)` for one probability. */
  function Binarize(p: real): (b: int)
    ensures b == 0 || b == 1
  {
    if p > 0.5 then 1 else 0
  }

  /** The threshold is strict, and a higher probability never gives a lower bit. */
  lemma BinarizeStrictMonotone(p: real, q: real)
    ensures Binarize(0.5) == 0
    ensures p <= q ==> Binarize(p) <= Binarize(q)
    ensures Binarize(p) == 1 <==> p > 0.5
  {
  }

  ghost predicate IsBinary(t: Tensor<int>)
  {
    forall r, c, k :: 0 <= r < |t| && 0 <= c < |t[r]| && 0 <= k < |t[r][c]| ==> t[r][c][k] == 0 || t[r][c][k] == 1
  }

  /** Every pixel carries at least `n` channels. */
  ghost predicate HasChannels<T>(t: Tensor<T>, n: nat)
  {
    forall r, c :: 0 <= r < |t| && 0 <= c < |t[r]| ==> |t[r][c]| >= n
  }

  /** The same rows, columns and channel counts. */
  ghost predicate SameShape<A, B>(t: Tensor<A>, u: Tensor<B>)
  {
    && |t| == |u|
    && (forall r :: 0 <= r < |t| ==> |t[r]| == |u[r]|)
    && (forall r, c :: 0 <= r < |t| && 0 <= c < |t[r]| ==> |t[r][c]| == |u[r][c]|)
  }

  /** `preds > 0.5` element by element, for one predicted sample. */
  function Threshold(t: Tensor<real>): (b: Tensor<int>)
    ensures SameShape(t, b) && IsBinary(b)
    ensures forall r, c, k :: 0 <= r < |b| && 0 <= c < |b[r]| && 0 <= k < |b[r][c]| ==>
              (b[r][c][k] == 1 <==> t[r][c][k] > 0.5)
  {
    seq(|t|, r requires 0 <= r < |t| =>
      seq(|t[r]|, c requires 0 <= c < |t[r]| =>
        seq(|t[r][c]|, k requires 0 <= k < |t[r][c]| => Binarize(t[r][c][k]))))
  }

  /** The whole batch, sample by sample. */
  function ThresholdBatch(preds: seq<Tensor<real>>): (b: seq<Tensor<int>>)
    ensures |b| == |preds|
    ensures forall i :: 0 <= i < |b| ==> b[i] == Threshold(preds[i])
  {
    seq(|preds|, i requires 0 <= i < |preds| => Threshold(preds[i]))
  }

  /** Thresholding keeps the channel count, so the lesion planes are still there. */
  lemma ThresholdKeepsChannels(t: Tensor<real>, n: nat)
    requires HasChannels(t, n)
    ensures HasChannels(Threshold(t), n)
  {
    var b := Threshold(t);
    forall r, c | 0 <= r < |b| && 0 <= c < |b[r]|
      ensures |b[r][c]| >= n
    {
      assert |b[r][c]| == |t[r][c]|;
    }
  }

  // ---------------------------------------------------------------------
  // Combining the channels
  // ---------------------------------------------------------------------

  /** `np.max` over the channels of one pixel (an empty pixel has no maximum). */
  function ChannelMax(v: seq<int>): (m: int)
    requires |v| > 0
    ensures forall k :: 0 <= k < |v| ==> v[k] <= m
    ensures exists k :: 0 <= k < |v| && v[k] == m
  {
    if |v| == 1 then v[0]
    else
      var rest := ChannelMax(v[1..]);
      assert forall k :: 1 <= k < |v| ==> v[k] == v[1..][k - 1];
      if v[0] >= rest then v[0] else rest
  }

  /** On a binary pixel the maximum is 1 exactly when some channel is 1, and it is 0 or 1. */
  lemma ChannelMaxBinary(v: seq<int>)
    requires |v| > 0 && forall k :: 0 <= k < |v| ==> v[k] == 0 || v[k] == 1
    ensures ChannelMax(v) == 0 || ChannelMax(v) == 1
    ensures ChannelMax(v) == 1 <==> exists k :: 0 <= k < |v| && v[k] == 1
  {
  }

  /** `np.max(pred, axis=-1)`: the per-pixel maximum over the lesion channels. */
  function CombinedMask(pred: Tensor<int>): (m: Plane<int>)
    requires HasChannels(pred, 1)
    ensures |m| == |pred| && forall r :: 0 <= r < |m| ==> |m[r]| == |pred[r]|
    ensures forall r, c :: 0 <= r < |m| && 0 <= c < |m[r]| ==> m[r][c] == ChannelMax(pred[r][c])
  {
    seq(|pred|, r requires 0 <= r < |pred| =>
      seq(|pred[r]|, c requires 0 <= c < |pred[r]| => ChannelMax(pred[r][c])))
  }

  /** A combined pixel of a thresholded prediction is 1 iff some lesion channel is 1 there. */
  lemma CombinedMaskMeansAnyLesion(pred: Tensor<int>, r: nat, c: nat)
    requires HasChannels(pred, 1) && IsBinary(pred)
    requires r < |pred| && c < |pred[r]|
    ensures CombinedMask(pred)[r][c] == 0 || CombinedMask(pred)[r][c] == 1
    ensures CombinedMask(pred)[r][c] == 1 <==> exists k :: 0 <= k < |pred[r][c]| && pred[r][c][k] == 1
  {
    ChannelMaxBinary(pred[r][c]);
  }

  // ---------------------------------------------------------------------
  // Output names
  // ---------------------------------------------------------------------

  /** `f"image_{i}_{suffix}"`. */
  function SampleName(i: nat, suffix: string): (r: string)
    ensures StartsWith(r, "image_") && EndsWith(r, "_" + suffix)
  {
    "image_" + NatToString(i) + "_" + suffix
  }

  /** Different (sample, suffix) pairs give different names: the number ends at the first `_`. */
  lemma SampleNameInjective(i: nat, s: string, j: nat, t: string)
    requires SampleName(i, s) == SampleName(j, t)
    ensures i == j && s == t
  {
    var a, b := SampleName(i, s), SampleName(j, t);
    assert a[6..] == NatToString(i) + ['_'] + s;
    assert b[6..] == NatToString(j) + ['_'] + t;
    DigitsThenSeparator(NatToString(i), s, NatToString(j), t, '_');
    NatToStringInjective(i, j);
  }

  lemma SampleNamesDiffer(i: nat, s: string, j: nat, t: string)
    requires i != j || s != t
    ensures SampleName(i, s) != SampleName(j, t)
  {
    if SampleName(i, s) == SampleName(j, t) {
      SampleNameInjective(i, s, j, t);
    }
  }

  /** `image_{i}_{lesion_names[k]}.png` inside the masks directory. */
  function LesionMaskPath(i: nat, k: nat): (r: string)
    requires k < |LesionNames|
    ensures EndsWith(r, SampleName(i, LesionNames[k] + ".png"))
  {
    PathJoin(MaskDir, SampleName(i, LesionNames[k] + ".png"))
  }

  /** `image_{i}_overlay.png` inside the overlays directory. */
  function OverlayPath(i: nat): (r: string)
    ensures EndsWith(r, SampleName(i, "overlay.png"))
  {
    PathJoin(OverlayDir, SampleName(i, "overlay.png"))
  }

  lemma LesionNamesDistinct(k: nat, l: nat)
    requires k < |LesionNames| && l < |LesionNames| && k != l
    ensures |LesionNames[k]| == |LesionNames[l]| == 2 && LesionNames[k] != LesionNames[l]
  {
  }

  /** Every (sample, channel) pair gets its own mask file. */
  lemma LesionMaskPathsDistinct(i: nat, k: nat, j: nat, l: nat)
    requires k < |LesionNames| && l < |LesionNames| && (i, k) != (j, l)
    ensures LesionMaskPath(i, k) != LesionMaskPath(j, l)
  {
    var s, t := LesionNames[k] + ".png", LesionNames[l] + ".png";
    if k != l {
      LesionNamesDistinct(k, l);
      assert s[..2] == LesionNames[k] && t[..2] == LesionNames[l];
    }
    SampleNamesDiffer(i, s, j, t);
    assert SampleName(i, s)[0] == 'i' && SampleName(j, t)[0] == 'i';
    PathJoinInjective(MaskDir, SampleName(i, s), SampleName(j, t));
  }

  /** Every sample gets its own overlay file. */
  lemma OverlayPathsDistinct(i: nat, j: nat)
    requires i != j
    ensures OverlayPath(i) != OverlayPath(j)
  {
    SampleNamesDiffer(i, "overlay.png", j, "overlay.png");
    assert SampleName(i, "overlay.png")[0] == 'i' && SampleName(j, "overlay.png")[0] == 'i';
    PathJoinInjective(OverlayDir, SampleName(i, "overlay.png"), SampleName(j, "overlay.png"));
  }

  /** `os.path.join(os.path.join(out, sub), name)` for plain relative names. */
  lemma NestedJoin(out: string, sub: string, name: string)
    requires out != "" && !EndsWith(out, "/")
    requires sub != "" && !StartsWith(sub, "/") && !EndsWith(sub, "/")
    requires !StartsWith(name, "/")
    ensures PathJoin(PathJoin(out, sub), name) == out + "/" + sub + "/" + name
  {
  }

  /** Masks and overlays never overwrite one another: their directories differ. */
  lemma MasksAndOverlaysApart(i: nat, k: nat, j: nat)
    requires k < |LesionNames|
    ensures LesionMaskPath(i, k) != OverlayPath(j)
  {
    var m, o := SampleName(i, LesionNames[k] + ".png"), SampleName(j, "overlay.png");
    assert m[0] == 'i' && o[0] == 'i';
    NestedJoin(OutputDir, "masks", m);
    NestedJoin(OutputDir, "overlays", o);
    var n := |OutputDir| + 1;
    assert LesionMaskPath(i, k)[n] == 'm';
    assert OverlayPath(j)[n] == 'o';
  }

  // ---------------------------------------------------------------------
  // Writing the masks
  // ---------------------------------------------------------------------

  /** One `cv2.imwrite(path, pixels)` call. */
  datatype Write = Write(path: string, pixels: Plane<int>)

  /** `pred[:, :, k] * 255`. */
  function LesionPlane(pred: Tensor<int>, k: nat): (p: Plane<int>)
    requires HasChannels(pred, k + 1)
    ensures |p| == |pred| && forall r :: 0 <= r < |p| ==> |p[r]| == |pred[r]|
    ensures forall r, c :: 0 <= r < |p| && 0 <= c < |p[r]| ==> p[r][c] == 255 * pred[r][c][k]
  {
    seq(|pred|, r requires 0 <= r < |pred| =>
      seq(|pred[r]|, c requires 0 <= c < |pred[r]| => 255 * pred[r][c][k]))
  }

  /** The four writes of the inner loop for sample `i`, channel by channel. */
  function SampleWrites(i: nat, pred: Tensor<int>): (w: seq<Write>)
    requires HasChannels(pred, |LesionNames|)
    ensures |w| == |LesionNames|
    ensures forall k :: 0 <= k < |w| ==> w[k] == Write(LesionMaskPath(i, k), LesionPlane(pred, k))
  {
    seq(|LesionNames|, k requires 0 <= k < |LesionNames| => Write(LesionMaskPath(i, k), LesionPlane(pred, k)))
  }

  ghost predicate AllHaveLesionChannels(preds: seq<Tensor<int>>)
  {
    forall i :: 0 <= i < |preds| ==> HasChannels(preds[i], |LesionNames|)
  }

  /** All mask writes, sample after sample, in the order the two loops make them. */
  function LesionWrites(preds: seq<Tensor<int>>): (w: seq<Write>)
    requires AllHaveLesionChannels(preds)
    ensures |w| == |LesionNames| * |preds|
  {
    if |preds| == 0 then []
    else LesionWrites(preds[..|preds| - 1]) + SampleWrites(|preds| - 1, preds[|preds| - 1])
  }

  /** There are four writes per sample, and write `4 * i + k` is channel `k` of sample `i`. */
  lemma {:induction false} LesionWriteAt(preds: seq<Tensor<int>>, i: nat, k: nat)
    requires AllHaveLesionChannels(preds)
    requires i < |preds| && k < |LesionNames|
    ensures |LesionWrites(preds)| == 4 * |preds|
    ensures LesionWrites(preds)[4 * i + k] == Write(LesionMaskPath(i, k), LesionPlane(preds[i], k))
  {
    var init := preds[..|preds| - 1];
    if i < |preds| - 1 {
      LesionWriteAt(init, i, k);
      assert init[i] == preds[i];
    }
  }

  /** Write `a` of `4 * n` writes is channel `a % 4` of sample `a / 4`. */
  lemma WriteIndex(a: nat, n: nat)
    requires a < 4 * n
    ensures a / 4 < n && a % 4 < 4 && a == 4 * (a / 4) + a % 4
  {
  }

  /** No two mask writes go to the same file: nothing written is overwritten. */
  lemma LesionWritePathsDistinct(preds: seq<Tensor<int>>, a: nat, b: nat)
    requires AllHaveLesionChannels(preds)
    requires a < b < |LesionWrites(preds)|
    ensures LesionWrites(preds)[a].path != LesionWrites(preds)[b].path
  {
    WriteIndex(a, |preds|);
    WriteIndex(b, |preds|);
    var i, k, j, l := a / 4, a % 4, b / 4, b % 4;
    assert (i, k) != (j, l);
    LesionWriteAt(preds, i, k);
    LesionWriteAt(preds, j, l);
    LesionMaskPathsDistinct(i, k, j, l);
  }

  /** Written mask pixels of a thresholded prediction are exactly 0 or 255. */
  lemma LesionPixelsBlackOrWhite(preds: seq<Tensor<int>>, a: nat, r: nat, c: nat)
    requires AllHaveLesionChannels(preds)
    requires forall i :: 0 <= i < |preds| ==> IsBinary(preds[i])
    requires a < |LesionWrites(preds)|
    requires r < |LesionWrites(preds)[a].pixels| && c < |LesionWrites(preds)[a].pixels[r]|
    ensures LesionWrites(preds)[a].pixels[r][c] == 0 || LesionWrites(preds)[a].pixels[r][c] == 255
  {
    WriteIndex(a, |preds|);
    var i, k := a / 4, a % 4;
    LesionWriteAt(preds, i, k);
    assert preds[i][r][c][k] == 0 || preds[i][r][c][k] == 1;
  }

  /** The loops over samples and lesion names that save the per-lesion masks. */
  method SaveLesionMasks(predsBinary: seq<Tensor<int>>) returns (writes: seq<Write>)
    requires AllHaveLesionChannels(predsBinary)
    ensures writes == LesionWrites(predsBinary)
  {
    writes := [];
    for i := 0 to |predsBinary|
      invariant writes == LesionWrites(predsBinary[..i])
    {
      var pred := predsBinary[i];
      for k := 0 to |LesionNames|
        invariant writes == LesionWrites(predsBinary[..i]) + SampleWrites(i, pred)[..k]
      {
        writes := writes + [Write(LesionMaskPath(i, k), LesionPlane(pred, k))];
        assert SampleWrites(i, pred)[..k + 1] == SampleWrites(i, pred)[..k] + [SampleWrites(i, pred)[k]];
      }
      assert predsBinary[..i + 1][..i] == predsBinary[..i];
      assert SampleWrites(i, pred)[..|LesionNames|] == SampleWrites(i, pred);
    }
    assert predsBinary[..|predsBinary|] == predsBinary;
  }

  // ---------------------------------------------------------------------
  // Writing the overlays
  // ---------------------------------------------------------------------

  /** `(img * 255).astype(np.uint8)` for a normalised channel value in [0, 1]. */
  function ToByte(x: real): (b: int)
    requires 0.0 <= x <= 1.0
    ensures 0 <= b <= 255
    ensures b as real <= x * 255.0 < b as real + 1.0
  {
    (x * 255.0).Floor
  }

  ghost predicate IsUnitImage(img: Tensor<real>)
  {
    forall r, c, k :: 0 <= r < |img| && 0 <= c < |img[r]| && 0 <= k < |img[r][c]| ==> 0.0 <= img[r][c][k] <= 1.0
  }

  /** The two inputs of `cv2.addWeighted`: the 8-bit image and the 0/255 lesion mask. */
  datatype Overlay = Overlay(path: string, base: Tensor<int>, mask: Plane<int>)

  function ImageBytes(img: Tensor<real>): (t: Tensor<int>)
    requires IsUnitImage(img)
    ensures SameShape(img, t)
    ensures forall r, c, k :: 0 <= r < |t| && 0 <= c < |t[r]| && 0 <= k < |t[r][c]| ==> t[r][c][k] == ToByte(img[r][c][k])
  {
    seq(|img|, r requires 0 <= r < |img| =>
      seq(|img[r]|, c requires 0 <= c < |img[r]| =>
        seq(|img[r][c]|, k requires 0 <= k < |img[r][c]| => ToByte(img[r][c][k]))))
  }

  /** `(combined_mask * 255).astype(np.uint8)`. */
  function MaskBytes(m: Plane<int>): (p: Plane<int>)
    ensures |p| == |m| && forall r :: 0 <= r < |p| ==> |p[r]| == |m[r]|
    ensures forall r, c :: 0 <= r < |p| && 0 <= c < |p[r]| ==> p[r][c] == 255 * m[r][c]
  {
    seq(|m|, r requires 0 <= r < |m| => seq(|m[r]|, c requires 0 <= c < |m[r]| => 255 * m[r][c]))
  }

  function OverlayFor(i: nat, img: Tensor<real>, pred: Tensor<int>): (o: Overlay)
    requires IsUnitImage(img) && HasChannels(pred, 1)
    ensures o.path == OverlayPath(i) && |o.base| == |img| && |o.mask| == |pred|
  {
    Overlay(OverlayPath(i), ImageBytes(img), MaskBytes(CombinedMask(pred)))
  }

  ghost predicate OverlayInputs(xTest: seq<Tensor<real>>, predsBinary: seq<Tensor<int>>)
  {
    && (forall i :: 0 <= i < |xTest| ==> IsUnitImage(xTest[i]))
    && (forall i :: 0 <= i < |predsBinary| ==> HasChannels(predsBinary[i], 1))
  }

  /** The overlay loop over `zip(X_test, preds_binary)`: one overlay per pair. */
  method SaveOverlays(xTest: seq<Tensor<real>>, predsBinary: seq<Tensor<int>>) returns (overlays: seq<Overlay>)
    requires OverlayInputs(xTest, predsBinary)
    ensures |overlays| == if |xTest| < |predsBinary| then |xTest| else |predsBinary|
    ensures forall i :: 0 <= i < |overlays| ==> overlays[i] == OverlayFor(i, xTest[i], predsBinary[i])
  {
    var n := if |xTest| < |predsBinary| then |xTest| else |predsBinary|;
    overlays := [];
    for i := 0 to n
      invariant |overlays| == i
      invariant forall j :: 0 <= j < i ==> overlays[j] == OverlayFor(j, xTest[j], predsBinary[j])
    {
      overlays := overlays + [OverlayFor(i, xTest[i], predsBinary[i])];
    }
  }

  /** An overlay's mask is white exactly where some lesion channel fired, black elsewhere. */
  lemma OverlayMaskMeansAnyLesion(i: nat, img: Tensor<real>, pred: Tensor<int>, r: nat, c: nat)
    requires IsUnitImage(img) && HasChannels(pred, 1) && IsBinary(pred)
    requires r < |pred| && c < |pred[r]|
    ensures var m := OverlayFor(i, img, pred).mask;
            (m[r][c] == 0 || m[r][c] == 255) && (m[r][c] == 255 <==> exists k :: 0 <= k < |pred[r][c]| && pred[r][c][k] == 1)
  {
    CombinedMaskMeansAnyLesion(pred, r, c);
  }

  // ---------------------------------------------------------------------
  // The script
  // ---------------------------------------------------------------------

  /** What the script hands to `cv2.imwrite`, in order. */
  datatype Outputs = Outputs(masks: seq<Write>, overlays: seq<Overlay>)

  /**
   * The script from the loaded archive on: `preds` is what the network
   * returns for the selected images, one 4-channel probability tensor per
   * image; `y` is selected alongside `x` but not used afterwards.
   */
  method RunInference<M>(x: seq<Tensor<real>>, y: seq<M>, preds: seq<Tensor<real>>) returns (out: Outputs)
    requires forall i :: 0 <= i < |x| ==> IsUnitImage(x[i])
    requires |preds| == |LastFive(x)|
    requires forall i :: 0 <= i < |preds| ==> HasChannels(preds[i], |LesionNames|)
    ensures AllHaveLesionChannels(ThresholdBatch(preds))
    ensures out.masks == LesionWrites(ThresholdBatch(preds))
    ensures |out.overlays| == |LastFive(x)|
    ensures forall i :: 0 <= i < |out.overlays| ==>
              out.overlays[i] == OverlayFor(i, LastFive(x)[i], ThresholdBatch(preds)[i])
  {
    var xTest, yTest := LastFive(x), LastFive(y);
    var predsBinary := ThresholdBatch(preds);
    forall i | 0 <= i < |predsBinary|
      ensures HasChannels(predsBinary[i], |LesionNames|) && IsBinary(predsBinary[i])
    {
      ThresholdKeepsChannels(preds[i], |LesionNames|);
    }
    assert forall i :: 0 <= i < |xTest| ==> xTest[i] == x[|x| - |xTest| + i];
    var masks := SaveLesionMasks(predsBinary);
    var overlays := SaveOverlays(xTest, predsBinary);
    out := Outputs(masks, overlays);
  }
}
