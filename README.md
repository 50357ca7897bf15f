# Diabetic-retinopathy lesion segmentation: a Dafny model of its bookkeeping

The repository trains SegNet and U-Net++ networks on DIARETDB fundus images and demonstrates them in a small web application. Almost all of its numeric work happens inside foreign libraries: Keras, OpenCV and NumPy. What it decides itself is file and dataset bookkeeping, and that is what is modelled and proved here:

- **Dataset preparation** (`DataLoader`):
  - lists the `.png` fundus images, sorts them and shuffles them;
  - cuts the list at 80%;
  - copies each image, together with its `<id>_valid.png` mask, into the train or test directory, or reports it as skipped when the mask is missing.
- **Preprocessing** (`Preprocess`):
  - scales image pixels to [0, 1];
  - encodes each grey mask as four identical binary channels;
  - pairs images with masks by position in the two sorted directory listings;
  - writes the archives.
- **Training set-up** (`Train`):
  - takes the named train/test arrays, or falls back to an 80% cut of `images`/`masks`;
  - dispatches on the model name;
  - names the checkpoint files.
- **Inference** (`Inference`):
  - takes the last five samples;
  - thresholds the predicted probabilities strictly above 0.5;
  - writes one 0/255 mask per (sample, lesion) and one overlay per sample, whose mask marks the pixels where any lesion fired.
- **Web back end** (`Backend`):
  - `sanitize_filename`;
  - the five random boxes of `simulate_segmentation`, with their bounds and colour rule;
  - where `upload_image` writes its files, and the three ways an upload fails.
- **Web front end** (`Frontend`):
  - `sanitizeFilename`, which collapses whitespace runs and then deletes characters outside `[a-zA-Z0-9._-]`;
  - the result-image URLs the page requests.

Some modules are shared by the others:

- `Results` holds the error type.
- `Sorting` holds Python's string order, with `sorted`/`list.sort` given as an insertion sort.
- `Strings` holds:
  - `endswith`/`startswith`;
  - `str.replace` of a pattern, scanned left to right;
  - decimal formatting of a `nat`;
  - `os.path.join` and `os.path.splitext` on POSIX;
  - `str.rfind`, and `str.lower` on ASCII.
- `Partition` holds `int(n * 0.8)` and Python's clamping slices.

Foreign calls are handled in two ways:

- `os.listdir`, `glob`, `cv2.imread`, `cv2.resize` and `model.predict` become parameters: a directory listing, a set of existing names, and decoding functions returning `Option`.
- `shutil.copy`, `cv2.imwrite` and `np.savez_compressed` become returned records of what would be written.

Randomness is handled in the same way:

- The values `random.shuffle` and `random.randint` draw come in as a `draws` parameter.
- CPython's Fisher–Yates shuffle is modelled step by step on an array.
- `randint(lo, hi)` picks `lo + d % (hi - lo + 1)` for draw `d`. Every value it can return is reachable, and every box within the bounds is the result of some draws.

Some behaviour of the code matters for what is proved:

- `process_dataset` aborts with the error of the first pair that fails to load. The preprocessing script processes both splits before it saves either archive, so a failure in either split writes neither archive, and a failure in the train split means the test split is never read.
- Images and masks are paired by position in the two sorted listings.
- An empty image directory yields empty arrays.
- An upload fails in three ways:
  - A stored name of "", "." or ".." fails when the file is opened, before anything is written.
  - Content PIL cannot decode fails in the first `simulate_segmentation`, after the file was stored and copied as the original result.
  - So does a name whose lower-cased extension has no PIL writer, such as `scan` or `x.txt`. The second segmentation sees the same file and the same name, so it fails only if the first does.

## Model

| member | source | states |
|---|---|---|
| DataLoader.PngNames | training/data_loader.py:20 | the candidate list holds exactly the listed names ending in ".png", each as often as it is listed |
| Sorting.SortNames | training/data_loader.py:21 | the sorted list is a permutation of its input and is ordered by Python's string order |
| Sorting.SortedUnique | training/data_loader.py:21 | two ordered permutations of one multiset are equal, so the sort result depends only on the names |
| Sorting.SortIgnoresListingOrder | training/data_loader.py:20-21 | lists with the same names sort to the same list, whatever the listing order |
| Sorting.LexLeTotal | training/data_loader.py:21 | any two names are comparable in Python's string order |
| Sorting.LexLeTrans | training/data_loader.py:21 | Python's string order is transitive |
| Sorting.LexLeAntisym | training/data_loader.py:21 | two names that are each ≤ the other are equal |
| Sorting.LexLeCommonPrefix | training/preprocess.py:36-37 | a shared directory prefix does not change how two paths compare, so sorting paths sorts names |
| DataLoader.Shuffled | training/data_loader.py:24 | the Fisher–Yates outcome for any draws is a permutation of its input, of the same length |
| DataLoader.Shuffle | training/data_loader.py:24 | the in-place shuffle leaves the array holding the Fisher–Yates outcome of its old contents, a permutation of them |
| DataLoader.ShuffleIgnoresListingOrder | training/data_loader.py:20-24 | because of the sort, the same names and the same draws give the same shuffled list, whatever the listing order |
| Partition.SplitIndex | training/data_loader.py:27 | the cut index k satisfies 5k ≤ 4n < 5k + 5 and k ≤ n, i.e. k = ⌊0.8·n⌋ |
| Partition.SplitIndexEdges | training/data_loader.py:27 | n = 0 gives k = 0; a non-empty list leaves at least one item after the cut; multiples of 5 are cut at exactly 4n/5 |
| DataLoader.SplitDir | training/data_loader.py:11-12 | the train and test directories are the children `train` and `test` of `data/processed` |
| DataLoader.SplitImages | training/data_loader.py:27-29 | train ++ test is the shuffled list, with train of length ⌊0.8·n⌋ and test holding the rest |
| DataLoader.FiveImagesSplitFourOne | training/data_loader.py:27-29 | five images split four and one |
| DataLoader.TestSplitNonEmpty | training/data_loader.py:27-29 | a non-empty list leaves at least one test image |
| Strings.ReplaceChar | webapp/backend/app/main.py:35 | replacing one character by one character keeps the length and changes exactly the matching positions |
| Strings.ReplaceAbsent | training/data_loader.py:33 | `replace` of a pattern that does not occur returns the string unchanged |
| Strings.RemovePngSuffix | training/data_loader.py:33 | removing ".png" from `id + ".png"`, with no other ".png" in `id`, gives `id` |
| DataLoader.MaskOfPlainName | training/data_loader.py:33-35 | for an image `id + ".png"` with no other ".png" in it, the id is `id` and the mask name is `id + "_valid.png"` |
| DataLoader.MaskNameNotInjective | training/data_loader.py:33-35 | every ".png" is removed, not only the suffix: `c.png.png` and `c.png` both look for `c_valid.png` |
| Strings.Replace | training/data_loader.py:33 | `replace` keeps the length when pattern and replacement are equally long, and never lengthens the string when the replacement is shorter |
| DataLoader.ImageId | training/data_loader.py:33 | the id, every ".png" removed, is no longer than the file name |
| DataLoader.MaskFileName | training/data_loader.py:35 | the mask name is the id followed by "_valid.png" |
| DataLoader.Copies | training/data_loader.py:38-43 | at most one copy per listed image |
| DataLoader.Skips | training/data_loader.py:44-45 | at most one skip report per listed image |
| DataLoader.CopyFiles | training/data_loader.py:31-45 | the loop's copies and skip reports are Copies and Skips of the image list |
| DataLoader.CopiesSound | training/data_loader.py:39-43 | every copy goes to its own split under the image's original name, with the image's derived mask, which exists |
| DataLoader.CopyPaths | training/data_loader.py:34-41 | for relative names, the image goes from `<fundus dir>/<image>` to `<split>/images/<image>` and the mask from `<mask dir>/<mask>` to `<split>/masks/<mask>` |
| DataLoader.CopiesLand | training/data_loader.py:34-43 | for listed (relative) names, every copy takes the image from the fundus directory into `<split>/images` and its derived mask into `<split>/masks`, both under their own names |
| DataLoader.CopiedIff | training/data_loader.py:39-43 | an image is copied exactly when it is in the list and its derived mask exists |
| DataLoader.SkippedIff | training/data_loader.py:44-45 | an id is reported exactly when some image of the list with that id has no mask |
| DataLoader.CopiedPlusSkipped | training/data_loader.py:31-45 | each image is copied or skipped, never both and never dropped: the two counts sum to the list length |
| DataLoader.AllMasksPresent | training/data_loader.py:31-45 | with every mask present, nothing is skipped and the copies follow the list in order |
| DataLoader.PrepareDataset | training/data_loader.py:20-53 | the whole script: the shuffled permutation of the sorted ".png" names, cut at ⌊0.8·n⌋, train copies before test copies, and reported sizes equal to the split lengths |
| DataLoader.PreparationCoversListing | training/data_loader.py:20-29 | the train and test lists together are a permutation of the ".png" names: disjoint as multisets, covering, nothing duplicated or dropped |
| DataLoader.ReportedSizesIncludeSkipped | training/data_loader.py:52-53 | the reported split sizes count the skipped images as well as the copied ones |
| Preprocess.Normalize | training/preprocess.py:22 | an 8-bit value v becomes exactly v/255, which lies in [0, 1] |
| Preprocess.NormalizeImage | training/preprocess.py:22 | the normalised image keeps the rows × cols × 3 shape, with every element in [0, 1] and equal to its byte divided by 255 |
| Preprocess.Foreground | training/preprocess.py:31 | `(mask > 0)` as a number: 1 iff the pixel is positive, otherwise 0 |
| Preprocess.Zeros | training/preprocess.py:29 | `np.zeros((n, n, 4))`: n × n pixels of four channels, every value 0 |
| Preprocess.SetChannel | training/preprocess.py:31 | `t[:, :, k] = plane` keeps the shape, puts the plane in channel k and leaves every other channel as it was |
| Preprocess.EncodeMask | training/preprocess.py:24-31 | a square target gives the mask encoding: n × n × 4, element [r][c][k] = 1 iff pixel [r][c] > 0; a non-square target gives a shape error |
| Preprocess.MaskEncodingBinary | training/preprocess.py:29-31 | every element of an encoded mask is 0 or 1, and it is 1 iff the resized mask pixel is positive |
| Preprocess.MaskChannelsIdentical | training/preprocess.py:30-31 | the four channels of an encoded mask are the same plane |
| Preprocess.MaskEncodingUnique | training/preprocess.py:29-31 | a mask has only one encoding |
| Preprocess.LoadAndPreprocess | training/preprocess.py:17-33 | an unreadable image or mask gives the matching error; otherwise the result is the normalised image and the mask encoding, or a shape error for a non-square target |
| Preprocess.GlobPng | training/preprocess.py:36-37 | a name matching the glob is longer than ".png": hidden names, ".png" itself included, never match |
| Preprocess.GlobPngNames | training/preprocess.py:36-37 | the glob result is no longer than the listing, and every name in it matches |
| Preprocess.GlobPngCounts | training/preprocess.py:36-37 | the glob keeps every visible ".png" name as often as it is listed, and nothing else |
| Preprocess.Zip | training/preprocess.py:41 | zip pairs element i with element i, for min(|a|, |b|) positions |
| Preprocess.Pairs | training/preprocess.py:36-41 | there are min(#images, #masks) pairs, and pair i is the i-th sorted image with the i-th sorted mask; surplus files are dropped |
| Sorting.SortPrefixed | training/preprocess.py:36-37 | sorting a listing of paths that share a directory prefix gives the sorted names, each with the prefix |
| Preprocess.SortedPathsPairAsNames | training/preprocess.py:36-41 | zipping the sorted globbed paths pairs the same files as Pairs does on the bare names |
| Preprocess.PairingIsPositional | training/preprocess.py:36-41 | when two ids' images and masks sort in opposite orders, each image is paired with the other's mask |
| Preprocess.CrossedPairs | training/preprocess.py:36-41 | two ordered images and two reverse-ordered masks pair crosswise |
| Preprocess.SortedPair | training/preprocess.py:36-37 | two visible ".png" names, listed in either order, glob and sort to the smaller first |
| Preprocess.SortTwo | training/preprocess.py:36-37 | sorting two names puts the smaller first |
| Preprocess.CrossingIdsExist | training/preprocess.py:36-41 | the ids "a" and "a_b" sort one way as images and the other way as masks |
| Preprocess.CrossingIdsVisible | training/preprocess.py:36-37 | the four files of those ids all match the glob |
| Preprocess.PairError | training/preprocess.py:17-33 | a pair loads without error iff both of its files decode and the target is square |
| Preprocess.LoadPairs | training/preprocess.py:39-44 | the loop succeeds iff every pair is readable (and the target is square, when there is a pair); then X and Y have one entry per pair, X[i] and Y[i] loaded from pair i; otherwise the error is that of the first failing pair, every earlier pair loading |
| Preprocess.ProcessDataset | training/preprocess.py:35-47 | the same for the zipped sorted listings: X and Y equal in length, in pair order; a failure is the error of the first bad pair |
| Preprocess.SaveArchive | training/preprocess.py:59-60 | the archive has exactly the keys "images" and "masks", holding X and Y element by element |
| Preprocess.ArchivePathsInOutputDir | training/preprocess.py:59-60 | the two archives are `data/processed/X_train.npz` and `data/processed/X_test.npz`, two different files |
| Preprocess.PreprocessSplits | training/preprocess.py:49-60 | both splits are processed at 512 × 512, train first; the script succeeds iff both load, and then writes exactly the two archives of the two datasets; a train failure is the train split's first error, otherwise a failure is the test split's; a shape error never occurs |
| Train.LoadSplits | training/train.py:44-52 | with both X_train and X_test present the four named arrays are used unchanged; otherwise X_train ++ X_test == images with the cut at ⌊0.8·n⌋ and masks cut at the same index; a missing key is an error |
| Train.FallbackAligned | training/train.py:49-52 | in both halves of the fallback cut, the image and the mask at a position come from the same original index |
| Train.PreprocessedArchiveIsSplitHere | training/train.py:44-52 | an archive written by preprocessing (keys images and masks) always takes the fallback branch and is cut in the training script |
| Train.SelectModel | training/train.py:61-66 | "segnet" and "unetpp" select their architecture with input (512, 512, 3) and 4 classes; any other name is the ValueError |
| Train.BestCheckpointPath | training/train.py:77 | the checkpoint path ends with `{model}_best.h5` |
| Train.FinalModelPath | training/train.py:94 | the final path ends with `{model}_final.h5` |
| Train.CheckpointPathsDistinct | training/train.py:77 | the checkpoint and final paths are `out/{model}_best.h5` and `out/{model}_final.h5`, distinct from each other and from those of any other relative model name |
| Train.TrainSetup | training/train.py:40-94 | the archive is read before the model name is checked; the script proceeds iff both succeed, with the splits, the model and the two checkpoint paths |
| Inference.LastFive | run_inference.py:30 | the demo samples are the last min(5, n) samples in their original order |
| Inference.LastFiveSuffix | run_inference.py:30 | the demo samples are a suffix of the data, and selecting again changes nothing |
| Inference.Binarize | run_inference.py:44 | a thresholded value is 0 or 1 |
| Inference.BinarizeStrictMonotone | run_inference.py:44 | the threshold is strict (0.5 gives 0, anything above gives 1) and monotone |
| Inference.Threshold | run_inference.py:44 | same shape as the prediction, binary, with element 1 iff its probability exceeds 0.5 |
| Inference.ThresholdBatch | run_inference.py:44 | one thresholded tensor per predicted sample |
| Inference.ThresholdKeepsChannels | run_inference.py:44 | thresholding keeps the channel count |
| Inference.ChannelMax | run_inference.py:61 | the maximum is at least every channel and equals one of them |
| Inference.ChannelMaxBinary | run_inference.py:61 | on a binary pixel the maximum is 0 or 1, and it is 1 iff some channel is 1 |
| Inference.CombinedMask | run_inference.py:61 | the combined mask has the image's rows and columns, each pixel the maximum over its channels |
| Inference.CombinedMaskMeansAnyLesion | run_inference.py:61 | a combined pixel of a thresholded prediction is 1 iff some lesion channel is 1 there, and is 0 otherwise |
| Inference.SampleName | run_inference.py:53 | a sample file name starts with `image_` and ends with `_` and its suffix |
| Inference.LesionMaskPath | run_inference.py:53 | a mask path ends with `image_{i}_{name}.png` |
| Inference.OverlayPath | run_inference.py:65 | an overlay path ends with `image_{i}_overlay.png` |
| Inference.SampleNameInjective | run_inference.py:53 | `image_{i}_{suffix}` determines both i and the suffix |
| Inference.LesionNamesDistinct | run_inference.py:49 | channels 0..3 are named MA, HE, SE, EX, pairwise different |
| Inference.LesionMaskPathsDistinct | run_inference.py:51-53 | distinct (sample, channel) pairs get distinct mask files |
| Inference.OverlayPathsDistinct | run_inference.py:65 | distinct samples get distinct overlay files |
| Inference.MasksAndOverlaysApart | run_inference.py:16-17 | no mask file is an overlay file: they live in different directories |
| Inference.LesionPlane | run_inference.py:54 | the written plane of channel k is 255 times that channel |
| Inference.SampleWrites | run_inference.py:52-54 | one write per lesion for a sample, in channel order, to `image_{i}_{name}.png` |
| Inference.LesionWrites | run_inference.py:51-54 | there are four mask writes per sample |
| Inference.LesionWriteAt | run_inference.py:51-54 | there are 4 mask writes per sample, and write 4i + k is channel k of sample i |
| Inference.LesionWritePathsDistinct | run_inference.py:51-54 | no two mask writes target the same file |
| Inference.LesionPixelsBlackOrWhite | run_inference.py:54 | every written mask pixel of a thresholded prediction is 0 or 255 |
| Inference.SaveLesionMasks | run_inference.py:51-54 | the nested loops make exactly LesionWrites, sample after sample and channel after channel |
| Inference.ToByte | run_inference.py:62 | `(x * 255).astype(uint8)` for x in [0, 1] is ⌊255x⌋, a byte |
| Inference.ImageBytes | run_inference.py:62 | the byte image keeps the shape, each element ⌊255x⌋ |
| Inference.MaskBytes | run_inference.py:63 | the overlay mask is 255 times the combined mask |
| Inference.OverlayFor | run_inference.py:61-65 | the overlay of sample i goes to OverlayPath(i), which ends with `image_{i}_overlay.png`; the byte image has the input's rows and the mask the prediction's rows |
| Inference.SaveOverlays | run_inference.py:60-66 | one overlay per zipped (image, prediction), at `image_{i}_overlay.png`, from the image bytes and the combined mask |
| Inference.OverlayMaskMeansAnyLesion | run_inference.py:60-63 | an overlay's mask is 255 exactly where some lesion channel fired and 0 elsewhere |
| Inference.RunInference | run_inference.py:30-66 | the script's writes are the lesion masks and overlays of the thresholded predictions for the last five samples |
| Backend.SanitizeFilename | webapp/backend/app/main.py:34-35 | same length; spaces and slashes become `_`; every other character is unchanged in place |
| Backend.SanitizedHasNoSeparators | webapp/backend/app/main.py:35 | the stored name contains no space and no slash |
| Backend.SanitizeIdempotent | webapp/backend/app/main.py:35 | sanitising twice is sanitising once |
| Backend.SanitizeKeepsPlainNames | webapp/backend/app/main.py:35 | a name with no space or slash is stored unchanged |
| Backend.DotNamesSurvive | webapp/backend/app/main.py:35 | "../x" becomes ".._x", but ".." itself survives |
| Backend.RandInt | webapp/backend/app/main.py:44-47 | a draw for `randint(lo, hi)` lies in [lo, hi] |
| Backend.RandIntReaches | webapp/backend/app/main.py:44-47 | every value in [lo, hi] is picked by some draw |
| Backend.OutlineColor | webapp/backend/app/main.py:48 | the colour is "red" iff the model is "segnet", otherwise "green" |
| Backend.BoxFor | webapp/backend/app/main.py:44-49 | one iteration's box is within the bounds |
| Backend.BoxWithinBounds | webapp/backend/app/main.py:43-49 | every box has 0 ≤ x0 ≤ w//2, 0 ≤ y0 ≤ h//2, sides of 20 to 50, the colour rule and width 3 |
| Backend.BoundedBoxReachable | webapp/backend/app/main.py:43-49 | every box meeting those bounds is drawn by some draws |
| Backend.DrawnBoxes | webapp/backend/app/main.py:43-49 | one box per draw, each within the bounds |
| Backend.SimulateSegmentation | webapp/backend/app/main.py:37-49 | the loop draws exactly five boxes, the ones its draws select |
| Backend.ResultPath | webapp/backend/app/main.py:67-79 | a result path ends with the stored name |
| Backend.StoredEffects | webapp/backend/app/main.py:60-67 | the first two writes store the upload and copy it to `results/original` under the same name |
| Backend.Writes | webapp/backend/app/main.py:63-79 | six writes: store the file, then five writes that read it, to the five targets in order, the second and third drawing the two box lists |
| Backend.UploadEffects | webapp/backend/app/main.py:60-79 | six writes, the first two being those of StoredEffects; they are Writes from the stored file to the original, segnet, unetpp and two heat-map result paths, in that order |
| Strings.RFind | webapp/backend/app/main.py:51 | the index of the last occurrence, or -1 when there is none |
| Strings.Extension | webapp/backend/app/main.py:51 | `splitext`'s extension is empty or starts with the one dot it contains and ends the name |
| Strings.ExtensionOfDotless | webapp/backend/app/main.py:51 | a name with no dot has an empty extension |
| Strings.ExtensionAfterStem | webapp/backend/app/main.py:51 | `stem.ext`, with a stem not starting with a dot, has extension `.ext` |
| Strings.AsciiLower | webapp/backend/app/main.py:51 | lower-casing keeps the length, turns each letter A–Z into its lower-case letter (code point + 32), leaves every other character alone and leaves no upper-case letter |
| Backend.SaveKey | webapp/backend/app/main.py:51 | the key `im.save` looks up is empty or a dot-started suffix no longer than the name |
| Backend.IsDirectoryName | webapp/backend/app/main.py:60 | the names that join to the directory itself or its parent are exactly the strings of at most two dots |
| Backend.UploadSucceeds | webapp/backend/app/main.py:39-63 | success needs decodable content and a registered save key, and, when the empty extension is not registered, a name with a non-dot character before its extension |
| Backend.UploadImage | webapp/backend/app/main.py:39-97 | the upload succeeds iff the stored name is not "", "." or "..", the content decodes and the lower-cased extension has a writer. A directory name fails with its path and writes nothing. Otherwise undecodable content, then an unknown extension, fails after storing the file and copying the original. On success the returned name is the sanitised client name and the effects are: store, copy the original, the two segmentations, and the two heat-map copies |
| Backend.DotlessNamesFail | webapp/backend/app/main.py:51 | a client name without a dot, such as `scan`, never uploads successfully, since the empty extension has no writer |
| Backend.SaveKeyOfStemAndExtension | webapp/backend/app/main.py:51 | `stem.EXT`, with a stem not starting with a dot, is saved under the lower-cased `.ext` |
| Backend.UpperCasePngIsLowered | webapp/backend/app/main.py:51 | `stem.PNG`, with a stem not starting with a dot, is saved under `.png` |
| Backend.DirectoryNamesRejected | webapp/backend/app/main.py:59-64 | the client names "", "." and ".." are stored unchanged, so all three reach the failing `open` |
| Backend.AcceptedNamesAreEntries | webapp/backend/app/main.py:59-60 | every stored name of a successful upload is a single directory entry: not empty, not `.` or `..`, and without a slash |
| Backend.JoinStaysInDirectory | webapp/backend/app/main.py:60 | a name with no slash, joined to a directory, lands directly inside it |
| Backend.ResultPathInDirectory | webapp/backend/app/main.py:67-79 | a result lands directly inside `results/<sub>` |
| Backend.UploadsStayInTheirDirectories | webapp/backend/app/main.py:59-79 | whatever name the client sends, the upload path and the five result paths are their directory, `/`, and the stored name; with Backend.AcceptedNamesAreEntries, every successful upload writes files directly inside those directories |
| Frontend.IsSpace | webapp/frontend/script.js:33 | JavaScript's `\s` class; no whitespace character is in `[a-zA-Z0-9._-]` |
| Frontend.IsAllowed | webapp/frontend/script.js:33 | the class `[a-zA-Z0-9._-]`, all ASCII and never a slash or a space |
| Frontend.SkipSpaces | webapp/frontend/script.js:33 | a `\s+` match ends at a non-space character or at the end |
| Frontend.CollapseSpaces | webapp/frontend/script.js:33 | the first replacement never lengthens the name |
| Frontend.CollapseLeavesNoSpaces | webapp/frontend/script.js:33 | no whitespace remains after the first replacement |
| Frontend.CollapseRun | webapp/frontend/script.js:33 | a maximal run of whitespace between two parts becomes exactly one `_` |
| Frontend.CollapseAppend | webapp/frontend/script.js:33 | collapsing distributes over a split point that is not inside a run |
| Frontend.CollapseNoSpaces | webapp/frontend/script.js:33 | a string without whitespace is left unchanged by the first replacement |
| Frontend.DropDisallowed | webapp/frontend/script.js:33 | the second replacement leaves only characters of `[a-zA-Z0-9._-]` and never lengthens the string |
| Frontend.DropDisallowedKeepsAllowed | webapp/frontend/script.js:33 | every allowed character is kept as often as it occurs |
| Frontend.DropDisallowedIsSubsequence | webapp/frontend/script.js:33 | what is kept is a subsequence of the input, in order |
| Frontend.DropNothing | webapp/frontend/script.js:33 | a string of allowed characters is unchanged by the second replacement |
| Frontend.SanitizeFilename | webapp/frontend/script.js:32-34 | the result has only allowed characters and is no longer than the input |
| Frontend.SanitizeIsSubsequenceOfCollapsed | webapp/frontend/script.js:33 | the result is the whitespace-collapsed name with the disallowed characters deleted, order preserved |
| Frontend.SanitizeFixedPoints | webapp/frontend/script.js:33 | a name is unchanged iff all its characters are allowed |
| Frontend.SanitizeIdempotent | webapp/frontend/script.js:110 | sanitising twice is sanitising once, so the heat-map handler's second pass changes nothing |
| Frontend.PlainNamesAgree | webapp/frontend/script.js:71 | for names of allowed characters, the stored name and the requested name are the same |
| Frontend.NamesCanDiverge | webapp/frontend/script.js:71 | a name with no space or slash but a disallowed character, such as `(1).png`, is stored as it is and requested under another name |
| Frontend.ServedFile | webapp/backend/app/main.py:32 | a path is served iff it lies under the `/results/` mount |
| Frontend.AsWrittenResultPath | webapp/frontend/script.js:77-78 | the page's URL path `/result/<sub>/<name>` (also used for the heat maps at lines 111-112), ending in the name |
| Frontend.ResultUrlPath | webapp/backend/app/main.py:32 | the corrected URL path, under the `/results/` mount and ending in the name |
| Frontend.AsWrittenResultsNotServed | webapp/frontend/script.js:77-78 | the page's `/result/...` URLs match no route of the backend |
| Frontend.ResultUrlServesStoredFile | webapp/frontend/script.js:77-78 | for a plain name whose upload succeeds, the corrected `/results/<sub>/<name>` URL serves exactly the result file that upload wrote |
| Frontend.ResultImagesFor | webapp/frontend/script.js:110-112 | after a successful upload, the four image URLs are the corrected result paths of the sanitised name, the heat maps using the re-sanitised name the page displays |
| Strings.PathJoin | training/data_loader.py:34-41 | the joined path ends with the name; an absolute name replaces the directory; otherwise `dir/name` |
| Strings.PathJoinInjective | run_inference.py:53 | joining different relative names to one directory gives different paths |
| Strings.NatToString | run_inference.py:53 | the decimal form of a number is a non-empty string of digits |
| Strings.NatToStringInjective | run_inference.py:53 | different sample indices are formatted differently |
| Strings.ParseNatToString | run_inference.py:53 | the decimal formatting of a number parses back to it |
| Partition.Take | training/train.py:51-52 | `s[:k]` has min(k, n) elements, the first ones of s |
| Partition.Drop | training/train.py:51-52 | `s[k:]` has the n - k remaining elements (none when k > n), in order |

## Left out

- The network architectures, compilation, fitting, saving, weight loading and `predict` are Keras calls. The predictions are an input of `Inference.RunInference`.
- The loss and metric functions (`dice_coefficient`, `bce_dice_loss`, training/train.py:22-34) are float tensor maths.
- The float16/float32 casts are left out because values are exact reals or ints here. Masks stay as ints.
- The `uint8` products `pred * 255` are left out because they are exact on binary values.
- `cv2.cvtColor`, `cv2.resize` and `cv2.imread` are library internals. Their results are inputs, with `None` as `Option.None`.
- The `cv2.addWeighted` blend is not modelled. Only its two inputs are recorded.
- The matplotlib display (run_inference.py:72-86) is not modelled.
- Directory creation, `np.load`, and the order of real file-system writes are not modelled. Writes are returned as records in program order.
- The progress messages of the scripts are not modelled.
- The random metrics of `upload_image` (webapp/backend/app/main.py:82-95) are fabricated floats.
- FastAPI routing and CORS are not modelled. The static mount appears only as `Frontend.ServedFile`.
- The pixels PIL decodes and draws onto are not modelled. Whether the upload decodes is a parameter, and the boxes are returned.
- The DOM event handlers, `fetch`, the status texts and the clock-based `addCacheBuster` are not modelled.
- The clear-results button is not modelled. It calls a route the backend does not define.
- Argument parsing is not modelled. Only the list of accepted model names is used.
- run_inference.py:13 loads `diaretdb1_processed.npz`, which the preprocessing script never writes. It writes `X_train.npz` and `X_test.npz`. The inference script's loading step is therefore not tied to `Preprocess`.
- Partition.SplitIndex: `int(n * 0.8)` is modelled as ⌊4n/5⌋. This is exact for multiples of 5. For other n it holds as long as the floating-point error of `n * 0.8` stays below the distance to the next integer, which is true far beyond any realistic list size.
- DataLoader.Shuffle: `random.shuffle` is modelled with its index draws as a parameter, and its contract states only the resulting permutation. The Mersenne Twister generator itself is not modelled.
- Backend.RandInt: `random.randint` is modelled as a draw reduced into range. Its distribution is not modelled.
- Sorting.SortNames: Python's Timsort is modelled as an insertion sort on a sequence. The two agree because a sorted permutation is unique (`Sorting.SortedUnique`). The in-place update of the list is not modelled.
- Frontend.SanitizeFilename: a JavaScript string is modelled as a sequence of Unicode scalar values rather than UTF-16 code units. Both readings give the same result, because a character outside the Basic Multilingual Plane is disallowed as a whole and as each of its surrogate halves.
- Backend.UploadImage: PIL's table of savable extensions is a parameter, since it depends on the installed plugins. `str.lower` is modelled on ASCII letters only; other cased characters in an extension, such as the Kelvin sign, are left as they are. A PIL failure while writing the file, once a format was found, is not modelled.
- Preprocess.Pairs: process_dataset sorts full paths. Pairs works on bare names, and Preprocess.SortedPathsPairAsNames proves the sorted paths are the sorted names with the directory prefix.

## Findings

| source | as written | input that shows it | evidently intended | confidence | as-written member | corrected member |
|---|---|---|---|---|---|---|
| webapp/frontend/script.js:77-78 | the page requests result images at `/result/<sub>/<name>` (lines 77-78) and heat maps at `/result/heatmap/<model>/<name>` (lines 111-112), but webapp/backend/app/main.py:32 mounts the results directory at `/results` | any upload, e.g. sub `segnet` and name `a.png`: `/result/segnet/a.png` matches no route | `/results/<sub>/<name>`, which serves `results/<sub>/<name>` | not executed | Frontend.AsWrittenResultsNotServed | Frontend.ResultUrlServesStoredFile |
