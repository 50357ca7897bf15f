/**
 * The bookkeeping of the training script: where the four arrays come from,
 * which network is built, and where the checkpoints go. Compiling, fitting
 * and saving the Keras model are foreign and not modelled.
 */
module Train {
  import opened Results
  import opened Strings
  import opened Partition
  import Preprocess

  /** `data[key]` on an archive without that key. */
  datatype TrainError =
    | MissingKey(key: string)
    | InvalidModel(message: string)

  datatype Splits<T> = Splits(xTrain: seq<T>, yTrain: seq<T>, xTest: seq<T>, yTest: seq<T>, splitHere: bool)

  /**
   * The data-source branch of `main`: the four named arrays when both
   * "X_train" and "X_test" are keys of the archive, otherwise "images" and
   * "masks" cut at `int(len(X) * 0.8)`. Keys are read in the order
   * `main` reads them.
   */
  function LoadSplits<T>(data: map<string, seq<T>>): (r: Result<Splits<T>, TrainError>)
    ensures r.Ok? <==> if "X_train" in data && "X_test" in data then "Y_train" in data && "Y_test" in data
                       else "images" in data && "masks" in data
    ensures r.Ok? ==> (r.value.splitHere <==> !("X_train" in data && "X_test" in data))
    ensures r.Ok? && !r.value.splitHere ==>
              r.value == Splits(data["X_train"], data["Y_train"], data["X_test"], data["Y_test"], false)
    ensures r.Ok? && r.value.splitHere ==>
              && r.value.xTrain + r.value.xTest == data["images"]
              && r.value.yTrain + r.value.yTest == data["masks"]
              && |r.value.xTrain| == SplitIndex(|data["images"]|)
              && r.value.yTrain == Take(data["masks"], |r.value.xTrain|)
  {
    if "X_train" in data && "X_test" in data then
      if "Y_train" !in data then Err(MissingKey("Y_train"))
      else if "Y_test" !in data then Err(MissingKey("Y_test"))
      else Ok(Splits(data["X_train"], data["Y_train"], data["X_test"], data["Y_test"], false))
    else if "images" !in data then Err(MissingKey("images"))
    else if "masks" !in data then Err(MissingKey("masks"))
    else
      var x, y := data["images"], data["masks"];
      var k := SplitIndex(|x|);
      TakeDrop(y, k);
      Ok(Splits(x[..k], Take(y, k), x[k..], Drop(y, k), true))
  }

  /**
   * The fallback cut keeps images and masks aligned: in both halves the
   * entry at a position comes from the same original index, for X and Y
   * alike; with as many masks as images the halves have equal sizes.
   */
  lemma FallbackAligned<T>(data: map<string, seq<T>>)
    requires "images" in data && "masks" in data && !("X_train" in data && "X_test" in data)
    ensures var r, x, y := LoadSplits(data), data["images"], data["masks"];
            && r.Ok?
            && (forall i :: 0 <= i < |r.value.xTrain| && i < |r.value.yTrain| ==>
                  r.value.xTrain[i] == x[i] && r.value.yTrain[i] == y[i])
            && (forall j :: 0 <= j < |r.value.xTest| && j < |r.value.yTest| ==>
                  r.value.xTest[j] == x[SplitIndex(|x|) + j] && r.value.yTest[j] == y[SplitIndex(|x|) + j])
            && (|x| == |y| ==> |r.value.xTrain| == |r.value.yTrain| && |r.value.xTest| == |r.value.yTest|)
  {
    var x, y := data["images"], data["masks"];
    var k := SplitIndex(|x|);
    assert LoadSplits(data) == Ok(Splits(x[..k], Take(y, k), x[k..], Drop(y, k), true));
  }

  /** Files written by the preprocessing script have keys "images" and "masks", so they are always cut here. */
  lemma PreprocessedArchiveIsSplitHere(d: Preprocess.Dataset)
    ensures var r := LoadSplits(Preprocess.SaveArchive(d));
            r.Ok? && r.value.splitHere && |r.value.xTrain| == SplitIndex(|d.images|)
  {
  }

  const InputShape: (nat, nat, nat) := (512, 512, 3)
  const Classes: nat := 4

  datatype Architecture = SegNet | UNetPlusPlus

  datatype ModelConfig = ModelConfig(arch: Architecture, inputShape: (nat, nat, nat), classes: nat)

  /** The `if`/`elif`/`else` on `args.model`. */
  function SelectModel(name: string): (r: Result<ModelConfig, TrainError>)
    ensures r.Ok? <==> name == "segnet" || name == "unetpp"
    ensures r.Ok? ==> r.value.inputShape == InputShape && r.value.classes == Classes
    ensures r.Ok? ==> (r.value.arch == SegNet <==> name == "segnet")
    ensures r.Err? ==> r.error == InvalidModel("Invalid model name. Choose 'segnet' or 'unetpp'")
  {
    if name == "segnet" then Ok(ModelConfig(SegNet, InputShape, Classes))
    else if name == "unetpp" then Ok(ModelConfig(UNetPlusPlus, InputShape, Classes))
    else Err(InvalidModel("Invalid model name. Choose 'segnet' or 'unetpp'"))
  }

  /** `os.path.join(args.out, f"{args.model}_best.h5")`. */
  function BestCheckpointPath(out: string, model: string): (p: string)
    ensures EndsWith(p, model + "_best.h5")
  {
    PathJoin(out, model + "_best.h5")
  }

  /** `os.path.join(args.out, f"{args.model}_final.h5")`. */
  function FinalModelPath(out: string, model: string): (p: string)
    ensures EndsWith(p, model + "_final.h5")
  {
    PathJoin(out, model + "_final.h5")
  }

  /**
   * The two files of a model sit in `out` under the model's name and differ
   * from each other and from those of any other model name.
   */
  lemma CheckpointPathsDistinct(out: string, model: string, other: string)
    requires !StartsWith(model, "/") && !StartsWith(other, "/") && model != other
    ensures out != "" && !EndsWith(out, "/") ==>
              BestCheckpointPath(out, model) == out + "/" + model + "_best.h5" &&
              FinalModelPath(out, model) == out + "/" + model + "_final.h5"
    ensures BestCheckpointPath(out, model) != FinalModelPath(out, model)
    ensures BestCheckpointPath(out, model) != BestCheckpointPath(out, other)
    ensures FinalModelPath(out, model) != FinalModelPath(out, other)
  {
    var best, final := model + "_best.h5", model + "_final.h5";
    var otherBest, otherFinal := other + "_best.h5", other + "_final.h5";
    NotAbsolute(model, "_best.h5");
    NotAbsolute(model, "_final.h5");
    NotAbsolute(other, "_best.h5");
    NotAbsolute(other, "_final.h5");
    assert |best| != |final|;
    SuffixedDistinct(model, other, "_best.h5");
    SuffixedDistinct(model, other, "_final.h5");
    PathJoinInjective(out, best, final);
    PathJoinInjective(out, best, otherBest);
    PathJoinInjective(out, final, otherFinal);
  }

  /** A relative name stays relative with a suffix that does not start with `/`. */
  lemma NotAbsolute(name: string, suffix: string)
    requires !StartsWith(name, "/") && |suffix| > 0 && suffix[0] != '/'
    ensures !StartsWith(name + suffix, "/")
  {
    if |name| == 0 {
      assert name + suffix == suffix;
    } else {
      assert (name + suffix)[0] == name[0];
    }
  }

  /** Different names with the same suffix stay different. */
  lemma SuffixedDistinct(a: string, b: string, suffix: string)
    requires a != b
    ensures a + suffix != b + suffix
  {
    if |a| == |b| {
      assert (a + suffix)[..|a|] == a && (b + suffix)[..|b|] == b;
    } else {
      assert |a + suffix| != |b + suffix|;
    }
  }

  /** What `main` has settled before it hands over to Keras. */
  datatype Setup<T> = Setup(splits: Splits<T>, model: ModelConfig, checkpointPath: string, finalPath: string)

  /** `main`: the archive is read first (a missing key stops it), then the model name is checked. */
  function TrainSetup<T>(data: map<string, seq<T>>, model: string, out: string): (r: Result<Setup<T>, TrainError>)
    ensures LoadSplits(data).Err? ==> r == Err(LoadSplits(data).error)
    ensures LoadSplits(data).Ok? && SelectModel(model).Err? ==> r == Err(SelectModel(model).error)
    ensures r.Ok? <==> LoadSplits(data).Ok? && (model == "segnet" || model == "unetpp")
    ensures r.Ok? ==> (&& r.value.checkpointPath == BestCheckpointPath(out, model)
                       && r.value.finalPath == FinalModelPath(out, model)
                       && r.value.splits == LoadSplits(data).value
                       && r.value.model == SelectModel(model).value)
  {
    var splits :- LoadSplits(data);
    var config :- SelectModel(model);
    Ok(Setup(splits, config, BestCheckpointPath(out, model), FinalModelPath(out, model)))
  }
}
