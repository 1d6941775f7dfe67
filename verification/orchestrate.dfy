/**
 * The policy of `run`: which files of the event directory are descriptors
 * and what group each names, which layers are composed, at what target
 * size, into which output file, and what a whole run writes.
 */
module Orchestrate {
  import opened Wrappers
  import opened Text
  import Descriptor
  import Compose

  // ----- descriptor files and group names -----

  /** The position of the last `'.'` in `name`, if any. */
  function LastDot(name: string): (r: Option<nat>)
    ensures r.Some? ==> r.value < |name| && name[r.value] == '.' && '.' !in name[r.value + 1..]
    ensures r.None? ==> '.' !in name
  {
    if |name| == 0 then None
    else if name[|name| - 1] == '.' then Some(|name| - 1)
    else
      var r := LastDot(name[..|name| - 1]);
      assert r.Some? ==> name[r.value + 1..] == name[..|name| - 1][r.value + 1..] + [name[|name| - 1]];
      assert r.None? ==> name == name[..|name| - 1] + [name[|name| - 1]];
      r
  }

  /**
   * Rust's `Path::extension` on a file name: what follows the last dot,
   * unless there is no dot, the only dot starts the name, or the name is `..`.
   */
  function Extension(name: string): Option<string> {
    if name == ".." then None
    else
      match LastDot(name)
      case None => None
      case Some(i) => if i == 0 then None else Some(name[i + 1..])
  }

  /** Rust's `Path::file_stem`: the name without its extension and the dot before it. */
  function Stem(name: string): string {
    if name == ".." then name
    else
      match LastDot(name)
      case None => name
      case Some(i) => if i == 0 then name else name[..i]
  }

  /** The name as it appears in the directory: stem, dot, extension. */
  lemma StemAndExtension(name: string)
    requires Extension(name).Some?
    ensures name == Stem(name) + ['.'] + Extension(name).value
    ensures |Stem(name)| > 0
  {
    var i := LastDot(name).value;
    assert name == name[..i] + [name[i]] + name[i + 1..];
  }

  const DZI: string := "dzi"

  /** The filter of the loop in `run`: a descriptor is a file whose extension is exactly `dzi`. */
  predicate IsDescriptor(name: string) {
    Extension(name) == Some(DZI)
  }

  /** A name is a descriptor's exactly when it is a non-empty stem followed by `.dzi`. */
  lemma DescriptorNames(name: string)
    ensures IsDescriptor(name) <==> |name| > 4 && name[|name| - 4..] == ".dzi"
    ensures IsDescriptor(name) ==> Stem(name) == name[..|name| - 4]
  {
    if IsDescriptor(name) {
      StemAndExtension(name);
      assert name[|name| - 4..] == ['.'] + DZI;
    }
    if |name| > 4 && name[|name| - 4..] == ".dzi" {
      var n := |name|;
      assert name[n - 1] == 'i' && name[n - 2] == 'z' && name[n - 3] == 'd' by {
        assert name[n - 4..][3] == 'i' && name[n - 4..][2] == 'z' && name[n - 4..][1] == 'd';
      }
      assert name[n - 4] == '.' by {
        assert name[n - 4..][0] == '.';
      }
      assert LastDot(name[..n - 1]) == LastDot(name[..n - 1][..n - 2]);
      assert LastDot(name[..n - 1][..n - 2]) == LastDot(name[..n - 3]);
      assert name[..n - 3][..n - 4] == name[..n - 4];
      assert LastDot(name[..n - 3]) == Some(n - 4);
      assert name[n - 3..] == DZI;
    }
  }

  /** The group of the descriptor `group.dzi` is `group`. */
  lemma GroupOfDescriptor(group: string)
    requires |group| > 0
    ensures IsDescriptor(group + ".dzi") && Stem(group + ".dzi") == group
  {
    var name := group + ".dzi";
    assert name[|name| - 4..] == ".dzi";
    DescriptorNames(name);
    assert name[..|name| - 4] == group;
  }

  /** Two descriptors of one directory, having different names, name different groups. */
  lemma GroupsDistinct(a: string, b: string)
    requires IsDescriptor(a) && IsDescriptor(b) && a != b
    ensures Stem(a) != Stem(b)
  {
    DescriptorNames(a);
    DescriptorNames(b);
    assert a == a[..|a| - 4] + ".dzi";
    assert b == b[..|b| - 4] + ".dzi";
  }

  // ----- which layers, at what size, into which file -----

  /** The skip rule: layers 0 and 1 are always composed, the others only with `enableLowerLayers`. */
  predicate LayerEnabled(i: nat, enableLowerLayers: bool) {
    !(i > 1 && !enableLowerLayers)
  }

  function Pow2(k: nat): (r: nat)
    ensures r >= 1
  {
    if k == 0 then 1 else 2 * Pow2(k - 1)
  }

  /**
   * The target size of layer `i` for a full size of `w`: `w * 0.5^(i-1)`
   * rounded half away from zero and cast to `u32` (which saturates), in
   * integers: `2w` capped at the largest `u32` for layer 0, `w` for layer 1,
   * and `w / 2^(i-1)` rounded half up from layer 2 on.
   */
  function TargetSize(w: nat, i: nat): nat {
    if i == 0 then Compose.Min(2 * w, Descriptor.U32_MAX)
    else if i == 1 then w
    else (w + Pow2(i - 2)) / Pow2(i - 1)
  }

  /**
   * From layer 1 on, the target size is the integer nearest to
   * `w / 2^(i-1)`, a tie going up: `2r·d <= 2w + d < 2(r+1)·d` with
   * `d = 2^(i-1)`.
   */
  lemma TargetSizeNearest(w: nat, i: nat)
    requires i >= 1
    ensures 2 * TargetSize(w, i) * Pow2(i - 1) <= 2 * w + Pow2(i - 1) < 2 * TargetSize(w, i) * Pow2(i - 1) + 2 * Pow2(i - 1)
  {
    if i >= 2 {
      RoundHalfUp(w, Pow2(i - 2), Pow2(i - 1));
    }
  }

  /** `(w + h) / 2h` is `w / 2h` rounded half up. */
  lemma RoundHalfUp(w: nat, h: nat, d: nat)
    requires h >= 1 && d == 2 * h
    ensures 2 * ((w + h) / d) * d <= 2 * w + d < 2 * ((w + h) / d) * d + 2 * d
  {
    var q, m := (w + h) / d, (w + h) % d;
    assert w + h == q * d + m && 0 <= m < d;
    assert 2 * q * d == 2 * (q * d);
  }

  lemma MulMonotone(a: nat, b: nat, d: nat)
    requires a <= b
    ensures a * d <= b * d
  {
  }

  /** Of two multiples of a positive `d`, the smaller has the smaller factor. */
  lemma FactorLess(a: nat, b: nat, d: nat)
    requires d >= 1 && a * d < b * d
    ensures a < b
  {
    if b <= a {
      MulMonotone(b, a, d);
    }
  }

  /** The rounding of `TargetSizeNearest` has one answer only. */
  lemma NearestUnique(w: nat, d: nat, r: nat, s: nat)
    requires d >= 1
    requires 2 * r * d <= 2 * w + d < 2 * r * d + 2 * d
    requires 2 * s * d <= 2 * w + d < 2 * s * d + 2 * d
    ensures r == s
  {
    assert 2 * r * d == 2 * (r * d) && 2 * s * d == 2 * (s * d);
    assert r * d < (s + 1) * d && s * d < (r + 1) * d;
    FactorLess(r, s + 1, d);
    FactorLess(s, r + 1, d);
  }

  /** The target size of layer `i >= 1` is the one integer that rounds `w / 2^(i-1)` as `TargetSizeNearest` says. */
  lemma TargetSizeCharacterized(w: nat, i: nat, r: nat)
    requires i >= 1
    ensures TargetSize(w, i) == r <==> 2 * r * Pow2(i - 1) <= 2 * w + Pow2(i - 1) < 2 * r * Pow2(i - 1) + 2 * Pow2(i - 1)
  {
    TargetSizeNearest(w, i);
    if 2 * r * Pow2(i - 1) <= 2 * w + Pow2(i - 1) < 2 * r * Pow2(i - 1) + 2 * Pow2(i - 1) {
      NearestUnique(w, Pow2(i - 1), TargetSize(w, i), r);
    }
  }

  /**
   * Layer 0 is `w * 0.5^-1`, twice the full size and so twice layer 1, an
   * integer that rounding leaves alone; the cast to `u32` saturates it.
   */
  lemma TargetSizeLayerZero(w: nat)
    ensures 2 * w <= Descriptor.U32_MAX ==> TargetSize(w, 0) == 2 * TargetSize(w, 1)
    ensures 2 * w > Descriptor.U32_MAX ==> TargetSize(w, 0) == Descriptor.U32_MAX
  {
  }

  /** A `u32` size gives `u32` targets, and no layer from 1 on is larger than the image. */
  lemma TargetSizeBounds(w: nat, i: nat)
    requires w <= Descriptor.U32_MAX
    ensures TargetSize(w, i) <= Descriptor.U32_MAX
    ensures i >= 1 ==> TargetSize(w, i) <= w
    ensures i == 0 ==> TargetSize(w, i) >= w
  {
    if i >= 2 {
      var h, d := Pow2(i - 2), Pow2(i - 1);
      assert d == 2 * h && h >= 1;
      var q := (w + h) / d;
      assert q * d <= w + h < w + d;
      MulMonotone(1, d, w);
      assert (w + 1) * d == w * d + d;
      FactorLess(q, w + 1, d);
    }
  }

  /** The output file of layer `layer` of group `group`: `group/layer_<layer>.png`. */
  datatype OutputFile = OutputFile(group: string, layer: nat)

  function FileName(layer: nat): string {
    "layer_" + ToDecimal(layer) + ".png"
  }

  /** Different layers are written to different file names. */
  lemma FileNameInjective(a: nat, b: nat)
    requires FileName(a) == FileName(b)
    ensures a == b
  {
    var s := FileName(a);
    assert s[6..|s| - 4] == ToDecimal(a);
    assert FileName(b)[6..|s| - 4] == ToDecimal(b);
    ToDecimalInjective(a, b);
  }

  /** The path of an output file below the output directory, one directory per group. */
  function OutputPath(f: OutputFile): seq<string> {
    [f.group, FileName(f.layer)]
  }

  lemma OutputPathInjective(f: OutputFile, g: OutputFile)
    requires OutputPath(f) == OutputPath(g)
    ensures f == g
  {
    assert OutputPath(f)[1] == OutputPath(g)[1];
    FileNameInjective(f.layer, g.layer);
  }

  // ----- a run -----

  /** A file of the event directory: its name and, for a descriptor, its text. */
  datatype Entry = Entry(name: string, content: string)

  /** A layer image written to the output directory. */
  datatype Written = Written(file: OutputFile, picture: Compose.Picture)

  /** What stops a run. */
  datatype RunError =
    | BadDescriptor(group: string, error: Descriptor.ParseError)
    | TileMissing(group: string, layer: nat, tile: string)
    | SizeOverflow(group: string, layer: nat)  // the canvas arithmetic leaves `u32`
    | EmptyImage(group: string, layer: nat)    // the PNG encoder refuses a picture with no width or no height

  /** The files a run wrote, in order, and the error that stopped it, if any. */
  datatype RunOutcome = RunOutcome(written: seq<Written>, error: Option<RunError>)

  /** `a`, then, unless `a` stopped, `b`. */
  function Then(a: RunOutcome, b: RunOutcome): RunOutcome {
    if a.error.Some? then a else RunOutcome(a.written + b.written, b.error)
  }

  /** What a run does with one layer: write nothing, write a picture, or stop. */
  datatype Step = Nothing | Write(picture: Compose.Picture) | Stop(error: RunError)

  /**
   * Layer `i` of a descriptor of group `group`: skipped by the skip rule,
   * otherwise composed at its target size; an empty grid writes nothing,
   * and a picture with no width or no height cannot be saved.
   */
  function LayerStep(group: string, f: Descriptor.DziFile, i: nat, store: Compose.TileStore, enableLowerLayers: bool): Step
    requires i < |f.layers|
  {
    if !LayerEnabled(i, enableLowerLayers) then Nothing
    else
      match Compose.ComposeLayer(f.layers[i].tiles, store, TargetSize(f.width, i), TargetSize(f.height, i))
      case Failure(MissingTile(name)) => Stop(TileMissing(group, i, name))
      case Failure(Overflow) => Stop(SizeOverflow(group, i))
      case Success(None) => Nothing
      case Success(Some(p)) => if p.width == 0 || p.height == 0 then Stop(EmptyImage(group, i)) else Write(p)
  }

  /**
   * A layer writes nothing exactly when the skip rule skips it or its grid
   * is empty; it stops the run only when enabled, and then because a tile
   * cannot be loaded, its arithmetic leaves `u32`, or its picture has no
   * pixels to save.
   */
  lemma LayerStepOutcomes(group: string, f: Descriptor.DziFile, i: nat, store: Compose.TileStore, enableLowerLayers: bool)
    requires i < |f.layers|
    ensures var tiles := f.layers[i].tiles;
            LayerStep(group, f, i, store, enableLowerLayers) == Nothing <==>
              !LayerEnabled(i, enableLowerLayers) || |tiles| == 0 || |tiles[0]| == 0
    ensures var s := LayerStep(group, f, i, store, enableLowerLayers);
            s.Stop? ==> LayerEnabled(i, enableLowerLayers) && s.error.group == group && s.error.layer == i
    ensures var s := LayerStep(group, f, i, store, enableLowerLayers);
            s.Stop? && s.error.TileMissing? ==> s.error.tile !in store
    ensures var s := LayerStep(group, f, i, store, enableLowerLayers);
            s.Stop? && s.error.SizeOverflow? ==> !Compose.Fits(f.layers[i].tiles, store)
    ensures var s := LayerStep(group, f, i, store, enableLowerLayers);
            LayerEnabled(i, enableLowerLayers) && Compose.Fits(f.layers[i].tiles, store) ==> !(s.Stop? && s.error.SizeOverflow?)
    ensures var s := LayerStep(group, f, i, store, enableLowerLayers);
            s.Stop? && s.error.EmptyImage? <==>
              && LayerEnabled(i, enableLowerLayers)
              && var c := Compose.ComposeLayer(f.layers[i].tiles, store, TargetSize(f.width, i), TargetSize(f.height, i));
                 c.Success? && c.value.Some? && (c.value.value.width == 0 || c.value.value.height == 0)
  {
  }

  /** The step of every layer of a descriptor, in file order. */
  function Steps(group: string, f: Descriptor.DziFile, store: Compose.TileStore, enableLowerLayers: bool): (r: seq<Step>)
    ensures |r| == |f.layers|
    ensures forall i :: 0 <= i < |f.layers| ==> r[i] == LayerStep(group, f, i, store, enableLowerLayers)
  {
    seq(|f.layers|, i requires 0 <= i < |f.layers| => LayerStep(group, f, i, store, enableLowerLayers))
  }

  /**
   * The steps from layer `i` on, in order, until one stops: every file
   * written is a `Write` step's picture, under its own layer number, each
   * layer at most once; a run that does not stop met no `Stop`.
   */
  function RunSteps(group: string, steps: seq<Step>, i: nat): (r: RunOutcome)
    requires i <= |steps|
    ensures forall k :: 0 <= k < |r.written| ==>
              && r.written[k].file.group == group
              && i <= r.written[k].file.layer < |steps|
              && steps[r.written[k].file.layer] == Write(r.written[k].picture)
    ensures forall a, b :: 0 <= a < b < |r.written| ==> r.written[a].file.layer < r.written[b].file.layer
    ensures r.error.None? ==> forall j :: i <= j < |steps| ==> !steps[j].Stop?
    ensures r.error.Some? ==> exists j :: i <= j < |steps| && steps[j] == Stop(r.error.value)
    decreases |steps| - i
  {
    if i == |steps| then RunOutcome([], None)
    else
      var rest := RunSteps(group, steps, i + 1);
      match steps[i]
      case Nothing => rest
      case Stop(e) => RunOutcome([], Some(e))
      case Write(p) =>
        var r := RunOutcome([Written(OutputFile(group, i), p)] + rest.written, rest.error);
        assert forall k :: 0 < k < |r.written| ==> r.written[k] == rest.written[k - 1];
        r
  }

  /** The file a step writes, if any. */
  function StepFiles(group: string, steps: seq<Step>, i: nat): seq<Written>
    requires i < |steps|
  {
    if steps[i].Write? then [Written(OutputFile(group, i), steps[i].picture)] else []
  }

  /** The first layer from `i` on whose step stops the run, or `|steps|` when none does. */
  function FirstStop(steps: seq<Step>, i: nat): (j: nat)
    requires i <= |steps|
    ensures i <= j <= |steps|
    ensures j < |steps| ==> steps[j].Stop?
    ensures forall m :: i <= m < j ==> !steps[m].Stop?
    decreases |steps| - i
  {
    if i == |steps| || steps[i].Stop? then i else FirstStop(steps, i + 1)
  }

  /** The files written by the steps of layers `i` up to `j`, in order. */
  function WritesBetween(group: string, steps: seq<Step>, i: nat, j: nat): seq<Written>
    requires i <= j <= |steps|
    decreases j - i
  {
    if i == j then [] else StepFiles(group, steps, i) + WritesBetween(group, steps, i + 1, j)
  }

  /**
   * The steps from layer `i` on stop exactly at the first `Stop` step, with
   * its error, after writing every `Write` step before it; without a `Stop`
   * step they write every `Write` step and report no error.
   */
  lemma {:induction false} RunStepsFirstStop(group: string, steps: seq<Step>, i: nat)
    requires i <= |steps|
    ensures var j := FirstStop(steps, i);
            RunSteps(group, steps, i).written == WritesBetween(group, steps, i, j)
    ensures var j := FirstStop(steps, i);
            RunSteps(group, steps, i).error == if j < |steps| then Some(steps[j].error) else None
    decreases |steps| - i
  {
    if i < |steps| && !steps[i].Stop? {
      RunStepsFirstStop(group, steps, i + 1);
      var rest := RunSteps(group, steps, i + 1);
      assert RunSteps(group, steps, i).written == StepFiles(group, steps, i) + rest.written;
    }
  }

  /** One step of a run that does not stop: its file, then the rest's. */
  lemma RunStepsUnfold(group: string, steps: seq<Step>, i: nat)
    requires i < |steps|
    requires RunSteps(group, steps, i).error.None?
    ensures RunSteps(group, steps, i + 1).error.None?
    ensures RunSteps(group, steps, i).written == StepFiles(group, steps, i) + RunSteps(group, steps, i + 1).written
  {
  }

  /** A run that does not stop writes every `Write` step. */
  lemma {:induction false} RunStepsComplete(group: string, steps: seq<Step>, i: nat, j: nat)
    requires i <= j < |steps| && steps[j].Write?
    requires RunSteps(group, steps, i).error.None?
    ensures exists k :: 0 <= k < |RunSteps(group, steps, i).written| && RunSteps(group, steps, i).written[k].file.layer == j
    decreases |steps| - i
  {
    var w := RunSteps(group, steps, i).written;
    var head, rest := StepFiles(group, steps, i), RunSteps(group, steps, i + 1).written;
    assert w == head + rest by {
      RunStepsUnfold(group, steps, i);
    }
    if i < j {
      assert exists k :: 0 <= k < |rest| && rest[k].file.layer == j by {
        RunStepsUnfold(group, steps, i);
        RunStepsComplete(group, steps, i + 1, j);
      }
      var k :| 0 <= k < |rest| && rest[k].file.layer == j;
      assert w[|head| + k] == rest[k];
    } else {
      assert w[0] == head[0];
    }
  }

  /** The layers of one descriptor, composed in order until one fails. */
  function RunLayers(group: string, f: Descriptor.DziFile, store: Compose.TileStore, enableLowerLayers: bool): RunOutcome {
    RunSteps(group, Steps(group, f, store, enableLowerLayers), 0)
  }

  /** Layer `i` of `f` as a run composes it: enabled, and composing to `p`, which has pixels, at its target size. */
  predicate Composes(f: Descriptor.DziFile, i: nat, store: Compose.TileStore, enableLowerLayers: bool, p: Compose.Picture)
    requires i < |f.layers|
  {
    && LayerEnabled(i, enableLowerLayers)
    && Compose.ComposeLayer(f.layers[i].tiles, store, TargetSize(f.width, i), TargetSize(f.height, i)) == Success(Some(p))
    && p.width > 0 && p.height > 0
  }

  lemma LayerStepWrites(group: string, f: Descriptor.DziFile, i: nat, store: Compose.TileStore, enableLowerLayers: bool, p: Compose.Picture)
    requires i < |f.layers|
    ensures LayerStep(group, f, i, store, enableLowerLayers) == Write(p) <==> Composes(f, i, store, enableLowerLayers, p)
  {
  }

  /**
   * Over the layers of one descriptor, a run writes only enabled layers,
   * each once and in file order, each the picture its layer composes to;
   * and one that does not stop writes every layer that composes to a
   * picture.
   */
  lemma RunLayersWrites(group: string, f: Descriptor.DziFile, store: Compose.TileStore, enableLowerLayers: bool, j: nat)
    requires j < |f.layers|
    ensures var r := RunLayers(group, f, store, enableLowerLayers);
            forall k :: 0 <= k < |r.written| && r.written[k].file.layer == j ==>
              r.written[k].file.group == group && Composes(f, j, store, enableLowerLayers, r.written[k].picture)
    ensures var r := RunLayers(group, f, store, enableLowerLayers);
            r.error.None? && (exists p :: Composes(f, j, store, enableLowerLayers, p)) ==>
              exists k :: 0 <= k < |r.written| && r.written[k].file.layer == j
  {
    var steps := Steps(group, f, store, enableLowerLayers);
    var r := RunLayers(group, f, store, enableLowerLayers);
    forall k | 0 <= k < |r.written| && r.written[k].file.layer == j
      ensures Composes(f, j, store, enableLowerLayers, r.written[k].picture)
    {
      LayerStepWrites(group, f, j, store, enableLowerLayers, r.written[k].picture);
    }
    if r.error.None? && exists p :: Composes(f, j, store, enableLowerLayers, p) {
      var p :| Composes(f, j, store, enableLowerLayers, p);
      LayerStepWrites(group, f, j, store, enableLowerLayers, p);
      RunStepsComplete(group, steps, 0, j);
    }
  }

  /** What a run does with one file of the event directory. */
  function EntryOutcome(e: Entry, store: Compose.TileStore, enableLowerLayers: bool): (r: RunOutcome)
    ensures |r.written| > 0 ==> IsDescriptor(e.name)
    ensures forall k :: 0 <= k < |r.written| ==>
              r.written[k].file.group == Stem(e.name) && LayerEnabled(r.written[k].file.layer, enableLowerLayers)
    ensures DistinctFiles(r.written)
  {
    if !IsDescriptor(e.name) then RunOutcome([], None)
    else
      var group := Stem(e.name);
      match Descriptor.ParseDziText(e.content)
      case Failure(err) => RunOutcome([], Some(BadDescriptor(group, err)))
      case Success(f) =>
        var r := RunLayers(group, f, store, enableLowerLayers);
        assert forall k :: 0 <= k < |r.written| ==> LayerEnabled(r.written[k].file.layer, enableLowerLayers) by {
          var steps := Steps(group, f, store, enableLowerLayers);
          forall k | 0 <= k < |r.written|
            ensures LayerEnabled(r.written[k].file.layer, enableLowerLayers)
          {
            assert steps[r.written[k].file.layer].Write?;
          }
        }
        r
  }

  /**
   * A file that is not a descriptor writes nothing and reports nothing; a
   * descriptor that does not parse writes nothing and stops the run with
   * the parse error under its group; a descriptor that parses runs its
   * layers under its group.
   */
  lemma EntryOutcomeCases(e: Entry, store: Compose.TileStore, enableLowerLayers: bool)
    ensures !IsDescriptor(e.name) ==> EntryOutcome(e, store, enableLowerLayers) == RunOutcome([], None)
    ensures IsDescriptor(e.name) && Descriptor.ParseDziText(e.content).Failure? ==>
              EntryOutcome(e, store, enableLowerLayers) ==
                RunOutcome([], Some(BadDescriptor(Stem(e.name), Descriptor.ParseDziText(e.content).error)))
    ensures IsDescriptor(e.name) && Descriptor.ParseDziText(e.content).Success? ==>
              EntryOutcome(e, store, enableLowerLayers) ==
                RunLayers(Stem(e.name), Descriptor.ParseDziText(e.content).value, store, enableLowerLayers)
  {
  }

  /** The outcome of every file of the directory, in listing order. */
  function Outcomes(entries: seq<Entry>, store: Compose.TileStore, enableLowerLayers: bool): (r: seq<RunOutcome>)
    ensures |r| == |entries|
    ensures forall e :: 0 <= e < |entries| ==> r[e] == EntryOutcome(entries[e], store, enableLowerLayers)
  {
    seq(|entries|, e requires 0 <= e < |entries| => EntryOutcome(entries[e], store, enableLowerLayers))
  }

  /** Outcomes one after the other, until one stops: every file written was written by one of them. */
  function RunAll(outs: seq<RunOutcome>): (r: RunOutcome)
    ensures forall w :: w in r.written ==> exists e :: 0 <= e < |outs| && w in outs[e].written
  {
    if |outs| == 0 then RunOutcome([], None)
    else
      var rest := RunAll(outs[1..]);
      assert forall e :: 0 <= e < |outs[1..]| ==> outs[1..][e] == outs[e + 1];
      Then(outs[0], rest)
  }

  /** The position of the first outcome that stopped, or `|outs|` when none did. */
  function FirstFailure(outs: seq<RunOutcome>): (k: nat)
    ensures k <= |outs|
    ensures k < |outs| ==> outs[k].error.Some?
    ensures forall m :: 0 <= m < k ==> outs[m].error.None?
  {
    if |outs| == 0 || outs[0].error.Some? then 0
    else
      var k := FirstFailure(outs[1..]);
      assert forall m :: 1 <= m < 1 + k ==> outs[m] == outs[1..][m - 1];
      1 + k
  }

  /** The files of the first `n` outcomes, one outcome after the other. */
  function WrittenBy(outs: seq<RunOutcome>, n: nat): seq<Written>
    requires n <= |outs|
  {
    if n == 0 then [] else outs[0].written + WrittenBy(outs[1..], n - 1)
  }

  /**
   * A run stops at the first outcome that stops, with its error, having
   * written the files of every outcome up to and including that one; a
   * run that does not stop wrote every outcome's files, in order.
   */
  lemma {:induction false} RunAllFirstFailure(outs: seq<RunOutcome>)
    ensures var k := FirstFailure(outs);
            RunAll(outs).written == WrittenBy(outs, if k < |outs| then k + 1 else k)
    ensures var k := FirstFailure(outs);
            RunAll(outs).error == if k < |outs| then outs[k].error else None
    decreases |outs|
  {
    if |outs| > 0 {
      var tail := outs[1..];
      RunAllFirstFailure(tail);
      if outs[0].error.Some? {
        assert WrittenBy(outs, 1) == outs[0].written + WrittenBy(tail, 0);
      } else {
        assert FirstFailure(outs) == 1 + FirstFailure(tail);
      }
    }
  }

  /** No two of `w` write the same file. */
  predicate DistinctFiles(w: seq<Written>) {
    forall a, b :: 0 <= a < b < |w| ==> w[a].file != w[b].file
  }

  lemma DistinctFilesAppend(x: seq<Written>, y: seq<Written>)
    requires DistinctFiles(x) && DistinctFiles(y)
    requires forall v, u :: v in x && u in y ==> v.file != u.file
    ensures DistinctFiles(x + y)
  {
    var w := x + y;
    forall a, b | 0 <= a < b < |w|
      ensures w[a].file != w[b].file
    {
      if b < |x| {
        assert w[a] == x[a] && w[b] == x[b];
      } else if a >= |x| {
        assert w[a] == y[a - |x|] && w[b] == y[b - |x|];
      } else {
        assert w[a] in x && w[b] in y;
      }
    }
  }

  /** Outcomes that each write a file once, and never the file of another, write no file twice. */
  lemma {:induction false} RunAllDistinct(outs: seq<RunOutcome>)
    requires forall e :: 0 <= e < |outs| ==> DistinctFiles(outs[e].written)
    requires forall e1, e2, v, w :: 0 <= e1 < e2 < |outs| && v in outs[e1].written && w in outs[e2].written ==> v.file != w.file
    ensures DistinctFiles(RunAll(outs).written)
    decreases |outs|
  {
    if |outs| > 0 {
      var tail := outs[1..];
      assert DistinctFiles(RunAll(tail).written) by {
        assert forall e :: 0 <= e < |tail| ==> tail[e] == outs[e + 1];
        RunAllDistinct(tail);
      }
      var mine, rest := outs[0], RunAll(tail);
      assert RunAll(outs) == Then(mine, rest);
      if mine.error.None? {
        assert forall v, u :: v in mine.written && u in rest.written ==> v.file != u.file by {
          forall v, u | v in mine.written && u in rest.written
            ensures v.file != u.file
          {
            var e :| 0 <= e < |tail| && u in tail[e].written;
            assert u in outs[e + 1].written;
          }
        }
        DistinctFilesAppend(mine.written, rest.written);
      }
    }
  }

  /**
   * `run` after the output directory is cleared: the files of the event
   * directory in listing order, each descriptor's layers composed and
   * written, until the first failure.
   */
  function RunEntries(entries: seq<Entry>, store: Compose.TileStore, enableLowerLayers: bool): RunOutcome {
    RunAll(Outcomes(entries, store, enableLowerLayers))
  }

  /** The names of a directory's files are all different. */
  predicate DistinctNames(entries: seq<Entry>) {
    forall a, b :: 0 <= a < b < |entries| ==> entries[a].name != entries[b].name
  }

  /**
   * No file of a run is written twice: the descriptors of one directory
   * name different groups, and each descriptor writes each layer once.
   */
  lemma RunWritesOnce(entries: seq<Entry>, store: Compose.TileStore, enableLowerLayers: bool)
    requires DistinctNames(entries)
    ensures DistinctFiles(RunEntries(entries, store, enableLowerLayers).written)
  {
    var outs := Outcomes(entries, store, enableLowerLayers);
    forall e1, e2, v, w | 0 <= e1 < e2 < |outs| && v in outs[e1].written && w in outs[e2].written
      ensures v.file != w.file
    {
      GroupsDistinct(entries[e1].name, entries[e2].name);
    }
    RunAllDistinct(outs);
  }

  /** Every file a run writes is for an enabled layer; without `enableLowerLayers`, layer 0 or 1. */
  lemma RunLayersEnabled(entries: seq<Entry>, store: Compose.TileStore, enableLowerLayers: bool)
    ensures forall w :: w in RunEntries(entries, store, enableLowerLayers).written ==>
              LayerEnabled(w.file.layer, enableLowerLayers)
    ensures !enableLowerLayers ==> forall w :: w in RunEntries(entries, store, enableLowerLayers).written ==> w.file.layer <= 1
  {
    var outs := Outcomes(entries, store, enableLowerLayers);
    forall w | w in RunAll(outs).written
      ensures LayerEnabled(w.file.layer, enableLowerLayers)
    {
      var e :| 0 <= e < |outs| && w in outs[e].written;
    }
  }
}
