/**
 * The conversion driver: `main` validates the mode, loads the raw store,
 * segments it into episodes, selects the feature schema, creates the
 * destination dataset and walks every frame of every episode, calling
 * add_frame per frame and save_episode per episode. The raw store and the
 * dataset writer are external; here the store only counts how often it is
 * opened and the writer only records the calls it receives.
 */
module Driver {
  import opened PyErrors
  import opened Features
  import opened Segmentation
  import opened Conversion
  import opened TraceProperties

  const VALID_MODES: seq<string> := [VIDEO_MODE, IMAGE_MODE, KEYPOINTS_MODE]

  /** The on-disk raw store; `loads` counts how often it has been opened. */
  class Store {
    const raw: RawData
    var loads: nat

    constructor (raw: RawData)
      ensures this.raw == raw && loads == 0
    {
      this.raw := raw;
      loads := 0;
    }

    /** load_raw_dataset: opens the store and hands back its arrays. */
    method Load() returns (data: RawData)
      modifies this
      ensures data == raw && loads == old(loads) + 1
    {
      loads := loads + 1;
      data := raw;
    }
  }

  /**
   * The destination dataset writer, seen only through the calls it receives.
   * It keeps a reference to the schema object it was created with, not a
   * copy, so a later build_features call changes its features too.
   */
  class Dataset {
    const repoId: string
    const features: FeatureTemplate
    var trace: seq<Event>

    /** LeRobotDataset.create: a new dataset that has received no call yet. */
    constructor Create(repoId: string, features: FeatureTemplate)
      ensures this.repoId == repoId && this.features == features && trace == []
    {
      this.repoId := repoId;
      this.features := features;
      trace := [];
    }

    method AddFrame(frame: Record)
      modifies this
      ensures trace == old(trace) + [Add(frame)]
    {
      trace := trace + [Add(frame)];
    }

    method SaveEpisode()
      modifies this
      ensures trace == old(trace) + [Save]
    {
      trace := trace + [Save];
    }
  }

  /**
   * main(raw_dir, repo_id, mode). An unsupported mode raises ValueError
   * before the store is opened or the template touched. Otherwise the store
   * is opened once; a template that has lost its image feature raises
   * KeyError before any dataset exists; and else a fresh dataset receives
   * exactly the calls Convert describes, ending the way Convert ends.
   */
  method ConvertZarr(store: Store, template: FeatureTemplate, repoId: string, mode: string)
    returns (outcome: Outcome, dataset: Dataset?)
    modifies store, template
    ensures mode !in VALID_MODES ==>
              && outcome == Fail(ValueError(mode)) && dataset == null
              && store.loads == old(store.loads) && template.entries == old(template.entries)
    ensures mode in VALID_MODES ==> store.loads == old(store.loads) + 1
    ensures mode in VALID_MODES && ApplyMode(old(template.entries), mode).Failure? ==>
              && outcome == Fail(KeyError(IMAGE)) && dataset == null
              && template.entries == old(template.entries)
    ensures mode in VALID_MODES && ApplyMode(old(template.entries), mode).Success? ==>
              && template.entries == ApplyMode(old(template.entries), mode).value
              && dataset != null && fresh(dataset)
              && dataset.repoId == repoId && dataset.features == template
              && Convert(store.raw, mode) == Run(dataset.trace, outcome)
  {
    if mode !in VALID_MODES {
      return Fail(ValueError(mode)), null;
    }
    var raw := store.Load();
    var idx := EpisodeDataIndex(raw.episodeEnds);
    var features := BuildFeatures(template, mode);
    if features.Failure? {
      return Fail(features.error), null;
    }
    dataset := new Dataset.Create(repoId, features.value);
    outcome := AddEpisodes(dataset, raw, mode, idx);
  }

  /**
   * The episode loop of main over a fresh dataset: for each episode, read
   * to[e] (IndexError when `to` is shorter than `from`), run its frame loop
   * and, if that did not raise, call save_episode.
   */
  method AddEpisodes(dataset: Dataset, raw: RawData, mode: string, idx: EpisodeIndex)
    returns (outcome: Outcome)
    requires dataset.trace == []
    modifies dataset
    ensures Episodes(raw, mode, idx, |idx.from|) == Run(dataset.trace, outcome)
  {
    var ep := 0;
    while ep < |idx.from|
      invariant 0 <= ep <= |idx.from|
      invariant Episodes(raw, mode, idx, ep) == Run(dataset.trace, Pass)
    {
      if ep >= |idx.to| {
        // to[ep] raises IndexError
        EndMissing(raw, mode, idx, ep);
        return Fail(IndexError(ep));
      }
      var frames := AddEpisodeFrames(dataset, raw, mode, idx, ep);
      if frames.Fail? {
        EpisodeRaises(raw, mode, idx, ep);
        return frames;
      }
      EpisodeCompletes(raw, mode, idx, ep);
      dataset.SaveEpisode();
      ep := ep + 1;
    }
    outcome := Pass;
  }

  /**
   * The frame loop of main for episode e: add_frame for every global index
   * from[e] .. to[e]-1 in turn (none when to[e] <= from[e]); the first record
   * that raises stops the loop and is returned.
   */
  method AddEpisodeFrames(dataset: Dataset, raw: RawData, mode: string, idx: EpisodeIndex, e: nat)
    returns (outcome: Outcome)
    requires e < |idx.from| && e < |idx.to|
    modifies dataset
    ensures dataset.trace == old(dataset.trace) + Frames(raw, mode, idx.from[e], FrameCount(idx, e)).trace
    ensures outcome == Frames(raw, mode, idx.from[e], FrameCount(idx, e)).outcome
  {
    var fromIdx := idx.from[e];
    var toIdx := idx.to[e];
    var numFrames := toIdx - fromIdx;
    ghost var before := dataset.trace;
    ghost var count := FrameCount(idx, e);
    var frameIdx := 0;
    while frameIdx < numFrames
      invariant 0 <= frameIdx <= count
      invariant Frames(raw, mode, fromIdx, frameIdx).outcome == Pass
      invariant dataset.trace == before + Frames(raw, mode, fromIdx, frameIdx).trace
    {
      var frame := FrameRecord(raw, mode, fromIdx + frameIdx);
      if frame.Failure? {
        FrameRaises(raw, mode, fromIdx, frameIdx, count);
        return Fail(frame.error);
      }
      FrameAdded(raw, mode, fromIdx, frameIdx);
      ghost var done := Frames(raw, mode, fromIdx, frameIdx).trace;
      assert (before + done) + [Add(frame.value)] == before + (done + [Add(frame.value)]);
      dataset.AddFrame(frame.value);
      frameIdx := frameIdx + 1;
    }
    assert frameIdx == count;
    return Pass;
  }

  /** The `repo_id += f"_{mode}"` step of the script's mode loop. */
  function Suffixed(repoId: string, mode: string): string
  {
    if mode in [IMAGE_MODE, KEYPOINTS_MODE] then repoId + "_" + mode else repoId
  }

  /** The repo id each main call receives when the script runs `modes` in order. */
  function RepoIds(base: string, modes: seq<string>): (ids: seq<string>)
    ensures |ids| == |modes|
  {
    if modes == [] then []
    else
      var earlier := RepoIds(base, modes[..|modes| - 1]);
      var current := if earlier == [] then base else earlier[|earlier| - 1];
      earlier + [Suffixed(current, modes[|modes| - 1])]
  }

  /** Running more modes does not change the ids the earlier modes received. */
  lemma {:induction false} RepoIdsStable(base: string, modes: seq<string>, n: nat)
    requires n <= |modes|
    ensures RepoIds(base, modes[..n]) == RepoIds(base, modes)[..n]
  {
    if n < |modes| {
      assert modes[..|modes| - 1][..n] == modes[..n];
      RepoIdsStable(base, modes[..|modes| - 1], n);
    } else {
      assert modes[..n] == modes;
    }
  }

  /** Each id is the previous one (the base id for the first mode) with this mode's suffix. */
  lemma RepoIdsStep(base: string, modes: seq<string>, k: nat)
    requires k < |modes|
    ensures RepoIds(base, modes)[k] == Suffixed(if k == 0 then base else RepoIds(base, modes)[k - 1], modes[k])
  {
    var ids := RepoIds(base, modes);
    var earlier := RepoIds(base, modes[..k]);
    RepoIdsStable(base, modes, k + 1);
    RepoIdsStable(base, modes, k);
    RepoIdsExtend(base, modes, k);
    assert ids[k] == ids[..k + 1][k] == Suffixed(if k == 0 then base else earlier[k - 1], modes[k]);
    assert k > 0 ==> earlier[k - 1] == ids[k - 1];
  }

  /** A suffix step extends the id, and leaves it unchanged exactly for the unsuffixed modes. */
  lemma SuffixedExtends(repoId: string, mode: string)
    ensures repoId <= Suffixed(repoId, mode)
    ensures Suffixed(repoId, mode) == repoId <==> mode !in [IMAGE_MODE, KEYPOINTS_MODE]
  {
    if mode in [IMAGE_MODE, KEYPOINTS_MODE] {
      assert |Suffixed(repoId, mode)| > |repoId|;
    }
  }

  /**
   * The suffixes accumulate: every id extends the base id and the previous
   * mode's id, and stays equal to the previous one exactly when the mode is
   * neither "image" nor "keypoints" (so a "video" run reuses the previous
   * run's repo id).
   */
  lemma {:induction false} RepoIdsAccumulate(base: string, modes: seq<string>, k: nat)
    requires k < |modes|
    ensures base <= RepoIds(base, modes)[k]
    ensures k > 0 ==> RepoIds(base, modes)[k - 1] <= RepoIds(base, modes)[k]
    ensures k > 0 ==> (RepoIds(base, modes)[k] == RepoIds(base, modes)[k - 1] <==>
                         modes[k] !in [IMAGE_MODE, KEYPOINTS_MODE])
  {
    var ids := RepoIds(base, modes);
    RepoIdsStep(base, modes, k);
    var previous := if k == 0 then base else ids[k - 1];
    SuffixedExtends(previous, modes[k]);
    if k > 0 {
      RepoIdsAccumulate(base, modes, k - 1);
      PrefixTransitive(base, previous, ids[k]);
    }
  }

  lemma PrefixTransitive(a: string, b: string, c: string)
    requires a <= b && b <= c
    ensures a <= c
  {
    assert c[..|a|] == b[..|a|];
  }

  /** The ids of one more mode are the earlier ids and that mode's suffix step. */
  lemma RepoIdsExtend(base: string, modes: seq<string>, k: nat)
    requires k < |modes|
    ensures var earlier := RepoIds(base, modes[..k]);
            RepoIds(base, modes[..k + 1]) ==
              earlier + [Suffixed(if k == 0 then base else earlier[k - 1], modes[k])]
  {
    var head := modes[..k + 1];
    assert head[..|head| - 1] == modes[..k] && head[|head| - 1] == modes[k];
  }

  /** Every call recorded in `results` passed. */
  ghost predicate AllPass(results: seq<Outcome>)
  {
    forall j :: 0 <= j < |results| ==> results[j] == Pass
  }

  /**
   * The script's `__main__` loop: for each mode in order, extend the repo
   * id, then call main; the first exception ends the script. `used` lists
   * the repo ids main was called with and `results` what each of those
   * calls returned: every call but the last passed, and the script fails
   * exactly with the exception of its last call.
   */
  method RunScript(store: Store, template: FeatureTemplate, repoId: string, modes: seq<string>)
    returns (outcome: Outcome, used: seq<string>, ghost results: seq<Outcome>)
    modifies store, template
    ensures |used| <= |modes| && used == RepoIds(repoId, modes)[..|used|]
    ensures outcome.Pass? ==> used == RepoIds(repoId, modes)
    ensures |results| == |used|
    ensures forall j :: 0 <= j < |results| - 1 ==> results[j] == Pass
    ensures outcome.Pass? ==> forall j :: 0 <= j < |results| ==> results[j] == Pass
    ensures outcome.Fail? ==> used != [] && outcome == results[|results| - 1]
  {
    var id := repoId;
    used := [];
    results := [];
    for k := 0 to |modes|
      invariant used == RepoIds(repoId, modes[..k])
      invariant id == if k == 0 then repoId else used[k - 1]
      invariant |results| == k && AllPass(results)
    {
      var mode := modes[k];
      RepoIdsExtend(repoId, modes, k);
      if mode in [IMAGE_MODE, KEYPOINTS_MODE] {
        id := id + "_" + mode;
      }
      used := used + [id];
      var result, dataset := ConvertZarr(store, template, id, mode);
      if result.Fail? {
        RepoIdsStable(repoId, modes, k + 1);
        return result, used, results + [result];
      }
      results := results + [Pass];
    }
    assert modes[..|modes|] == modes;
    outcome := Pass;
  }
}
