/**
 * Episode segmentation: the raw store keeps every episode's frames in one
 * flat array and records only where each episode ends. The script turns
 * those end offsets into parallel `from`/`to` sequences, `from` being 0
 * followed by every end but the last (numpy's `ends[:-1]`, which is empty
 * for an empty or one-element array).
 */
module Segmentation {

  /** The `episode_data_index` dict: `from[e]` and `to[e]` bound episode e. */
  datatype EpisodeIndex = EpisodeIndex(from: seq<int>, to: seq<int>)

  function EpisodeDataIndex(ends: seq<int>): (idx: EpisodeIndex)
    ensures idx.to == ends
    ensures |idx.from| == if ends == [] then 1 else |ends|
    ensures idx.from[0] == 0
    ensures forall e :: 0 < e < |idx.from| ==> idx.from[e] == idx.to[e - 1]
  {
    EpisodeIndex([0] + (if ends == [] then [] else ends[..|ends| - 1]), ends)
  }

  /** What the store is expected to hold: positive, strictly increasing ends. */
  predicate ValidEnds(ends: seq<int>)
  {
    && ends != []
    && ends[0] > 0
    && forall i, j :: 0 <= i < j < |ends| ==> ends[i] < ends[j]
  }

  /** The frame count the driver computes for episode e (may be negative). */
  function NumFrames(idx: EpisodeIndex, e: nat): int
    requires e < |idx.from| && e < |idx.to|
  {
    idx.to[e] - idx.from[e]
  }

  /** The sum of the first n episodes' frame counts. */
  function TotalFrames(idx: EpisodeIndex, n: nat): int
    requires n <= |idx.from| && n <= |idx.to|
  {
    if n == 0 then 0 else TotalFrames(idx, n - 1) + NumFrames(idx, n - 1)
  }

  /**
   * For any non-empty ends the two sequences have equal length, so every
   * episode index the driver visits is valid for `to` as well as `from`.
   */
  lemma IndexAligned(ends: seq<int>)
    requires ends != []
    ensures |EpisodeDataIndex(ends).from| == |EpisodeDataIndex(ends).to| == |ends|
  {
  }

  /**
   * With valid ends every episode is a non-empty range inside
   * [0, last end): 0 <= from[e] < to[e] <= last.
   */
  lemma EpisodesNonEmpty(ends: seq<int>, e: nat)
    requires ValidEnds(ends) && e < |ends|
    ensures 0 <= EpisodeDataIndex(ends).from[e]
    ensures NumFrames(EpisodeDataIndex(ends), e) > 0
    ensures EpisodeDataIndex(ends).to[e] <= ends[|ends| - 1]
  {
    var idx := EpisodeDataIndex(ends);
    if e > 0 {
      assert idx.from[e] == ends[e - 1];
      assert ends[0] <= ends[e - 1];
    }
    if e < |ends| - 1 {
      assert ends[e] < ends[|ends| - 1];
    }
  }

  /**
   * The frame counts telescope: the first n episodes hold ends[n-1] frames
   * in all. This needs no monotonicity; it is a property of `from` being
   * `to` shifted by one.
   */
  lemma {:induction false} FramesTelescope(ends: seq<int>, n: nat)
    requires 0 < n <= |ends|
    ensures TotalFrames(EpisodeDataIndex(ends), n) == ends[n - 1]
  {
    var idx := EpisodeDataIndex(ends);
    if n > 1 {
      FramesTelescope(ends, n - 1);
      assert idx.from[n - 1] == ends[n - 2];
    }
  }

  /** The total over all episodes is the last end offset. */
  lemma TotalIsLastEnd(ends: seq<int>)
    requires ends != []
    ensures TotalFrames(EpisodeDataIndex(ends), |ends|) == ends[|ends| - 1]
  {
    FramesTelescope(ends, |ends|);
  }

  /**
   * With valid ends, every global frame index below the last end belongs to
   * exactly one episode.
   */
  lemma UniqueEpisode(ends: seq<int>, i: int)
    requires ValidEnds(ends) && 0 <= i < ends[|ends| - 1]
    ensures exists e :: 0 <= e < |ends| && EpisodeDataIndex(ends).from[e] <= i < EpisodeDataIndex(ends).to[e]
    ensures forall e, f ::
              0 <= e < |ends| && EpisodeDataIndex(ends).from[e] <= i < EpisodeDataIndex(ends).to[e] &&
              0 <= f < |ends| && EpisodeDataIndex(ends).from[f] <= i < EpisodeDataIndex(ends).to[f]
              ==> e == f
  {
    var idx := EpisodeDataIndex(ends);
    // the first episode whose end lies beyond i
    var e := 0;
    while ends[e] <= i
      invariant 0 <= e < |ends|
      invariant forall k :: 0 <= k < e ==> ends[k] <= i
      decreases |ends| - e
    {
      e := e + 1;
    }
    assert idx.from[e] <= i < idx.to[e];
    forall f, g | 0 <= f < g < |ends| && idx.from[g] <= i
      ensures i >= idx.to[f]
    {
      assert idx.from[g] == ends[g - 1];
      assert f == g - 1 || ends[f] < ends[g - 1];
    }
  }
}
