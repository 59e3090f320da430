/**
 * Properties of the writer trace a conversion run produces: an exception
 * ends the run, save_episode follows every completed episode, and with
 * well-formed episode ends the added records are exactly the frames
 * 0 .. last-1, in order, each episode closed by one Save.
 */
module TraceProperties {
  import opened PyErrors
  import opened Features
  import opened Segmentation
  import opened Conversion

  lemma {:induction false} AddedAppend(a: seq<Event>, b: seq<Event>)
    ensures Added(a + b) == Added(a) + Added(b)
  {
    if a == [] {
      assert a + b == b;
    } else {
      var rest := a[1..] + b;
      assert (a + b)[0] == a[0] && (a + b)[1..] == rest;
      AddedAppend(a[1..], b);
    }
  }

  lemma {:induction false} SavesAppend(a: seq<Event>, b: seq<Event>)
    ensures Saves(a + b) == Saves(a) + Saves(b)
  {
    if a == [] {
      assert a + b == b;
    } else {
      var rest := a[1..] + b;
      assert (a + b)[0] == a[0] && (a + b)[1..] == rest;
      SavesAppend(a[1..], b);
    }
  }

  /** Appending an episode's frames and its Save to a trace. */
  lemma {:induction false} EpisodeBlock(prev: seq<Event>, frames: seq<Event>)
    ensures Added(prev + frames + [Save]) == Added(prev) + Added(frames)
    ensures Saves(prev + frames + [Save]) == Saves(prev) + Saves(frames) + 1
  {
    AddedAppend(prev, frames);
    AddedAppend(prev + frames, [Save]);
    SavesAppend(prev, frames);
    SavesAppend(prev + frames, [Save]);
    assert Added([Save]) == [] && Saves([Save]) == 1;
  }

  lemma EpisodeBlockCounts(prev: seq<Event>, frames: seq<Event>, e: nat, asked: nat, count: nat)
    requires 0 < e && Saves(prev) == e - 1 && |Added(prev)| == asked
    requires Saves(frames) == 0 && |Added(frames)| == count
    ensures Saves(prev + frames + [Save]) == e && |Added(prev + frames + [Save])| == asked + count
    ensures (prev + frames + [Save])[|prev + frames + [Save]| - 1] == Save
  {
    EpisodeBlock(prev, frames);
  }

  /** A trace of Add events only lists their records and holds no Save. */
  lemma {:induction false} AddsOnly(t: seq<Event>)
    requires forall j :: 0 <= j < |t| ==> t[j].Add?
    ensures |Added(t)| == |t| && Saves(t) == 0
    ensures forall j :: 0 <= j < |t| ==> Added(t)[j] == t[j].record
  {
    if t != [] {
      AddsOnly(t[1..]);
    }
  }

  /** Once a record raises, the frame loop stops: later iterations add nothing. */
  lemma {:induction false} FramesStuck(raw: RawData, mode: string, start: int, k: nat, n: nat)
    requires k <= n && Frames(raw, mode, start, k).outcome.Fail?
    ensures Frames(raw, mode, start, n) == Frames(raw, mode, start, k)
  {
    if k < n {
      FramesStuck(raw, mode, start, k, n - 1);
    }
  }

  /** Once an episode raises, the episode loop stops: nothing more reaches the writer. */
  lemma {:induction false} EpisodesStuck(raw: RawData, mode: string, idx: EpisodeIndex, e: nat, n: nat)
    requires e <= n <= |idx.from| && Episodes(raw, mode, idx, e).outcome.Fail?
    ensures Episodes(raw, mode, idx, n) == Episodes(raw, mode, idx, e)
  {
    if e < n {
      EpisodesStuck(raw, mode, idx, e, n - 1);
      assert Episodes(raw, mode, idx, n - 1).outcome.Fail?;
    }
  }

  /**
   * A frame loop that has not raised after k iterations has made k add_frame
   * calls, the j-th with the record of global index start + j.
   */
  lemma {:induction false} FramesPass(raw: RawData, mode: string, start: int, k: nat)
    ensures Frames(raw, mode, start, k).outcome.Pass? ==>
              && |Frames(raw, mode, start, k).trace| == k
              && forall i :: start <= i < start + k ==>
                   FrameRecord(raw, mode, i).Success? &&
                   Frames(raw, mode, start, k).trace[i - start] == Add(FrameRecord(raw, mode, i).value)
  {
    if k > 0 {
      FramesPass(raw, mode, start, k - 1);
      var prev := Frames(raw, mode, start, k - 1);
      var rec := FrameRecord(raw, mode, start + k - 1);
      if prev.outcome.Pass? && rec.Success? {
        var t := prev.trace + [Add(rec.value)];
        assert Frames(raw, mode, start, k).trace == t;
        forall i | start <= i < start + k
          ensures FrameRecord(raw, mode, i).Success? && t[i - start] == Add(FrameRecord(raw, mode, i).value)
        {
          if i < start + k - 1 {
            assert t[i - start] == prev.trace[i - start];
          }
        }
      }
    }
  }

  /** The frame loop cannot raise when every index it visits lies inside the arrays. */
  lemma {:induction false} FramesSucceed(raw: RawData, mode: string, start: int, k: nat)
    requires mode != KEYPOINTS_MODE && 0 <= start && Covers(raw, start + k)
    ensures Frames(raw, mode, start, k).outcome == Pass
  {
    if k > 0 {
      FramesSucceed(raw, mode, start, k - 1);
    }
  }

  /** A completed frame loop of k iterations made k add_frame calls and no other call. */
  lemma {:induction false} FramesCounts(raw: RawData, mode: string, start: int, k: nat)
    ensures Frames(raw, mode, start, k).outcome.Pass? ==>
              |Added(Frames(raw, mode, start, k).trace)| == k && Saves(Frames(raw, mode, start, k).trace) == 0
  {
    FramesPass(raw, mode, start, k);
    if Frames(raw, mode, start, k).outcome.Pass? {
      AddsFromOnlyAdds(raw, mode, start, Frames(raw, mode, start, k).trace);
    }
  }

  /** The number of add_frame calls the first e episodes ask for. */
  function FramesAsked(idx: EpisodeIndex, e: nat): nat
    requires e <= |idx.from| && e <= |idx.to|
  {
    if e == 0 then 0 else FramesAsked(idx, e - 1) + FrameCount(idx, e - 1)
  }

  /**
   * Whatever the ends, if the first e episodes completed then save_episode
   * was called exactly e times, the trace ends with a Save, and the adds
   * number max(0, to - from) per episode: an episode with to <= from is
   * still saved, with no frames.
   */
  lemma {:induction false} SaveOncePerEpisode(raw: RawData, mode: string, idx: EpisodeIndex, e: nat)
    requires e <= |idx.from|
    ensures Episodes(raw, mode, idx, e).outcome.Pass? ==>
              && e <= |idx.to|
              && Saves(Episodes(raw, mode, idx, e).trace) == e
              && |Added(Episodes(raw, mode, idx, e).trace)| == FramesAsked(idx, e)
              && (e > 0 ==> Episodes(raw, mode, idx, e).trace[|Episodes(raw, mode, idx, e).trace| - 1] == Save)
  {
    if e > 0 {
      SaveOncePerEpisode(raw, mode, idx, e - 1);
      var prev := Episodes(raw, mode, idx, e - 1);
      if prev.outcome.Pass? && e - 1 < |idx.to| {
        var frames := Frames(raw, mode, idx.from[e - 1], FrameCount(idx, e - 1));
        if frames.outcome.Pass? {
          EpisodeCompletes(raw, mode, idx, e - 1);
          FramesCounts(raw, mode, idx.from[e - 1], FrameCount(idx, e - 1));
          EpisodeBlockCounts(prev.trace, frames.trace, e, FramesAsked(idx, e - 1), FrameCount(idx, e - 1));
        } else {
          assert Episodes(raw, mode, idx, e).outcome.Fail?;
        }
      } else {
        assert Episodes(raw, mode, idx, e).outcome.Fail?;
      }
    }
  }

  /** With no episode ends, `to[0]` raises IndexError before any writer call. */
  lemma EmptyEndsFail(raw: RawData, mode: string)
    requires raw.episodeEnds == []
    ensures Convert(raw, mode) == Run([], Fail(IndexError(0)))
  {
    var idx := EpisodeDataIndex(raw.episodeEnds);
    assert Episodes(raw, mode, idx, 1) == Run([], Fail(IndexError(0)));
  }

  /** In keypoints mode a frame loop never reaches add_frame. */
  lemma {:induction false} KeypointsFramesEmpty(raw: RawData, start: int, k: nat)
    ensures Frames(raw, KEYPOINTS_MODE, start, k).trace == []
  {
    if k > 0 {
      KeypointsFramesEmpty(raw, start, k - 1);
    }
  }

  /** In keypoints mode no frame ever reaches the writer, whatever the data. */
  lemma {:induction false} KeypointsNeverAdd(raw: RawData, idx: EpisodeIndex, e: nat)
    requires e <= |idx.from|
    ensures Added(Episodes(raw, KEYPOINTS_MODE, idx, e).trace) == []
  {
    if e > 0 {
      KeypointsNeverAdd(raw, idx, e - 1);
      var prev := Episodes(raw, KEYPOINTS_MODE, idx, e - 1);
      if prev.outcome.Pass? && e - 1 < |idx.to| {
        KeypointsFramesEmpty(raw, idx.from[e - 1], FrameCount(idx, e - 1));
        assert prev.trace + [] == prev.trace;
        AddedAppend(prev.trace, [Save]);
      }
    }
  }

  /**
   * When the first episode has a frame that indexes the arrays, keypoints
   * mode raises NameError on it, before any writer call.
   */
  lemma KeypointsFail(raw: RawData)
    requires raw.episodeEnds != [] && raw.episodeEnds[0] > 0 && |raw.action| >= 1 && |raw.agentPos| >= 1
    ensures Convert(raw, KEYPOINTS_MODE) == Run([], Fail(NameError(KEYPOINTS_NAME)))
  {
    var idx := EpisodeDataIndex(raw.episodeEnds);
    var n := FrameCount(idx, 0);
    assert Frames(raw, KEYPOINTS_MODE, 0, 1) == Run([], Fail(NameError(KEYPOINTS_NAME)));
    FramesStuck(raw, KEYPOINTS_MODE, 0, 1, n);
    assert Episodes(raw, KEYPOINTS_MODE, idx, 1) == Run([], Fail(NameError(KEYPOINTS_NAME)));
    EpisodesStuck(raw, KEYPOINTS_MODE, idx, 1, |idx.from|);
  }

  /**
   * Nothing checks that the ends increase: with ends [2, 1] the second
   * episode has to - from = -1, adds no frame, and is saved all the same.
   */
  lemma NonIncreasingEndsStillSave(raw: RawData, mode: string)
    requires mode != KEYPOINTS_MODE && raw.episodeEnds == [2, 1] && Covers(raw, 2)
    ensures Convert(raw, mode) ==
              Run([Add(FrameRecord(raw, mode, 0).value), Add(FrameRecord(raw, mode, 1).value), Save, Save], Pass)
  {
    var idx := EpisodeDataIndex(raw.episodeEnds);
    assert idx.from == [0, 2];
    var first := Frames(raw, mode, 0, 2);
    assert Frames(raw, mode, 0, 1).trace == [Add(FrameRecord(raw, mode, 0).value)];
    assert first == Run([Add(FrameRecord(raw, mode, 0).value), Add(FrameRecord(raw, mode, 1).value)], Pass);
    assert Episodes(raw, mode, idx, 1) == Run(first.trace + [Save], Pass);
    assert FrameCount(idx, 1) == 0;
    assert Episodes(raw, mode, idx, 2) == Run(first.trace + [Save] + [Save], Pass);
  }

  /** The number of frames the first e episodes cover, for well-formed ends. */
  function Done(ends: seq<int>, e: nat): int
    requires e <= |ends|
  {
    if e == 0 then 0 else ends[e - 1]
  }

  /** `added` holds the records of global indices 0 .. n-1, in that order. */
  ghost predicate RecordsInOrder(raw: RawData, mode: string, n: int, added: seq<Record>)
  {
    |added| == n && forall i :: 0 <= i < n ==> FrameRecord(raw, mode, i) == Success(added[i])
  }

  /**
   * For each of the first e episodes, `t` has a Save at position
   * ends[f] + f, preceded by exactly the first ends[f] added records.
   */
  ghost predicate SavesPlaced(ends: seq<int>, e: nat, t: seq<Event>)
    requires e <= |ends|
  {
    forall f :: 0 <= f < e ==>
      && 0 <= ends[f] <= |Added(t)|
      && ends[f] + f < |t|
      && t[ends[f] + f] == Save
      && Added(t[..ends[f] + f]) == Added(t)[..ends[f]]
  }

  /** What the first e episodes of a well-formed conversion leave in the trace. */
  ghost predicate WellShaped(raw: RawData, mode: string, e: nat, t: seq<Event>)
    requires e <= |raw.episodeEnds|
  {
    && |t| == Done(raw.episodeEnds, e) + e
    && RecordsInOrder(raw, mode, Done(raw.episodeEnds, e), Added(t))
    && SavesPlaced(raw.episodeEnds, e, t)
  }

  /** The frame loop's Adds for indices start .. start + |frames| - 1. */
  ghost predicate AddsFrom(raw: RawData, mode: string, start: int, frames: seq<Event>)
  {
    forall i :: start <= i < start + |frames| ==>
      FrameRecord(raw, mode, i).Success? && frames[i - start] == Add(FrameRecord(raw, mode, i).value)
  }

  lemma {:induction false} AddsFromOnlyAdds(raw: RawData, mode: string, start: int, frames: seq<Event>)
    requires AddsFrom(raw, mode, start, frames)
    ensures |Added(frames)| == |frames| && Saves(frames) == 0
    ensures forall i :: start <= i < start + |frames| ==> FrameRecord(raw, mode, i) == Success(Added(frames)[i - start])
  {
    forall j | 0 <= j < |frames|
      ensures frames[j].Add?
    {
      var i := start + j;
      assert FrameRecord(raw, mode, i).Success? && frames[i - start] == Add(FrameRecord(raw, mode, i).value);
    }
    AddsOnly(frames);
    forall i | start <= i < start + |frames|
      ensures FrameRecord(raw, mode, i) == Success(Added(frames)[i - start])
    {
      assert Added(frames)[i - start] == frames[i - start].record;
    }
  }

  lemma {:induction false} RecordsStep(raw: RawData, mode: string, start: int, before: seq<Record>, frames: seq<Event>)
    requires RecordsInOrder(raw, mode, start, before) && AddsFrom(raw, mode, start, frames)
    ensures RecordsInOrder(raw, mode, start + |frames|, before + Added(frames))
  {
    AddsFromOnlyAdds(raw, mode, start, frames);
    var after := before + Added(frames);
    forall i | 0 <= i < start + |frames|
      ensures FrameRecord(raw, mode, i) == Success(after[i])
    {
      if i < start {
        assert after[i] == before[i];
      } else {
        assert after[i] == Added(frames)[i - start];
      }
    }
  }

  lemma {:induction false} SavesStep(ends: seq<int>, e: nat, prev: seq<Event>, frames: seq<Event>)
    requires ValidEnds(ends) && 0 < e <= |ends|
    requires SavesPlaced(ends, e - 1, prev)
    requires |prev| == Done(ends, e - 1) + e - 1 && |Added(prev)| == Done(ends, e - 1)
    requires |frames| == ends[e - 1] - Done(ends, e - 1) && |Added(frames)| == |frames|
    ensures SavesPlaced(ends, e, prev + frames + [Save])
  {
    var body := prev + frames;
    var t := body + [Save];
    AddedAppend(prev, frames);
    AddedAppend(body, [Save]);
    assert Added(t) == Added(body);
    forall f | 0 <= f < e
      ensures 0 <= ends[f] <= |Added(t)| && ends[f] + f < |t| && t[ends[f] + f] == Save
      ensures Added(t[..ends[f] + f]) == Added(t)[..ends[f]]
    {
      if f < e - 1 {
        assert ends[f] <= ends[e - 2];
        assert t[..ends[f] + f] == prev[..ends[f] + f];
        assert t[ends[f] + f] == prev[ends[f] + f];
      } else {
        assert t[..ends[f] + f] == body;
      }
    }
  }

  /** One more well-formed episode keeps the trace well shaped. */
  lemma {:induction false} EpisodeStep(raw: RawData, mode: string, e: nat, prev: seq<Event>, frames: seq<Event>)
    requires ValidEnds(raw.episodeEnds) && 0 < e <= |raw.episodeEnds|
    requires WellShaped(raw, mode, e - 1, prev)
    requires |frames| == raw.episodeEnds[e - 1] - Done(raw.episodeEnds, e - 1)
    requires AddsFrom(raw, mode, Done(raw.episodeEnds, e - 1), frames)
    ensures WellShaped(raw, mode, e, prev + frames + [Save])
  {
    var start := Done(raw.episodeEnds, e - 1);
    AddsFromOnlyAdds(raw, mode, start, frames);
    RecordsStep(raw, mode, start, Added(prev), frames);
    AddedAppend(prev, frames);
    AddedAppend(prev + frames, [Save]);
    SavesStep(raw.episodeEnds, e, prev, frames);
  }

  /** WellShaped for all episodes, spelled out. */
  lemma {:induction false} ShapedFacts(raw: RawData, mode: string, t: seq<Event>)
    requires raw.episodeEnds != [] && WellShaped(raw, mode, |raw.episodeEnds|, t)
    ensures var ends := raw.episodeEnds;
            var last := ends[|ends| - 1];
            && |t| == last + |ends|
            && |Added(t)| == last
            && (forall i :: 0 <= i < last ==> FrameRecord(raw, mode, i) == Success(Added(t)[i]))
            && (forall e :: 0 <= e < |ends| ==>
                  t[ends[e] + e] == Save && Added(t[..ends[e] + e]) == Added(t)[..ends[e]])
  {
    assert SavesPlaced(raw.episodeEnds, |raw.episodeEnds|, t);
  }

  /** An episode whose frame loop completes is followed by its Save. */
  lemma {:induction false} EpisodeCompletes(raw: RawData, mode: string, idx: EpisodeIndex, e: nat)
    requires e < |idx.from| && e < |idx.to|
    requires Episodes(raw, mode, idx, e).outcome == Pass
    requires Frames(raw, mode, idx.from[e], FrameCount(idx, e)).outcome == Pass
    ensures Episodes(raw, mode, idx, e + 1) ==
              Run(Episodes(raw, mode, idx, e).trace + Frames(raw, mode, idx.from[e], FrameCount(idx, e)).trace + [Save], Pass)
  {
  }

  /** One more successful iteration of the frame loop appends that frame's Add. */
  lemma FrameAdded(raw: RawData, mode: string, start: int, j: nat)
    requires Frames(raw, mode, start, j).outcome == Pass
    requires FrameRecord(raw, mode, start + j).Success?
    ensures Frames(raw, mode, start, j + 1) ==
              Run(Frames(raw, mode, start, j).trace + [Add(FrameRecord(raw, mode, start + j).value)], Pass)
  {
  }

  /** A record that raises ends the frame loop with that exception. */
  lemma FrameRaises(raw: RawData, mode: string, start: int, j: nat, n: nat)
    requires j < n
    requires Frames(raw, mode, start, j).outcome == Pass
    requires FrameRecord(raw, mode, start + j).Failure?
    ensures Frames(raw, mode, start, n) ==
              Run(Frames(raw, mode, start, j).trace, Fail(FrameRecord(raw, mode, start + j).error))
  {
    FramesStuck(raw, mode, start, j + 1, n);
  }

  /** An episode whose frame loop raises adds its frames and no Save. */
  lemma EpisodeFails(raw: RawData, mode: string, idx: EpisodeIndex, e: nat)
    requires e < |idx.from| && e < |idx.to|
    requires Episodes(raw, mode, idx, e).outcome == Pass
    requires Frames(raw, mode, idx.from[e], FrameCount(idx, e)).outcome.Fail?
    ensures Episodes(raw, mode, idx, e + 1) ==
              Run(Episodes(raw, mode, idx, e).trace + Frames(raw, mode, idx.from[e], FrameCount(idx, e)).trace,
                  Frames(raw, mode, idx.from[e], FrameCount(idx, e)).outcome)
  {
  }

  /**
   * An episode whose frame loop raises ends the whole conversion with that
   * exception, after the adds made so far.
   */
  lemma EpisodeRaises(raw: RawData, mode: string, idx: EpisodeIndex, e: nat)
    requires e < |idx.from| && e < |idx.to|
    requires Episodes(raw, mode, idx, e).outcome == Pass
    requires Frames(raw, mode, idx.from[e], FrameCount(idx, e)).outcome.Fail?
    ensures Episodes(raw, mode, idx, |idx.from|) ==
              Run(Episodes(raw, mode, idx, e).trace + Frames(raw, mode, idx.from[e], FrameCount(idx, e)).trace,
                  Frames(raw, mode, idx.from[e], FrameCount(idx, e)).outcome)
  {
    EpisodeFails(raw, mode, idx, e);
    EpisodesStuck(raw, mode, idx, e + 1, |idx.from|);
  }

  /** An episode with no `to` entry ends the conversion with IndexError. */
  lemma EndMissing(raw: RawData, mode: string, idx: EpisodeIndex, e: nat)
    requires |idx.to| <= e < |idx.from|
    requires Episodes(raw, mode, idx, e).outcome == Pass
    ensures Episodes(raw, mode, idx, |idx.from|) == Run(Episodes(raw, mode, idx, e).trace, Fail(IndexError(e)))
  {
    assert Episodes(raw, mode, idx, e + 1) == Run(Episodes(raw, mode, idx, e).trace, Fail(IndexError(e)));
    EpisodesStuck(raw, mode, idx, e + 1, |idx.from|);
  }

  /** The first e episodes of a well-formed conversion complete and are well shaped. */
  lemma {:induction false} EpisodesValid(raw: RawData, mode: string, e: nat)
    requires mode != KEYPOINTS_MODE && ValidEnds(raw.episodeEnds)
    requires Covers(raw, raw.episodeEnds[|raw.episodeEnds| - 1])
    requires e <= |raw.episodeEnds|
    ensures Episodes(raw, mode, EpisodeDataIndex(raw.episodeEnds), e).outcome == Pass
    ensures WellShaped(raw, mode, e, Episodes(raw, mode, EpisodeDataIndex(raw.episodeEnds), e).trace)
  {
    if e > 0 {
      var ends := raw.episodeEnds;
      var idx := EpisodeDataIndex(ends);
      EpisodesValid(raw, mode, e - 1);
      EpisodesNonEmpty(ends, e - 1);
      var start := idx.from[e - 1];
      var n := FrameCount(idx, e - 1);
      assert start == Done(ends, e - 1) && n == ends[e - 1] - start;
      FramesSucceed(raw, mode, start, n);
      FramesPass(raw, mode, start, n);
      var prev := Episodes(raw, mode, idx, e - 1).trace;
      var frames := Frames(raw, mode, start, n).trace;
      assert AddsFrom(raw, mode, start, frames);
      EpisodeCompletes(raw, mode, idx, e - 1);
      EpisodeStep(raw, mode, e, prev, frames);
    }
  }

  /**
   * The conversion of a well-formed store: it completes; save_episode is
   * called once per episode; the add_frame calls carry the records of the
   * global indices 0 .. last-1 in increasing order, each exactly once; and
   * episode e's Save comes right after its last frame (index ends[e] - 1),
   * so before the next episode's first frame.
   */
  lemma ValidConversion(raw: RawData, mode: string)
    requires mode != KEYPOINTS_MODE && ValidEnds(raw.episodeEnds)
    requires Covers(raw, raw.episodeEnds[|raw.episodeEnds| - 1])
    ensures var run := Convert(raw, mode);
            var ends := raw.episodeEnds;
            var last := ends[|ends| - 1];
            && run.outcome == Pass
            && |run.trace| == last + |ends|
            && Saves(run.trace) == |ends|
            && |Added(run.trace)| == last
            && (forall i :: 0 <= i < last ==> FrameRecord(raw, mode, i) == Success(Added(run.trace)[i]))
            && (forall e :: 0 <= e < |ends| ==>
                  run.trace[ends[e] + e] == Save && Added(run.trace[..ends[e] + e]) == Added(run.trace)[..ends[e]])
  {
    var ends := raw.episodeEnds;
    var idx := EpisodeDataIndex(ends);
    var run := Episodes(raw, mode, idx, |ends|);
    assert Convert(raw, mode) == run;
    EpisodesValid(raw, mode, |ends|);
    SaveOncePerEpisode(raw, mode, idx, |ends|);
    ShapedFacts(raw, mode, run.trace);
  }

  /**
   * In a well-formed conversion the i-th added record carries action[i],
   * agent_pos[i] as observation.state, image[i] and the fixed task text.
   */
  lemma RecordsCopyByIndex(raw: RawData, mode: string, i: int)
    requires mode != KEYPOINTS_MODE && ValidEnds(raw.episodeEnds)
    requires Covers(raw, raw.episodeEnds[|raw.episodeEnds| - 1])
    requires 0 <= i < raw.episodeEnds[|raw.episodeEnds| - 1]
    ensures i < |Added(Convert(raw, mode).trace)|
    ensures Added(Convert(raw, mode).trace)[i] ==
              map[ACTION := Floats(raw.action[i]), TASK := Text(PUSHT_TASK),
                  STATE := Floats(raw.agentPos[i]), IMAGE := Pixels(raw.image[i])]
  {
    ValidConversion(raw, mode);
  }

  /**
   * Every record field other than the task text is a feature of the schema
   * build_features produces for that mode on a fresh template.
   */
  lemma RecordMatchesSchema(raw: RawData, mode: string, i: int)
    requires mode in [IMAGE_MODE, VIDEO_MODE] && FrameRecord(raw, mode, i).Success?
    ensures FrameRecord(raw, mode, i).value.Keys - {TASK} == ApplyMode(PushtFeatures(), mode).value.Keys
  {
  }
}
