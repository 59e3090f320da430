/**
 * What one run of the conversion loop does, as values: the frame record
 * built for a global frame index, the events the dataset writer receives
 * (one Add per add_frame call, one Save per save_episode call), and the
 * exception, if any, that stops the run. Frames and Episodes describe the
 * first k iterations of the inner and outer loops; the Driver's loops are
 * proved to produce exactly these traces.
 */
module Conversion {
  import opened PyErrors
  import opened Features
  import opened Segmentation

  const PUSHT_TASK: string := "Push the T-shaped blue block onto the T-shaped green target surface with a scara."
  const TASK: string := "task"
  /** The name the keypoints branch looks up; the script never binds it. */
  const KEYPOINTS_NAME: string := "keypoints"

  /** A field of a frame record: a float vector, an image's pixels, or text. */
  datatype Value = Floats(floats: seq<real>) | Pixels(pixels: seq<int>) | Text(text: string)

  /** The per-frame dict handed to add_frame. */
  type Record = map<string, Value>

  /**
   * The arrays read from the raw store, indexed by the global frame index:
   * robot_eef_pos, action, camera_1 (flattened height x width x channel)
   * and meta/episode_ends.
   */
  datatype RawData = RawData(
    agentPos: seq<seq<real>>,
    action: seq<seq<real>>,
    image: seq<seq<int>>,
    episodeEnds: seq<int>)

  /** The arrays hold at least n frames. */
  predicate Covers(raw: RawData, n: int)
  {
    n <= |raw.agentPos| && n <= |raw.action| && n <= |raw.image|
  }

  /**
   * The record for global frame index i, evaluated in the script's order:
   * action[i], then agent_pos[i], then either the unbound `keypoints` name
   * or image[i].
   */
  function FrameRecord(raw: RawData, mode: string, i: int): (r: Result<Record>)
    ensures PyIndex(raw.action, i).Failure? ==> r == Failure(IndexError(i))
    ensures PyIndex(raw.action, i).Success? && PyIndex(raw.agentPos, i).Failure? ==> r == Failure(IndexError(i))
    ensures PyIndex(raw.action, i).Success? && PyIndex(raw.agentPos, i).Success? && mode == KEYPOINTS_MODE ==>
              r == Failure(NameError(KEYPOINTS_NAME))
    ensures (mode != KEYPOINTS_MODE && PyIndex(raw.action, i).Success? && PyIndex(raw.agentPos, i).Success? &&
             PyIndex(raw.image, i).Failure?) ==> r == Failure(IndexError(i))
    ensures r.Success? <==>
              mode != KEYPOINTS_MODE && PyIndex(raw.action, i).Success? &&
              PyIndex(raw.agentPos, i).Success? && PyIndex(raw.image, i).Success?
    ensures r.Success? ==>
              && r.value.Keys == {ACTION, TASK, STATE, IMAGE}
              && r.value[ACTION] == Floats(PyIndex(raw.action, i).value)
              && r.value[TASK] == Text(PUSHT_TASK)
              && r.value[STATE] == Floats(PyIndex(raw.agentPos, i).value)
              && r.value[IMAGE] == Pixels(PyIndex(raw.image, i).value)
  {
    var action :- PyIndex(raw.action, i);
    var frame := map[ACTION := Floats(action), TASK := Text(PUSHT_TASK)];
    var state :- PyIndex(raw.agentPos, i);
    var frame := frame[STATE := Floats(state)];
    if mode == KEYPOINTS_MODE then
      Failure(NameError(KEYPOINTS_NAME))
    else
      var image :- PyIndex(raw.image, i);
      Success(frame[IMAGE := Pixels(image)])
  }

  /** One call the driver makes on the dataset writer. */
  datatype Event = Add(record: Record) | Save

  /** The calls made so far, and how the run has ended so far. */
  datatype Run = Run(trace: seq<Event>, outcome: Outcome)

  /**
   * The first k iterations of the frame loop of an episode that starts at
   * global index `start`; a failing record stops the loop.
   */
  function Frames(raw: RawData, mode: string, start: int, k: nat): Run
  {
    if k == 0 then Run([], Pass)
    else
      var prev := Frames(raw, mode, start, k - 1);
      if prev.outcome.Fail? then prev
      else match FrameRecord(raw, mode, start + k - 1)
        case Failure(err) => Run(prev.trace, Fail(err))
        case Success(record) => Run(prev.trace + [Add(record)], Pass)
  }

  /** range(num_frames): a negative count runs no iteration. */
  function FrameCount(idx: EpisodeIndex, e: nat): nat
    requires e < |idx.from| && e < |idx.to|
  {
    if NumFrames(idx, e) > 0 then NumFrames(idx, e) else 0
  }

  /**
   * The first e iterations of the episode loop: `to[e]` raises IndexError
   * when `to` is shorter than `from`; otherwise the episode's frames are
   * added and, if none failed, save_episode is called.
   */
  function Episodes(raw: RawData, mode: string, idx: EpisodeIndex, e: nat): Run
    requires e <= |idx.from|
  {
    if e == 0 then Run([], Pass)
    else
      var prev := Episodes(raw, mode, idx, e - 1);
      if prev.outcome.Fail? then prev
      else if e - 1 >= |idx.to| then Run(prev.trace, Fail(IndexError(e - 1)))
      else
        var frames := Frames(raw, mode, idx.from[e - 1], FrameCount(idx, e - 1));
        if frames.outcome.Fail? then Run(prev.trace + frames.trace, frames.outcome)
        else Run(prev.trace + frames.trace + [Save], Pass)
  }

  /** The whole conversion loop over the episodes of `raw`. */
  function Convert(raw: RawData, mode: string): Run
  {
    var idx := EpisodeDataIndex(raw.episodeEnds);
    Episodes(raw, mode, idx, |idx.from|)
  }

  /** The records of a trace's Add events, in order. */
  function Added(trace: seq<Event>): seq<Record>
  {
    if trace == [] then []
    else (if trace[0].Add? then [trace[0].record] else []) + Added(trace[1..])
  }

  /** The number of Save events in a trace. */
  function Saves(trace: seq<Event>): nat
  {
    if trace == [] then 0
    else (if trace[0].Save? then 1 else 0) + Saves(trace[1..])
  }
}
