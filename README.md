# zarr to LeRobot converter, modelled in Dafny

`examples/convert_zarr_to_lerobot.py` converts a raw zarr replay buffer of
the planar-arm "push T" task into a LeRobot dataset. It does four things,
and this project models each of them:

- **Feature schema.** `build_features` edits the process-wide
  `PUSHT_FEATURES` dict in place and returns that same dict. For `"keypoints"`
  it pops the `observation.image` entry; for any other mode it writes the mode
  into that entry's `dtype`.
- **Segmentation.** The offsets in `meta/episode_ends` become parallel `from`
  and `to` arrays: `from` is `[0]` followed by every end but the last, and `to`
  is the ends themselves.
- **Driver.** `main` rejects an unknown mode, opens the store and segments
  it. It then builds the schema and creates the dataset. For every episode it
  walks the global frame indices `from[e] .. to[e]-1`: it builds one record
  per index from `action[i]`, `agent_pos[i]` and `image[i]`, and passes it to
  `add_frame`. It calls `save_episode` once per episode.
- **Script loop.** The `__main__` loop runs `main` once per mode. For
  `"image"` and `"keypoints"` it first appends `_<mode>` to the repo id, and
  the suffixes accumulate from one mode to the next.

Layout:

- `errors.dfy` (`PyErrors`) covers the exceptions the script can raise:
  ValueError, KeyError, IndexError and NameError. It also defines `PyIndex`,
  numpy's indexing of a sequence, where a negative index counts from the end.
- `features.dfy` (`Features`) holds the schema.
  - `ApplyMode` is the pure description of one `build_features` edit.
  - `FeatureTemplate` is the mutable `PUSHT_FEATURES` object.
  - `BuildFeatures` is the method that edits that object and returns it.
- `segmentation.dfy` (`Segmentation`) holds the `episode_data_index`
  computation and its lemmas.
- `conversion.dfy` (`Conversion`) describes a run as values.
  - `FrameRecord` builds the record for one global index.
  - A writer call is an `Event`: `Add(record)` or `Save`.
  - `Frames` and `Episodes` give what the first k iterations of the inner and
    outer loop produce: a trace of events plus the outcome, which is either
    `Pass` or the exception that stopped the run.
  - `Convert` is the whole loop.
- `trace.dfy` (`TraceProperties`) proves what those traces contain.
- `driver.dfy` (`Driver`) holds the imperative part.
  - `Store` is the raw store. It counts how often it is loaded.
  - `Dataset` is the writer. Its only state is the event trace.
  - `ConvertZarr` is the script's `main`. Its episode loop is `AddEpisodes`
    and its frame loop is `AddEpisodeFrames`. Together they are proved to
    produce exactly `Convert`'s trace and outcome.
  - `RunScript` is the `__main__` mode loop.

The script trusts its inputs and shares one schema dict; the model follows
the code as written:

- **Shared schema.** `build_features` edits the shared dict and returns it,
  and the dataset keeps a reference to that same dict. So after a
  `"keypoints"` call every later call raises KeyError
  (`CallAfterKeypointsFails`). Two image-producing calls leave the second mode
  in the object the first call returned (`LastModeWins`).
- **Episode ends.** Nothing checks `episode_ends`.
  - An empty `episode_ends` gives `from == [0]` and `to == []`, so `to[0]`
    raises IndexError after the dataset has been created (`EmptyEndsFail`).
  - Ends that do not increase give an episode with `to - from <= 0`. That
    episode adds no frame and is still saved (`NonIncreasingEndsStillSave`).
- **Keypoints mode.** The keypoints branch reads a name, `keypoints`, that the
  script never binds. So keypoints mode raises NameError on the first frame,
  once `action[i]` and `agent_pos[i]` have been read (`KeypointsFail`,
  `KeypointsNeverAdd`).

## Model

| member | source | states |
|---|---|---|
| PyErrors.PyIndex | examples/convert_zarr_to_lerobot.py:127-143 | numpy indexing: succeeds exactly for -len <= i < len. A non-negative index reads s[i]; a negative one reads s[len+i]. Any other index raises IndexError(i). |
| Features.PushtFeatures | examples/convert_zarr_to_lerobot.py:13-64 | The initial schema has exactly state, action and image. State and action are float32 with shape (3,). The image has dtype None and shape (240, 320, 3). |
| Features.FeatureTemplate.constructor | examples/convert_zarr_to_lerobot.py:13-64 | The module-level template starts out holding the initial schema. |
| Features.ApplyMode | examples/convert_zarr_to_lerobot.py:67-75 | Raises KeyError on the image key exactly when the image feature is missing. "keypoints" removes only the image key. Any other mode keeps every key and sets the image dtype to the mode, keeping its shape and names. All other features are untouched. |
| Features.BuildFeatures | examples/convert_zarr_to_lerobot.py:67-75 | Edits the template in place and returns that same object. On the error path it returns KeyError and leaves the template unchanged. |
| Features.FirstCall | examples/convert_zarr_to_lerobot.py:67-75 | On a fresh template every mode succeeds. "keypoints" leaves exactly {state, action}; the other modes keep all three features, with the image dtype set to the mode. |
| Features.CallAfterKeypointsFails | examples/convert_zarr_to_lerobot.py:67-75 | Once a "keypoints" call has succeeded, any later call on the same template raises KeyError. |
| Features.LastModeWins | examples/convert_zarr_to_lerobot.py:67-75 | Two non-keypoints calls in a row leave the same schema as the second call alone would. |
| Segmentation.EpisodeDataIndex | examples/convert_zarr_to_lerobot.py:106-109 | `to` is the ends unchanged and `from[0] == 0`. `from[e] == to[e-1]` for e > 0. `from` has one entry per end, or a single entry when the ends are empty. |
| Segmentation.IndexAligned | examples/convert_zarr_to_lerobot.py:106-109 | For non-empty ends, `from` and `to` have the same length as the ends. |
| Segmentation.EpisodesNonEmpty | examples/convert_zarr_to_lerobot.py:106-124 | With positive, strictly increasing ends, every episode has 0 <= from < to <= last end, so num_frames > 0. |
| Segmentation.FramesTelescope | examples/convert_zarr_to_lerobot.py:106-124 | For any ends, the num_frames of the first n episodes sum to ends[n-1]. |
| Segmentation.TotalIsLastEnd | examples/convert_zarr_to_lerobot.py:106-124 | The num_frames of all episodes sum to the last end. |
| Segmentation.UniqueEpisode | examples/convert_zarr_to_lerobot.py:106-127 | With valid ends, each global index below the last end lies in exactly one episode's [from, to) range. |
| Conversion.FrameRecord | examples/convert_zarr_to_lerobot.py:127-143 | Evaluation order is action[i], then agent_pos[i], then keypoints or image[i]. IndexError comes from the first index out of range, NameError from keypoints mode. The record succeeds exactly when the mode is not keypoints and all three indexes are valid; it then holds exactly action, task, state and image, copied by index, with the fixed task text. |
| Segmentation.NumFrames | examples/convert_zarr_to_lerobot.py:122-124 | Defines num_frames of episode e as to[e] - from[e], which may be zero or negative. |
| Conversion.FrameCount | examples/convert_zarr_to_lerobot.py:124-126 | Defines how many iterations `range(num_frames)` runs: num_frames when positive, otherwise none. |
| Conversion.Frames | examples/convert_zarr_to_lerobot.py:126-145 | Defines the first k iterations of the frame loop starting at global index `start`. Each iteration builds the record of index start+j and appends its Add. The first record that raises stops the loop with that exception. |
| Conversion.Episodes | examples/convert_zarr_to_lerobot.py:120-147 | Defines the first e iterations of the episode loop. A missing `to[e]` raises IndexError(e). A frame loop that raises ends the run without that episode's Save. Otherwise the episode's frames are followed by one Save. An earlier exception stops everything after it. |
| Conversion.Convert | examples/convert_zarr_to_lerobot.py:106-147 | Defines a whole run: the episode loop over every entry of `from` computed from the store's episode ends. |
| Driver.Suffixed | examples/convert_zarr_to_lerobot.py:171-172 | Defines one step of the repo id: `_<mode>` appended for "image" and "keypoints", unchanged otherwise. |
| TraceProperties.FramesStuck | examples/convert_zarr_to_lerobot.py:126-145 | Once a frame raises, later frame-loop iterations change nothing. |
| TraceProperties.EpisodesStuck | examples/convert_zarr_to_lerobot.py:120-147 | Once an episode raises, later episode-loop iterations change nothing. |
| TraceProperties.FramesPass | examples/convert_zarr_to_lerobot.py:126-145 | A frame loop of k iterations that has not raised made exactly k add_frame calls, the j-th with the record of global index start+j. |
| TraceProperties.FramesSucceed | examples/convert_zarr_to_lerobot.py:126-145 | In image/video mode, a frame loop over indices inside the arrays does not raise. |
| TraceProperties.FramesCounts | examples/convert_zarr_to_lerobot.py:126-145 | A frame loop that has not raised made k Adds and no Save. |
| TraceProperties.SaveOncePerEpisode | examples/convert_zarr_to_lerobot.py:120-147 | For any ends: if e episodes completed, then `to` had all e entries, save_episode was called e times, and the trace ends with a Save. The adds number the sum of max(0, to-from) over those episodes. |
| TraceProperties.EmptyEndsFail | examples/convert_zarr_to_lerobot.py:106-123 | Empty ends: the run raises IndexError(0) before any writer call. |
| TraceProperties.KeypointsFramesEmpty | examples/convert_zarr_to_lerobot.py:126-145 | In keypoints mode a frame loop makes no add_frame call. |
| TraceProperties.KeypointsNeverAdd | examples/convert_zarr_to_lerobot.py:120-147 | In keypoints mode no record ever reaches the writer, whatever the data. |
| TraceProperties.KeypointsFail | examples/convert_zarr_to_lerobot.py:120-145 | In keypoints mode, when the first episode has a frame and `action` and `agent_pos` hold index 0, the whole run is NameError with an empty trace; the image array is never read. |
| TraceProperties.NonIncreasingEndsStillSave | examples/convert_zarr_to_lerobot.py:120-147 | With ends [2, 1], the run is Add frame 0, Add frame 1, Save, Save. The second episode is saved with no frames. |
| TraceProperties.EpisodeCompletes | examples/convert_zarr_to_lerobot.py:120-147 | An episode whose frame loop completes appends its frames and then exactly one Save. |
| TraceProperties.FrameAdded | examples/convert_zarr_to_lerobot.py:126-145 | A frame that does not raise appends exactly its Add. |
| TraceProperties.FrameRaises | examples/convert_zarr_to_lerobot.py:126-145 | A frame that raises ends the frame loop with that exception. |
| TraceProperties.EpisodeFails | examples/convert_zarr_to_lerobot.py:121-147 | An episode whose frame loop raises appends that loop's Adds, no Save, and ends with the loop's exception. |
| TraceProperties.EpisodeRaises | examples/convert_zarr_to_lerobot.py:120-147 | A frame loop that raises ends the whole run with that exception, without a Save for that episode. |
| TraceProperties.EndMissing | examples/convert_zarr_to_lerobot.py:120-123 | An episode with no `to` entry ends the run with IndexError at that episode index. |
| TraceProperties.EpisodesValid | examples/convert_zarr_to_lerobot.py:120-147 | With valid ends and arrays that cover them, every prefix of the episode loop completes, with records and Saves placed in order. |
| TraceProperties.ValidConversion | examples/convert_zarr_to_lerobot.py:120-147 | With valid ends and arrays that cover them, the run completes with last+N events and N Saves. The added records are those of indices 0..last-1, each once and in order. Episode e's Save sits right after its last frame and before the next episode's first. |
| TraceProperties.RecordsCopyByIndex | examples/convert_zarr_to_lerobot.py:127-145 | In a valid conversion the i-th added record is {action: action[i], task: the task text, state: agent_pos[i], image: image[i]}. |
| TraceProperties.RecordMatchesSchema | examples/convert_zarr_to_lerobot.py:111-143 | In image/video mode, a record's non-task keys are exactly the schema's features. |
| Driver.Store.Load | examples/convert_zarr_to_lerobot.py:79-90 | Loading returns the store's arrays and counts one load. |
| Driver.Dataset.Create | examples/convert_zarr_to_lerobot.py:112-119 | A new dataset has the given repo id, holds a reference to the given schema object (not a copy), and has received no call. |
| Driver.Dataset.AddFrame | examples/convert_zarr_to_lerobot.py:145 | add_frame appends one Add of the record. |
| Driver.Dataset.SaveEpisode | examples/convert_zarr_to_lerobot.py:147 | save_episode appends one Save. |
| Driver.AddEpisodes | examples/convert_zarr_to_lerobot.py:120-147 | The episode loop of main, run on a dataset that has received no call, makes exactly `Episodes`' calls over every entry of `from` and ends with its outcome. |
| Driver.AddEpisodeFrames | examples/convert_zarr_to_lerobot.py:122-145 | The frame loop of one episode appends exactly `Frames`' trace for max(0, to-from) iterations and ends with its outcome. |
| Driver.ConvertZarr | examples/convert_zarr_to_lerobot.py:93-147 | An unknown mode raises ValueError before the store is loaded or the template changed. Otherwise the store is loaded once. A template without the image feature raises KeyError with no dataset. Otherwise the template is updated, and a fresh dataset with the given repo id, whose features are the template object itself, receives exactly Convert's trace and ends with Convert's outcome. |
| Driver.RepoIds | examples/convert_zarr_to_lerobot.py:170-172 | One repo id per mode. |
| Driver.RepoIdsStable | examples/convert_zarr_to_lerobot.py:170-172 | Later modes do not change the ids the earlier modes received. |
| Driver.RepoIdsExtend | examples/convert_zarr_to_lerobot.py:170-172 | Running one more mode appends one id: the previous id (the base id for the first mode) after that mode's suffix step. |
| Driver.RepoIdsStep | examples/convert_zarr_to_lerobot.py:170-172 | Each mode's id is the previous mode's id (the base id for the first mode) with that mode's suffix. |
| Driver.SuffixedExtends | examples/convert_zarr_to_lerobot.py:171-172 | One suffix step extends the id, and leaves it unchanged exactly when the mode is neither "image" nor "keypoints". |
| Driver.RepoIdsAccumulate | examples/convert_zarr_to_lerobot.py:170-172 | Every id extends the base id and the previous mode's id. It equals the previous id exactly when the mode is neither "image" nor "keypoints". |
| Driver.RunScript | examples/convert_zarr_to_lerobot.py:170-175 | main is called with the accumulated ids in mode order: the ids used are a prefix of RepoIds, and all of them when the script passes. Every call before the last passed, and a failing script fails with its last call's exception. |

## Left out

- Zarr I/O. The `ReplayBuffer` reader, the optional-import error path and its
  printed hint are outside the model. The store is an input holding the
  arrays, and a missing array key (a KeyError in the reader) is not modelled.
- The `LeRobotDataset` writer internals are outside the model: image
  encoding, file layout, `image_writer_threads` concurrency and the root path,
  fps and robot-type arguments. The writer is only the sequence of calls it
  receives.
- `torch.from_numpy` and element types. Values are copied by index. Float32
  rounding, dtypes and array shapes are not modelled; an image frame is a flat
  pixel sequence.
- The unused `push_to_hub` branch and all commented-out code, including the
  reward and success fields and `consolidate`.
- Dict insertion order. The schema and records are maps, so the order of
  their keys is not modelled.
- numpy's fixed-width integers. `to - from` and `from + frame_idx` are
  unbounded integers, so int64 overflow is not modelled.
- The hard-coded raw directory and the zarr file name. They only select the
  store, which is a parameter here.
- Driver.RunScript: the outcome each main call returns is stated by
  Driver.ConvertZarr. RunScript only records those outcomes, as a ghost
  output, and states how they end the loop.
- Driver.Store.Load: the store hands back one fixed set of arrays. Reading
  them lazily and the store changing on disk between loads are not modelled.
