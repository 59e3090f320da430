/**
 * Feature-schema selection. The script keeps one process-wide schema dict,
 * PUSHT_FEATURES, and build_features edits that dict in place for the
 * requested mode and hands back the very same object. Here the dict is the
 * `entries` field of a FeatureTemplate object; ApplyMode is the pure
 * description of one edit, and BuildFeatures performs it on the object.
 */
module Features {
  import opened PyErrors

  const STATE: string := "observation.state"
  const ACTION: string := "action"
  const IMAGE: string := "observation.image"

  /** The three conversion modes the driver accepts. */
  const IMAGE_MODE: string := "image"
  const VIDEO_MODE: string := "video"
  const KEYPOINTS_MODE: string := "keypoints"

  /** The `names` entry of a descriptor: a dict {"axes": [...]} or a plain list. */
  datatype Names = Axes(axes: seq<string>) | Labels(labels: seq<string>)

  /** One feature descriptor; `dtype == None` is Python's None (not chosen yet). */
  datatype Feature = Feature(dtype: Option<string>, shape: seq<nat>, names: Names)

  type Schema = map<string, Feature>

  /** The initial value of PUSHT_FEATURES. */
  function PushtFeatures(): (m: Schema)
    ensures m.Keys == {STATE, ACTION, IMAGE}
    ensures m[STATE].dtype == m[ACTION].dtype == Some("float32")
    ensures m[STATE].shape == m[ACTION].shape == [3]
    ensures m[IMAGE].dtype == None && m[IMAGE].shape == [240, 320, 3]
  {
    map[
      STATE := Feature(Some("float32"), [3], Axes(["x", "y", "z"])),
      ACTION := Feature(Some("float32"), [3], Axes(["x", "y", "z"])),
      IMAGE := Feature(None, [240, 320, 3], Labels(["height", "width", "channel"]))
    ]
  }

  /**
   * The edit build_features makes to the schema dict `m` for `mode`:
   * "keypoints" pops the image feature, every other mode writes itself into
   * the image feature's dtype. Both raise KeyError once the image feature is
   * gone.
   */
  function ApplyMode(m: Schema, mode: string): (r: Result<Schema>)
    ensures r.Failure? <==> IMAGE !in m
    ensures r.Failure? ==> r.error == KeyError(IMAGE)
    ensures r.Success? && mode == KEYPOINTS_MODE ==> r.value.Keys == m.Keys - {IMAGE}
    ensures r.Success? && mode != KEYPOINTS_MODE ==>
              && r.value.Keys == m.Keys
              && r.value[IMAGE].dtype == Some(mode)
              && r.value[IMAGE].shape == m[IMAGE].shape
              && r.value[IMAGE].names == m[IMAGE].names
    ensures r.Success? ==> forall k :: k in r.value && k != IMAGE ==> r.value[k] == m[k]
  {
    if IMAGE !in m then Failure(KeyError(IMAGE))
    else if mode == KEYPOINTS_MODE then Success(m - {IMAGE})
    else Success(m[IMAGE := m[IMAGE].(dtype := Some(mode))])
  }

  /** The mutable schema dict (PUSHT_FEATURES is the one instance the script has). */
  class FeatureTemplate {
    var entries: Schema

    constructor ()
      ensures entries == PushtFeatures()
    {
      entries := PushtFeatures();
    }
  }

  /**
   * build_features: edits `template` in place and returns that same object,
   * not a copy, so every caller's result aliases the shared template.
   */
  method BuildFeatures(template: FeatureTemplate, mode: string) returns (r: Result<FeatureTemplate>)
    modifies template
    ensures ApplyMode(old(template.entries), mode).Success? ==>
              r == Success(template) && template.entries == ApplyMode(old(template.entries), mode).value
    ensures ApplyMode(old(template.entries), mode).Failure? ==>
              r == Failure(KeyError(IMAGE)) && template.entries == old(template.entries)
  {
    var features := template;
    if IMAGE !in features.entries {
      return Failure(KeyError(IMAGE));
    }
    if mode == KEYPOINTS_MODE {
      features.entries := features.entries - {IMAGE};
    } else {
      features.entries := features.entries[IMAGE := features.entries[IMAGE].(dtype := Some(mode))];
    }
    return Success(features);
  }

  /**
   * On a fresh template every mode succeeds: "keypoints" leaves exactly the
   * state and action features, the other modes keep all three and set the
   * image dtype to the mode.
   */
  lemma FirstCall(mode: string)
    ensures ApplyMode(PushtFeatures(), mode).Success?
    ensures mode == KEYPOINTS_MODE ==> ApplyMode(PushtFeatures(), mode).value.Keys == {STATE, ACTION}
    ensures mode != KEYPOINTS_MODE ==>
              && ApplyMode(PushtFeatures(), mode).value.Keys == {STATE, ACTION, IMAGE}
              && ApplyMode(PushtFeatures(), mode).value[IMAGE].dtype == Some(mode)
  {
  }

  /**
   * Because the template is edited in place, every call after a successful
   * "keypoints" call raises KeyError, whatever its mode.
   */
  lemma CallAfterKeypointsFails(m: Schema, mode: string)
    requires ApplyMode(m, KEYPOINTS_MODE).Success?
    ensures ApplyMode(ApplyMode(m, KEYPOINTS_MODE).value, mode) == Failure(KeyError(IMAGE))
  {
  }

  /**
   * Two image-producing calls on the same template: the second overwrites the
   * first, so the object the first call returned now holds the second mode.
   */
  lemma LastModeWins(m: Schema, first: string, second: string)
    requires IMAGE in m && first != KEYPOINTS_MODE && second != KEYPOINTS_MODE
    ensures ApplyMode(ApplyMode(m, first).value, second) == ApplyMode(m, second)
  {
    var once := ApplyMode(m, first).value;
    assert once[IMAGE := once[IMAGE].(dtype := Some(second))] == m[IMAGE := m[IMAGE].(dtype := Some(second))];
  }
}
