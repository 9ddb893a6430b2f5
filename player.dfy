/**
 * The HumanoidDataPlayer component: it binds the table's joints to the rig
 * once, loads the recording into its frame list, and on every tick advances
 * the playback clock and writes the current frame onto the bound joints.
 * The rig lookup, the CSV text, the float parser and the frame's elapsed
 * time are parameters.
 */
module Player {
  import opened Wrappers
  import opened Bones
  import opened Text
  import opened Csv
  import opened Timeline

  /** A rig joint's transform: the two fields the player writes. */
  class Transform {
    var localRotation: Quaternion
    var localPosition: Vector3
  }

  /** What a load reports through the log; FormatException is the exception float.Parse throws. */
  datatype LoadStatus = NotEnoughLines | NoFrameData | Loaded | FormatException

  /** The time of every frame, in order. */
  function Times(frames: seq<FrameData>): (ts: seq<real>)
    decreases |frames|
    ensures |ts| == |frames|
    ensures forall k :: 0 <= k < |frames| ==> ts[k] == frames[k].time
  {
    if frames == [] then [] else [frames[0].time] + Times(frames[1..])
  }

  /** No slot after `i` and before `end` writes the transform bound to slot `i`. */
  ghost predicate Unshadowed(dict: map<Bone, Transform>, i: nat, end: nat)
    requires i < BoneCount && TargetBones[i] in dict
  {
    forall k :: i < k < end && k < BoneCount && TargetBones[k] in dict ==> dict[TargetBones[k]] != dict[TargetBones[i]]
  }

  /**
   * Every bound joint shows its slot of `fd`, unless a later slot is bound to
   * the same transform (then the later slot's values are the ones written).
   */
  ghost predicate ShowsFrame(dict: map<Bone, Transform>, fd: FrameData)
    reads dict.Values
    requires Shaped(fd, BoneCount)
  {
    forall i :: 0 <= i < BoneCount && TargetBones[i] in dict && Unshadowed(dict, i, BoneCount) ==>
      && dict[TargetBones[i]].localRotation == fd.rotations[i]
      && dict[TargetBones[i]].localPosition == fd.positions[i]
  }

  /** No two joints share a transform. */
  ghost predicate Injective(dict: map<Bone, Transform>)
  {
    forall a, b :: a in dict && b in dict && a != b ==> dict[a] != dict[b]
  }

  /** The joint map after binding `bones` in order: each one the rig has a transform for is (re)bound to it. */
  function Bound(dict: map<Bone, Transform>, rig: Bone -> Option<Transform>, bones: seq<Bone>): map<Bone, Transform>
    decreases |bones|
  {
    if bones == [] then dict
    else
      var d := Bound(dict, rig, bones[..|bones| - 1]);
      var b := bones[|bones| - 1];
      if rig(b).Some? then d[b := rig(b).value] else d
  }

  /** Binding adds exactly the listed joints the rig has, each to the rig's transform, and leaves every other entry alone. */
  lemma {:induction false} BoundBinds(dict: map<Bone, Transform>, rig: Bone -> Option<Transform>, bones: seq<Bone>)
    ensures forall b :: b in Bound(dict, rig, bones) <==> b in dict || (b in bones && rig(b).Some?)
    ensures forall b :: b in Bound(dict, rig, bones) ==>
              Bound(dict, rig, bones)[b] == if b in bones && rig(b).Some? then rig(b).value else dict[b]
    decreases |bones|
  {
    if bones != [] {
      var init := bones[..|bones| - 1];
      BoundBinds(dict, rig, init);
      assert bones == init + [bones[|bones| - 1]];
    }
  }

  class HumanoidDataPlayer {
    var currentFramePlaying: int
    var loopPlayback: bool
    var playbackSpeed: real
    var boneDict: map<Bone, Transform>
    var frames: seq<FrameData>
    var playbackTimer: real
    var currentFrameIndex: nat

    /** The cursor is on a frame once there are frames, and every frame has a slot per joint. */
    ghost predicate Valid()
      reads this
    {
      && (currentFrameIndex < |frames| || currentFrameIndex == 0)
      && (forall k :: 0 <= k < |frames| ==> Shaped(frames[k], BoneCount))
    }

    /** Only table joints are bound, so every bound transform is one ApplyFrame writes. */
    ghost predicate OnlyTableJoints()
      reads this
    {
      forall b :: b in boneDict ==> b in TargetBones
    }

    /** The component as its field initialisers leave it; looping and speed are the two inspector settings. */
    constructor (loopPlayback: bool, playbackSpeed: real)
      ensures Valid() && OnlyTableJoints()
      ensures this.loopPlayback == loopPlayback && this.playbackSpeed == playbackSpeed
      ensures currentFramePlaying == 0 && boneDict == map[] && frames == []
      ensures playbackTimer == 0.0 && currentFrameIndex == 0
    {
      this.loopPlayback := loopPlayback;
      this.playbackSpeed := playbackSpeed;
      currentFramePlaying := 0;
      boneDict := map[];
      frames := [];
      playbackTimer := 0.0;
      currentFrameIndex := 0;
    }

    /** Binds every table joint the rig has a transform for; joints the rig lacks stay unbound. */
    method BindBones(rig: Bone -> Option<Transform>)
      requires Valid() && OnlyTableJoints()
      modifies this`boneDict
      ensures Valid() && OnlyTableJoints()
      ensures boneDict == Bound(old(boneDict), rig, TargetBones)
    {
      var dict := boneDict;
      for i := 0 to BoneCount
        invariant dict == Bound(boneDict, rig, TargetBones[..i])
      {
        var bone := TargetBones[i];
        var t := rig(bone);
        if t.Some? {
          dict := dict[bone := t.value];
        }
        assert TargetBones[..i + 1][..i] == TargetBones[..i] && TargetBones[..i + 1][i] == bone;
      }
      assert TargetBones[..BoneCount] == TargetBones;
      BoundBinds(boneDict, rig, TargetBones);
      boneDict := dict;
    }

    /**
     * What loading `text` leaves, from frame list `before` and timer `timer`:
     * the text's frames appended in line order; the status the log reports
     * (too few lines, a FormatException, no frames at all, or loaded); and
     * the timer moved to the first frame's time only after a full load.
     */
    ghost predicate LoadedText(text: string, parse: FloatParser, status: LoadStatus, before: seq<FrameData>, timer: real)
      reads this
    {
      && frames == before + LoadText(text, BoneCount, parse).frames
      && status == (if |Lines(text)| < 2 then NotEnoughLines
                    else if LoadText(text, BoneCount, parse).aborted then FormatException
                    else if frames == [] then NoFrameData
                    else Loaded)
      && playbackTimer == if status == Loaded then frames[0].time else timer
    }

    /**
     * Loads the recording: every frame the text yields is appended in line
     * order, and after a load that neither ran short of lines nor threw, a
     * non-empty frame list starts the timer at the first frame's time.
     */
    method ParseCSV(text: string, parse: FloatParser) returns (status: LoadStatus)
      requires Valid()
      modifies this`frames, this`playbackTimer
      ensures Valid()
      ensures LoadedText(text, parse, status, old(frames), old(playbackTimer))
    {
      var lines := Lines(text);
      if |lines| < 2 {
        return NotEnoughLines;
      }
      var aborted := ReadRows(lines[1..], parse);
      if aborted {
        return FormatException;
      }
      if |frames| > 0 {
        playbackTimer := frames[0].time;
        status := Loaded;
      } else {
        status := NoFrameData;
      }
    }

    /**
     * ParseCSV's line loop over the data lines: each line's frame is appended
     * in order; the first line that throws ends the loop and the load.
     */
    method ReadRows(rows: seq<string>, parse: FloatParser) returns (aborted: bool)
      requires Valid()
      modifies this`frames
      ensures Valid()
      ensures frames == old(frames) + ParseRows(rows, BoneCount, parse).frames
      ensures aborted == ParseRows(rows, BoneCount, parse).aborted
    {
      var loaded := frames;
      ghost var done := Load([], false);
      aborted := false;
      var i := 0;
      while i < |rows| && !aborted
        invariant 0 <= i <= |rows|
        invariant done == ParseRows(rows[..i], BoneCount, parse) && aborted == done.aborted
        invariant frames == old(frames) && loaded == frames + done.frames
      {
        var row := ReadRow(rows[i], parse);
        ParseRowsPrefix(rows, i, BoneCount, parse);
        StepAppends(done, row);
        assert Step(done, row) == ParseRows(rows[..i + 1], BoneCount, parse);
        done := Step(done, row);
        if row.FormatError? {
          aborted := true;
        } else if row.Frame? {
          loaded := loaded + [row.frame];
        }
        i := i + 1;
      }
      if aborted {
        AbortSticks(rows[..i], rows[i..], BoneCount, parse);
        assert rows[..i] + rows[i..] == rows;
      } else {
        assert rows[..i] == rows;
      }
      assert done == ParseRows(rows, BoneCount, parse);
      frames := loaded;
    }

    /**
     * Start: with a humanoid rig, binds the joints and then, when a CSV text
     * is assigned, loads it. `humanoid` stands for the Animator check.
     */
    method Start(humanoid: bool, rig: Bone -> Option<Transform>, csvData: Option<string>, parse: FloatParser)
      returns (status: Option<LoadStatus>)
      requires Valid() && OnlyTableJoints()
      modifies this`boneDict, this`frames, this`playbackTimer
      ensures Valid() && OnlyTableJoints()
      ensures !humanoid ==> boneDict == old(boneDict)
      ensures humanoid ==> boneDict == Bound(old(boneDict), rig, TargetBones)
      ensures status.Some? <==> humanoid && csvData.Some?
      ensures status.None? ==> frames == old(frames) && playbackTimer == old(playbackTimer)
      ensures status.Some? ==> LoadedText(csvData.value, parse, status.value, old(frames), old(playbackTimer))
    {
      if !humanoid {
        return None;
      }
      BindBones(rig);
      if csvData.None? {
        return None;
      }
      var s := ParseCSV(csvData.value, parse);
      status := Some(s);
    }

    /** Writes slot i of `fd` onto the transform bound to table joint i, for every bound joint. */
    method ApplyFrame(fd: FrameData)
      requires Shaped(fd, BoneCount) && OnlyTableJoints()
      modifies boneDict.Values
      ensures unchanged(this)
      ensures ShowsFrame(boneDict, fd)
    {
      for i := 0 to BoneCount
        invariant forall k :: 0 <= k < i && TargetBones[k] in boneDict && Unshadowed(boneDict, k, i) ==>
                    && boneDict[TargetBones[k]].localRotation == fd.rotations[k]
                    && boneDict[TargetBones[k]].localPosition == fd.positions[k]
      {
        var bone := TargetBones[i];
        if bone in boneDict {
          var t := boneDict[bone];
          t.localRotation := fd.rotations[i];
          t.localPosition := fd.positions[i];
        }
      }
    }

    /**
     * The clock half of a tick: the timer and cursor end where Advance puts
     * them, and the cursor is mirrored into currentFramePlaying.
     */
    method Tick(deltaTime: real)
      requires Valid() && frames != []
      modifies this`playbackTimer, this`currentFrameIndex, this`currentFramePlaying
      ensures Valid()
      ensures Clock(playbackTimer, currentFrameIndex)
              == Advance(Times(frames), Clock(old(playbackTimer), old(currentFrameIndex)),
                         deltaTime, playbackSpeed, loopPlayback)
      ensures currentFramePlaying == currentFrameIndex
    {
      MoveTimer(deltaTime);
      SeekFrame();
      currentFramePlaying := currentFrameIndex;
    }

    /**
     * The timer moves by the scaled frame time; once it is past the last
     * frame it wraps to the first frame (looping) or clamps to the last.
     */
    method MoveTimer(deltaTime: real)
      requires Valid() && frames != []
      modifies this`playbackTimer, this`currentFrameIndex
      ensures Valid()
      ensures Clock(playbackTimer, currentFrameIndex)
              == Reposition(Times(frames), Clock(old(playbackTimer), old(currentFrameIndex)),
                            deltaTime, playbackSpeed, loopPlayback)
    {
      var timer := playbackTimer + deltaTime * playbackSpeed;
      var index := currentFrameIndex;
      var last := |frames| - 1;
      if timer > frames[last].time {
        if loopPlayback {
          timer := frames[0].time;
          index := 0;
        } else {
          timer := frames[last].time;
          index := last;
        }
      }
      ghost var times := Times(frames);
      assert times[last] == frames[last].time && times[0] == frames[0].time;
      assert Clock(timer, index)
             == Reposition(times, Clock(playbackTimer, currentFrameIndex), deltaTime, playbackSpeed, loopPlayback);
      playbackTimer, currentFrameIndex := timer, index;
    }

    /** The cursor walks forward over every following frame whose time is not after the timer. */
    method SeekFrame()
      requires Valid() && frames != []
      modifies this`currentFrameIndex
      ensures Valid()
      ensures currentFrameIndex == Scan(Times(frames), old(currentFrameIndex), playbackTimer)
    {
      ghost var times := Times(frames);
      var index := currentFrameIndex;
      while index < |frames| - 1 && frames[index + 1].time <= playbackTimer
        invariant currentFrameIndex <= index < |frames|
        invariant Scan(times, index, playbackTimer) == Scan(times, currentFrameIndex, playbackTimer)
        decreases |frames| - index
      {
        assert times[index + 1] == frames[index + 1].time;
        index := index + 1;
      }
      assert index == |frames| - 1 || times[index + 1] > playbackTimer;
      currentFrameIndex := index;
    }

    /**
     * One tick: with no frames nothing happens; otherwise the clock advances
     * as Advance says, the cursor is mirrored into currentFramePlaying, and
     * the current frame is written onto the rig.
     */
    method Update(deltaTime: real)
      requires Valid() && OnlyTableJoints()
      modifies this`playbackTimer, this`currentFrameIndex, this`currentFramePlaying, boneDict.Values
      ensures Valid() && OnlyTableJoints()
      ensures frames == [] ==> unchanged(this) && unchanged(boneDict.Values)
      ensures frames != [] ==>
                && Clock(playbackTimer, currentFrameIndex)
                   == Advance(Times(frames), Clock(old(playbackTimer), old(currentFrameIndex)),
                              deltaTime, playbackSpeed, loopPlayback)
                && currentFramePlaying == currentFrameIndex
                && ShowsFrame(boneDict, frames[currentFrameIndex])
    {
      if |frames| == 0 {
        return;
      }
      Tick(deltaTime);
      ApplyFrame(frames[currentFrameIndex]);
    }
  }

  /**
   * The body of ParseCSV's line loop: split the line on commas, skip it when
   * it is short or its time does not parse, then read seven floats per joint
   * into two fresh arrays. FormatError is the exception float.Parse throws on
   * the first joint column that does not parse.
   */
  method ReadRow(line: string, parse: FloatParser) returns (r: RowResult)
    ensures r == ParseRow(line, BoneCount, parse)
  {
    var tokens := Tokens(line);
    var expectedTokenCount := 2 + BoneCount * 7;
    if |tokens| < expectedTokenCount {
      return InsufficientData;
    }
    var time := parse(tokens[1]);
    if time.None? {
      return BadTime;
    }
    var rotations := new Quaternion[BoneCount];
    var positions := new Vector3[BoneCount];
    for j := 0 to BoneCount
      invariant ParseJoints(tokens, j, parse) == Some((rotations[..j], positions[..j]))
    {
      var joint := ReadJoint(tokens, j, parse);
      if joint.None? {
        JointFailureThrows(tokens, j, parse);
        return FormatError;
      }
      rotations[j] := joint.value.0;
      positions[j] := joint.value.1;
      assert rotations[..j + 1] == rotations[..j] + [rotations[j]];
      assert positions[..j + 1] == positions[..j] + [positions[j]];
    }
    assert rotations[..] == rotations[..BoneCount] && positions[..] == positions[..BoneCount];
    assert ParseJoints(tokens, BoneCount, parse) == Some((rotations[..], positions[..]));
    return Frame(FrameData(time.value, rotations[..], positions[..]));
  }

  /**
   * One pass of ParseCSV's joint loop: the seven columns of joint `j`, read
   * in order; None stands for the exception float.Parse throws on the first
   * column that does not parse.
   */
  method ReadJoint(tokens: seq<string>, j: nat, parse: FloatParser) returns (joint: Option<(Quaternion, Vector3)>)
    requires JointBase(j) + JointColumns <= |tokens|
    ensures joint == ParseJoint(tokens, j, parse)
  {
    var baseIndex := 2 + j * 7;
    var rx := parse(tokens[baseIndex]);
    var ry := parse(tokens[baseIndex + 1]);
    var rz := parse(tokens[baseIndex + 2]);
    var rw := parse(tokens[baseIndex + 3]);
    var px := parse(tokens[baseIndex + 4]);
    var py := parse(tokens[baseIndex + 5]);
    var pz := parse(tokens[baseIndex + 6]);
    if rx.None? || ry.None? || rz.None? || rw.None? || px.None? || py.None? || pz.None? {
      return None;
    }
    var rot := Quaternion(rx.value, ry.value, rz.value, rw.value);
    var pos := Vector3(px.value, py.value, pz.value);
    return Some((rot, pos));
  }

  /** When no two joints share a transform, every bound joint shows exactly its own slot of the frame. */
  lemma InjectiveRigShowsAll(dict: map<Bone, Transform>, fd: FrameData)
    requires Shaped(fd, BoneCount) && ShowsFrame(dict, fd) && Injective(dict)
    ensures forall i :: 0 <= i < BoneCount && TargetBones[i] in dict ==>
              && dict[TargetBones[i]].localRotation == fd.rotations[i]
              && dict[TargetBones[i]].localPosition == fd.positions[i]
  {
    TargetBonesDistinct();
    forall i | 0 <= i < BoneCount && TargetBones[i] in dict
      ensures Unshadowed(dict, i, BoneCount)
    {
    }
  }

  /** A joint whose columns do not all parse makes the whole line throw. */
  lemma JointFailureThrows(tokens: seq<string>, j: nat, parse: FloatParser)
    requires j < BoneCount && ExpectedTokens(BoneCount) <= |tokens|
    requires ParseJoints(tokens, j, parse).Some?
    requires ParseJoint(tokens, j, parse).None?
    ensures parse(tokens[1]).Some? ==> ParseTokens(tokens, BoneCount, parse).FormatError?
  {
    assert ParseJoints(tokens, j + 1, parse).None?;
    JointsParseIff(tokens, j + 1, parse);
    JointsParseIff(tokens, BoneCount, parse);
  }
}
