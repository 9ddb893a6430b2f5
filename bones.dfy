/**
 * The joints of a humanoid rig (Unity's HumanBodyBones) and the fixed table of
 * joints the player records and replays. The table's order is the column order
 * of the CSV format: joint j owns columns 2 + 7*j .. 2 + 7*j + 6.
 */
module Bones {
  import opened Wrappers

  datatype Bone =
    | Hips
    | LeftUpperLeg | RightUpperLeg | LeftLowerLeg | RightLowerLeg | LeftFoot | RightFoot
    | Spine | Chest | Neck | Head
    | LeftShoulder | RightShoulder | LeftUpperArm | RightUpperArm
    | LeftLowerArm | RightLowerArm | LeftHand | RightHand
    | LeftToes | RightToes | LeftEye | RightEye | Jaw
    | LeftThumbProximal | LeftThumbIntermediate | LeftThumbDistal
    | LeftIndexProximal | LeftIndexIntermediate | LeftIndexDistal
    | LeftMiddleProximal | LeftMiddleIntermediate | LeftMiddleDistal
    | LeftRingProximal | LeftRingIntermediate | LeftRingDistal
    | LeftLittleProximal | LeftLittleIntermediate | LeftLittleDistal
    | RightThumbProximal | RightThumbIntermediate | RightThumbDistal
    | RightIndexProximal | RightIndexIntermediate | RightIndexDistal
    | RightMiddleProximal | RightMiddleIntermediate | RightMiddleDistal
    | RightRingProximal | RightRingIntermediate | RightRingDistal
    | RightLittleProximal | RightLittleIntermediate | RightLittleDistal
    | UpperChest

  /** Joint `i` of the player's `targetBones` array: upper body first, then the legs. */
  function TargetBone(i: nat): Bone
    requires i < 49
  {
    match i
    case 0 => Hips
    case 1 => Spine
    case 2 => Chest
    case 3 => Neck
    case 4 => Head
    case 5 => LeftShoulder
    case 6 => LeftUpperArm
    case 7 => LeftLowerArm
    case 8 => LeftHand
    case 9 => LeftThumbProximal
    case 10 => LeftThumbIntermediate
    case 11 => LeftThumbDistal
    case 12 => LeftIndexProximal
    case 13 => LeftIndexIntermediate
    case 14 => LeftIndexDistal
    case 15 => LeftMiddleProximal
    case 16 => LeftMiddleIntermediate
    case 17 => LeftMiddleDistal
    case 18 => LeftRingProximal
    case 19 => LeftRingIntermediate
    case 20 => LeftRingDistal
    case 21 => LeftLittleProximal
    case 22 => LeftLittleIntermediate
    case 23 => LeftLittleDistal
    case 24 => RightShoulder
    case 25 => RightUpperArm
    case 26 => RightLowerArm
    case 27 => RightHand
    case 28 => RightThumbProximal
    case 29 => RightThumbIntermediate
    case 30 => RightThumbDistal
    case 31 => RightIndexProximal
    case 32 => RightIndexIntermediate
    case 33 => RightIndexDistal
    case 34 => RightMiddleProximal
    case 35 => RightMiddleIntermediate
    case 36 => RightMiddleDistal
    case 37 => RightRingProximal
    case 38 => RightRingIntermediate
    case 39 => RightRingDistal
    case 40 => RightLittleProximal
    case 41 => RightLittleIntermediate
    case 42 => RightLittleDistal
    case 43 => LeftUpperLeg
    case 44 => LeftLowerLeg
    case 45 => LeftFoot
    case 46 => RightUpperLeg
    case 47 => RightLowerLeg
    case 48 => RightFoot
  }

  /** The player's `targetBones` array. */
  const TargetBones: seq<Bone> := TableFrom(0)

  /** The table's entries from slot `i` on. */
  function TableFrom(i: nat): (t: seq<Bone>)
    requires i <= 49
    decreases 49 - i
    ensures |t| == 49 - i
  {
    if i == 49 then [] else [TargetBone(i)] + TableFrom(i + 1)
  }

  /** Entry k of TableFrom(i) is the joint of slot i + k. */
  lemma {:induction false} TableEntry(i: nat, k: nat)
    requires i + k < 49
    ensures TableFrom(i)[k] == TargetBone(i + k)
    decreases k
  {
    var tail := TableFrom(i + 1);
    assert TableFrom(i) == [TargetBone(i)] + tail;
    if k > 0 {
      TableEntry(i + 1, k - 1);
      assert TableFrom(i)[k] == tail[k - 1];
    }
  }

  /** Number of joints per recorded frame: the length of TargetBones (TargetBonesDistinct). */
  const BoneCount: nat := 49

  /** The position of `b` in TargetBones, if it is there. */
  function Slot(b: Bone): Option<nat>
  {
    match b
    case Hips => Some(0)
    case Spine => Some(1)
    case Chest => Some(2)
    case Neck => Some(3)
    case Head => Some(4)
    case LeftShoulder => Some(5)
    case LeftUpperArm => Some(6)
    case LeftLowerArm => Some(7)
    case LeftHand => Some(8)
    case LeftThumbProximal => Some(9)
    case LeftThumbIntermediate => Some(10)
    case LeftThumbDistal => Some(11)
    case LeftIndexProximal => Some(12)
    case LeftIndexIntermediate => Some(13)
    case LeftIndexDistal => Some(14)
    case LeftMiddleProximal => Some(15)
    case LeftMiddleIntermediate => Some(16)
    case LeftMiddleDistal => Some(17)
    case LeftRingProximal => Some(18)
    case LeftRingIntermediate => Some(19)
    case LeftRingDistal => Some(20)
    case LeftLittleProximal => Some(21)
    case LeftLittleIntermediate => Some(22)
    case LeftLittleDistal => Some(23)
    case RightShoulder => Some(24)
    case RightUpperArm => Some(25)
    case RightLowerArm => Some(26)
    case RightHand => Some(27)
    case RightThumbProximal => Some(28)
    case RightThumbIntermediate => Some(29)
    case RightThumbDistal => Some(30)
    case RightIndexProximal => Some(31)
    case RightIndexIntermediate => Some(32)
    case RightIndexDistal => Some(33)
    case RightMiddleProximal => Some(34)
    case RightMiddleIntermediate => Some(35)
    case RightMiddleDistal => Some(36)
    case RightRingProximal => Some(37)
    case RightRingIntermediate => Some(38)
    case RightRingDistal => Some(39)
    case RightLittleProximal => Some(40)
    case RightLittleIntermediate => Some(41)
    case RightLittleDistal => Some(42)
    case LeftUpperLeg => Some(43)
    case LeftLowerLeg => Some(44)
    case LeftFoot => Some(45)
    case RightUpperLeg => Some(46)
    case RightLowerLeg => Some(47)
    case RightFoot => Some(48)
    case _ => None
  }

  lemma SlotInverts(i: nat)
    requires i < 49
    ensures Slot(TargetBone(i)) == Some(i)
  {
  }

  /** Position `k` of the table holds the joint whose slot is `k`. */
  lemma TableSlot(k: nat)
    requires k < BoneCount
    ensures k < |TargetBones| && Slot(TargetBones[k]) == Some(k)
  {
    TableEntry(0, k);
    SlotInverts(k);
  }

  /** The table has 49 joints and every one is listed once: position `i` holds the joint whose slot is `i`. */
  lemma TargetBonesDistinct()
    ensures |TargetBones| == BoneCount
    ensures forall i :: 0 <= i < BoneCount ==> Slot(TargetBones[i]) == Some(i)
    ensures forall i, j :: 0 <= i < j < BoneCount ==> TargetBones[i] != TargetBones[j]
  {
    forall i | 0 <= i < BoneCount ensures Slot(TargetBones[i]) == Some(i) {
      TableSlot(i);
    }
  }
}
