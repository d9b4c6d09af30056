/**
 * What one tick of `CsvRetargetPlayer.Tick` computes from one frame: the working copy
 * of the frame (hand gain, face smoothing) and, binding by binding, the Euler angles
 * written to each bone and the smoothing state kept per bone.
 */
module Pose {
  import opened Wrappers
  import opened Clips

  /** A joint of the scene graph (a Unity `Transform`), known only by identity. */
  type Bone(==)

  /**
   * Rotations as uninterpreted terms: `Euler(x, y, z)` is `Quaternion.Euler` and
   * `Product(l, r)` the quaternion product `l * r`; no algebraic law is assumed.
   */
  datatype Rotation = Euler(x: real, y: real, z: real) | Product(lhs: Rotation, rhs: Rotation)

  datatype Vec3 = Vec3(x: real, y: real, z: real)

  const Zero := Vec3(0.0, 0.0, 0.0)

  /** `RetargetBinding`: which bone a channel triplet drives, and how. */
  datatype RetargetBinding = RetargetBinding(
    bone: Option<Bone>,
    startIndex: int,
    addOffset: Vec3,
    scale: Vec3,
    smooth: real,
    clampDeg: Vec3)

  /** First channel of the two hand groups, `[99, 162)` and `[162, 225)`. */
  const HandStart: nat := 99
  /** First face channel, and the end of the hand groups. */
  const FaceStart: nat := 225
  /** End of the face channels; also the width of the saved face frame. */
  const FaceEnd: nat := 411
  /** Largest start index of a binding's channel triplet. */
  const MaxStart: nat := 408

  /** `Mathf.Clamp(float, float, float)`: the lower bound is compared first. */
  function Clamp(v: real, lo: real, hi: real): (r: real)
    ensures lo <= hi ==> lo <= r <= hi
    ensures lo <= v <= hi ==> r == v
    ensures lo <= hi && v < lo ==> r == lo
    ensures lo <= hi && v > hi ==> r == hi
  {
    if v < lo then lo else if v > hi then hi else v
  }

  /** `Mathf.Clamp01`. */
  function Clamp01(t: real): real {
    if t < 0.0 then 0.0 else if t > 1.0 then 1.0 else t
  }

  /** `Mathf.Lerp`: interpolation with the parameter clamped to `[0, 1]`. */
  function Lerp(a: real, b: real, t: real): (r: real)
    ensures a <= b ==> a <= r <= b
    ensures b <= a ==> b <= r <= a
    ensures t <= 0.0 ==> r == a
    ensures t >= 1.0 ==> r == b
  {
    var u := Clamp01(t);
    var d := b - a;
    ScaledBetween(d, u);
    assert 0.0 <= d ==> 0.0 <= d * u <= d;
    assert d <= 0.0 ==> d <= d * u <= 0.0;
    assert a + d == b;
    a + d * u
  }

  /** A fraction `u` of `d` lies between `0` and `d`, and is `0` or `d` at the ends. */
  lemma ScaledBetween(d: real, u: real)
    requires 0.0 <= u <= 1.0
    ensures 0.0 <= d ==> 0.0 <= d * u <= d
    ensures d <= 0.0 ==> d <= d * u <= 0.0
    ensures u == 0.0 ==> d * u == 0.0
    ensures u == 1.0 ==> d * u == d
  {
    if 0.0 <= d {
      assert d * (1.0 - u) >= 0.0;
    } else {
      assert (-d) * (1.0 - u) >= 0.0;
      assert (-d) * u >= 0.0;
    }
  }

  // ----- the working frame -------------------------------------------------------------------

  /** The hand groups `[99, 225)` multiplied by `gain`, the other channels copied. */
  function ScaleHands(src: Frame, gain: real): Frame
    requires |src| >= FaceStart
  {
    src[..HandStart]
    + seq(FaceStart - HandStart, k requires 0 <= k < FaceStart - HandStart => src[HandStart + k] * gain)
    + src[FaceStart..]
  }

  /** The face channels `[225, 411)` interpolated from `prevFace` towards `w` by `a`. */
  function SmoothFace(w: Frame, prevFace: seq<real>, a: real): Frame
    requires |w| >= FaceEnd && |prevFace| == FaceEnd
  {
    w[..FaceStart]
    + seq(FaceEnd - FaceStart, k requires 0 <= k < FaceEnd - FaceStart => Lerp(prevFace[FaceStart + k], w[FaceStart + k], a))
    + w[FaceEnd..]
  }

  /**
   * The channels a tick's frame needs for the channel loops not to run off its end: the hand
   * loops read up to channel 224; the face loop and the copy to `_prevFace`, which run only
   * when `faceSmooth > 0`, up to channel 410.
   */
  predicate ChannelsFit(src: Frame, faceSmooth: real) {
    |src| >= FaceStart && (faceSmooth > 0.0 ==> |src| >= FaceEnd)
  }

  /**
   * The private copy `Tick` works on: hand channels times `handGain`; face channels
   * interpolated against the previous tick's face values by `1 - faceSmooth`, but only when
   * `faceSmooth > 0`; every other channel as in the stored frame.
   */
  function WorkingFrame(src: Frame, handGain: real, faceSmooth: real, prevFace: seq<real>): (w: Frame)
    requires ChannelsFit(src, faceSmooth) && |prevFace| == FaceEnd
    ensures |w| == |src|
    ensures forall i :: HandStart <= i < FaceStart ==> w[i] == src[i] * handGain
    ensures forall i :: FaceStart <= i < FaceEnd && i < |src| ==>
      w[i] == if faceSmooth > 0.0 then Lerp(prevFace[i], src[i], 1.0 - faceSmooth) else src[i]
    ensures forall i :: 0 <= i < HandStart || FaceEnd <= i < |src| ==> w[i] == src[i]
  {
    var h := ScaleHands(src, handGain);
    assert forall i :: FaceStart <= i < |src| ==> h[i] == src[i];
    if faceSmooth > 0.0 then SmoothFace(h, prevFace, 1.0 - faceSmooth) else h
  }

  /** A frame that agrees with `WorkingFrame` on every channel group is the working frame. */
  lemma WorkingFrameOfChannels(src: Frame, handGain: real, faceSmooth: real, prevFace: seq<real>, w: Frame)
    requires ChannelsFit(src, faceSmooth) && |prevFace| == FaceEnd && |w| == |src|
    requires forall i :: HandStart <= i < FaceStart ==> w[i] == src[i] * handGain
    requires forall i :: FaceStart <= i < FaceEnd && i < |src| ==>
      w[i] == if faceSmooth > 0.0 then Lerp(prevFace[i], src[i], 1.0 - faceSmooth) else src[i]
    requires forall i :: 0 <= i < HandStart || FaceEnd <= i < |src| ==> w[i] == src[i]
    ensures w == WorkingFrame(src, handGain, faceSmooth, prevFace)
  {
    var spec := WorkingFrame(src, handGain, faceSmooth, prevFace);
    assert forall i :: 0 <= i < |w| ==> w[i] == spec[i];
  }

  // ----- one binding ---------------------------------------------------------------------------

  /** `Mathf.Clamp(b.startIndex, 0, 408)`: a triplet start that stays inside a 411-channel frame. */
  function StartChannel(startIndex: int): (s: nat)
    ensures s <= MaxStart && s + 2 < FaceEnd
    ensures 0 <= startIndex <= MaxStart ==> s == startIndex
    ensures startIndex > MaxStart ==> s == MaxStart
    ensures startIndex < 0 ==> s == 0
  {
    if startIndex < 0 then 0 else if startIndex > MaxStart as int then MaxStart else startIndex
  }

  /** Every axis of `v` lies within plus or minus the same axis of `c`. */
  predicate Within(v: Vec3, c: Vec3) {
    -c.x <= v.x <= c.x && -c.y <= v.y <= c.y && -c.z <= v.z <= c.z
  }

  predicate NonNegative(c: Vec3) {
    c.x >= 0.0 && c.y >= 0.0 && c.z >= 0.0
  }

  /**
   * The binding's channel triplet lies inside the frame. Every frame of at least 411 channels
   * passes, since the clamped start is at most 408.
   */
  predicate Reaches(w: Frame, b: RetargetBinding) {
    StartChannel(b.startIndex) + 2 < |w|
  }

  /** Every binding with a bone reads inside the frame. */
  predicate AllReach(w: Frame, bs: seq<RetargetBinding>) {
    forall i :: 0 <= i < |bs| && bs[i].bone.Some? ==> Reaches(w, bs[i])
  }

  /** `scale * raw + offset` on the binding's channel triplet, before clamping. */
  function RawEuler(w: Frame, b: RetargetBinding): Vec3
    requires Reaches(w, b)
  {
    var s := StartChannel(b.startIndex);
    Vec3(w[s] * b.scale.x + b.addOffset.x,
         w[s + 1] * b.scale.y + b.addOffset.y,
         w[s + 2] * b.scale.z + b.addOffset.z)
  }

  /**
   * The binding's angles after clamping each axis to `±clampDeg`: within the bounds when
   * they are non-negative, and equal to the raw angles when those are already within.
   */
  function TargetEuler(w: Frame, b: RetargetBinding): (e: Vec3)
    requires Reaches(w, b)
    ensures NonNegative(b.clampDeg) ==> Within(e, b.clampDeg)
    ensures Within(RawEuler(w, b), b.clampDeg) ==> e == RawEuler(w, b)
  {
    var r := RawEuler(w, b);
    Vec3(Clamp(r.x, -b.clampDeg.x, b.clampDeg.x),
         Clamp(r.y, -b.clampDeg.y, b.clampDeg.y),
         Clamp(r.z, -b.clampDeg.z, b.clampDeg.z))
  }

  function LerpVec(p: Vec3, e: Vec3, t: real): Vec3 {
    Vec3(Lerp(p.x, e.x, t), Lerp(p.y, e.y, t), Lerp(p.z, e.z, t))
  }

  /** The smoothing state a bone starts a binding with: its entry, or zero. */
  function PrevEulerOf(prevEuler: map<Bone, Vec3>, bone: Bone): Vec3 {
    if bone in prevEuler then prevEuler[bone] else Zero
  }

  /**
   * The angles a binding writes: exactly the clamped target when `smooth <= 0`; otherwise
   * the target approached from the bone's previous angles. Either way they stay within
   * `±clampDeg` when the bounds are non-negative and the previous angles were within them.
   */
  function BindingEuler(w: Frame, b: RetargetBinding, prev: Vec3): (e: Vec3)
    requires Reaches(w, b)
    ensures b.smooth <= 0.0 ==> e == TargetEuler(w, b)
    ensures b.smooth >= 1.0 ==> e == prev
    ensures NonNegative(b.clampDeg) && (b.smooth > 0.0 ==> Within(prev, b.clampDeg)) ==> Within(e, b.clampDeg)
  {
    if b.smooth > 0.0 then LerpVec(prev, TargetEuler(w, b), 1.0 - b.smooth) else TargetEuler(w, b)
  }

  /** The state one tick's binding loop updates: `_prevEuler` and the bones' local rotations. */
  datatype BoneState = BoneState(prevEuler: map<Bone, Vec3>, pose: map<Bone, Rotation>)

  /** The bones named by non-null bindings. */
  function BoundBones(bs: seq<RetargetBinding>): set<Bone> {
    set i | 0 <= i < |bs| && bs[i].bone.Some? :: bs[i].bone.value
  }

  /** The bones of a suffix of the bindings are bones of all of them. */
  lemma BoundBonesSuffix(bs: seq<RetargetBinding>, k: nat)
    requires k <= |bs|
    ensures BoundBones(bs[k..]) <= BoundBones(bs)
  {
    forall x | x in BoundBones(bs[k..]) ensures x in BoundBones(bs) {
      var i :| 0 <= i < |bs[k..]| && bs[k..][i].bone.Some? && bs[k..][i].bone.value == x;
      assert bs[k + i] == bs[k..][i];
    }
  }

  /** Extending a prefix of the bindings by one adds that binding's bone, if it has one. */
  lemma BoundBonesPrefix(bs: seq<RetargetBinding>, k: nat)
    requires k < |bs|
    ensures BoundBones(bs[..k + 1]) ==
      BoundBones(bs[..k]) + (if bs[k].bone.Some? then {bs[k].bone.value} else {})
    ensures BoundBones(bs[..k + 1]) <= BoundBones(bs)
  {
    var extra: set<Bone> := if bs[k].bone.Some? then {bs[k].bone.value} else {};
    forall x | x in BoundBones(bs[..k + 1]) ensures x in BoundBones(bs[..k]) + extra && x in BoundBones(bs) {
      var i :| 0 <= i < k + 1 && bs[..k + 1][i].bone.Some? && bs[..k + 1][i].bone.value == x;
      assert bs[i] == bs[..k + 1][i];
      if i < k { assert bs[i] == bs[..k][i]; }
    }
    forall x | x in BoundBones(bs[..k]) + extra ensures x in BoundBones(bs[..k + 1]) {
      if x in BoundBones(bs[..k]) {
        var i :| 0 <= i < k && bs[..k][i].bone.Some? && bs[..k][i].bone.value == x;
        assert bs[..k + 1][i] == bs[..k][i];
      } else {
        assert bs[..k + 1][k] == bs[k];
      }
    }
  }

  /**
   * One pass of the binding loop: a binding without a bone is skipped; otherwise its bone
   * gets `bind * Euler(x, y, z)`, with the captured rotation as `bind` (the bone's current
   * rotation if none was captured), and `_prevEuler` records the angles only when smoothing.
   */
  function ApplyBinding(w: Frame, b: RetargetBinding, bind: map<Bone, Rotation>, st: BoneState): (r: BoneState)
    requires b.bone.Some? ==> Reaches(w, b) && b.bone.value in st.pose
    ensures r.pose.Keys == st.pose.Keys
    ensures b.bone.None? ==> r == st
    ensures b.bone.Some? ==>
      var bone := b.bone.value;
      var e := BindingEuler(w, b, PrevEulerOf(st.prevEuler, bone));
      var base := if bone in bind then bind[bone] else st.pose[bone];
      && r.pose == st.pose[bone := Product(base, Euler(e.x, e.y, e.z))]
      && r.prevEuler == if b.smooth > 0.0 then st.prevEuler[bone := e] else st.prevEuler
  {
    if b.bone.None? then st
    else
      var bone := b.bone.value;
      var e := BindingEuler(w, b, PrevEulerOf(st.prevEuler, bone));
      var base := if bone in bind then bind[bone] else st.pose[bone];
      BoneState(
        if b.smooth > 0.0 then st.prevEuler[bone := e] else st.prevEuler,
        st.pose[bone := Product(base, Euler(e.x, e.y, e.z))])
  }

  /** The binding loop of `Tick`, binding by binding in list order. */
  function ApplyBindings(w: Frame, bs: seq<RetargetBinding>, bind: map<Bone, Rotation>, st: BoneState): (r: BoneState)
    requires AllReach(w, bs)
    requires BoundBones(bs) <= st.pose.Keys
    ensures r.pose.Keys == st.pose.Keys
    decreases |bs|
  {
    if bs == [] then st
    else
      assert BoundBones(bs[1..]) <= BoundBones(bs) by {
        forall x | x in BoundBones(bs[1..]) ensures x in BoundBones(bs) {
          var i :| 0 <= i < |bs[1..]| && bs[1..][i].bone.Some? && bs[1..][i].bone.value == x;
          assert bs[i + 1] == bs[1..][i];
        }
      }
      assert bs[0].bone.Some? ==> bs[0].bone.value in BoundBones(bs);
      ApplyBindings(w, bs[1..], bind, ApplyBinding(w, bs[0], bind, st))
  }

  /** A bone that no binding names keeps its rotation and its smoothing state. */
  lemma {:induction false} UnboundBoneUntouched(w: Frame, bs: seq<RetargetBinding>, bind: map<Bone, Rotation>, st: BoneState, x: Bone)
    requires AllReach(w, bs)
    requires BoundBones(bs) <= st.pose.Keys
    requires x !in BoundBones(bs)
    ensures var r := ApplyBindings(w, bs, bind, st);
      && (x in r.pose <==> x in st.pose) && (x in st.pose ==> r.pose[x] == st.pose[x])
      && (x in r.prevEuler <==> x in st.prevEuler) && (x in st.prevEuler ==> r.prevEuler[x] == st.prevEuler[x])
    decreases |bs|
  {
    if bs != [] {
      assert bs[0].bone != Some(x);
      assert BoundBones(bs[1..]) <= BoundBones(bs) by {
        forall y | y in BoundBones(bs[1..]) ensures y in BoundBones(bs) {
          var i :| 0 <= i < |bs[1..]| && bs[1..][i].bone.Some? && bs[1..][i].bone.value == y;
          assert bs[i + 1] == bs[1..][i];
        }
      }
      assert bs[0].bone.Some? ==> bs[0].bone.value in BoundBones(bs);
      UnboundBoneUntouched(w, bs[1..], bind, ApplyBinding(w, bs[0], bind, st), x);
    }
  }

  /** `_prevEuler` of a bone changes only through a binding on that bone with `smooth > 0`. */
  lemma {:induction false} UnsmoothedBoneKeepsState(w: Frame, bs: seq<RetargetBinding>, bind: map<Bone, Rotation>, st: BoneState, x: Bone)
    requires AllReach(w, bs)
    requires BoundBones(bs) <= st.pose.Keys
    requires forall i :: 0 <= i < |bs| && bs[i].bone == Some(x) ==> bs[i].smooth <= 0.0
    ensures var r := ApplyBindings(w, bs, bind, st);
      (x in r.prevEuler <==> x in st.prevEuler) && (x in st.prevEuler ==> r.prevEuler[x] == st.prevEuler[x])
    decreases |bs|
  {
    if bs != [] {
      assert BoundBones(bs[1..]) <= BoundBones(bs) by {
        forall y | y in BoundBones(bs[1..]) ensures y in BoundBones(bs) {
          var i :| 0 <= i < |bs[1..]| && bs[1..][i].bone.Some? && bs[1..][i].bone.value == y;
          assert bs[i + 1] == bs[1..][i];
        }
      }
      assert bs[0].bone.Some? ==> bs[0].bone.value in BoundBones(bs);
      assert forall i :: 0 <= i < |bs[1..]| ==> bs[1..][i] == bs[i + 1];
      UnsmoothedBoneKeepsState(w, bs[1..], bind, ApplyBinding(w, bs[0], bind, st), x);
    }
  }

  /**
   * The bone of binding `j`, when no later binding names it, ends the binding loop as
   * `base * Euler(e)`: `base` is its captured rotation (its rotation before binding `j` if
   * none was captured) and `e` the angles binding `j` computes from the smoothing state the
   * earlier bindings left; when binding `j` smooths, `e` is also the bone's new `_prevEuler`.
   */
  lemma {:induction false} BoundBoneComposedOnBind(w: Frame, bs: seq<RetargetBinding>, bind: map<Bone, Rotation>, st: BoneState, x: Bone, j: nat)
    requires AllReach(w, bs)
    requires BoundBones(bs) <= st.pose.Keys
    requires j < |bs| && bs[j].bone == Some(x)
    requires forall k :: j < k < |bs| ==> bs[k].bone != Some(x)
    ensures x in st.pose && BoundBones(bs[..j]) <= st.pose.Keys
    ensures var mid := ApplyBindings(w, bs[..j], bind, st);
      var e := BindingEuler(w, bs[j], PrevEulerOf(mid.prevEuler, x));
      var base := if x in bind then bind[x] else mid.pose[x];
      var r := ApplyBindings(w, bs, bind, st);
      && r.pose[x] == Product(base, Euler(e.x, e.y, e.z))
      && (bs[j].smooth > 0.0 ==> x in r.prevEuler && r.prevEuler[x] == e)
    decreases j
  {
    assert bs[j].bone.value in BoundBones(bs);
    var st' := ApplyBinding(w, bs[0], bind, st);
    BoundBonesSuffix(bs, 1);
    assert bs[0].bone.Some? ==> bs[0].bone.value in BoundBones(bs);
    if j == 0 {
      assert bs[..0] == [];
      assert BoundBones(bs[..0]) == {};
      assert x !in BoundBones(bs[1..]) by {
        forall i | 0 <= i < |bs[1..]| ensures bs[1..][i].bone != Some(x) {
          assert bs[1..][i] == bs[i + 1];
        }
      }
      UnboundBoneUntouched(w, bs[1..], bind, st', x);
    } else {
      forall k | j - 1 < k < |bs[1..]| ensures bs[1..][k].bone != Some(x) {
        assert bs[1..][k] == bs[k + 1];
      }
      assert bs[1..][j - 1] == bs[j];
      BoundBoneComposedOnBind(w, bs[1..], bind, st', x, j - 1);
      BoundBonesPrefix(bs, j - 1);
      assert bs[..j][0] == bs[0] && bs[..j][1..] == bs[1..][..j - 1];
      assert ApplyBindings(w, bs[..j], bind, st) == ApplyBindings(w, bs[1..][..j - 1], bind, st');
    }
  }

  /**
   * Unsmoothed, the last binding on a captured bone leaves exactly `bind * Euler(t)` with
   * `t` its clamped target angles, which lie within `±clampDeg` when the bounds are
   * non-negative.
   */
  lemma WrittenAnglesWithinClamp(w: Frame, bs: seq<RetargetBinding>, bind: map<Bone, Rotation>, st: BoneState, x: Bone, j: nat)
    requires AllReach(w, bs)
    requires BoundBones(bs) <= st.pose.Keys
    requires j < |bs| && bs[j].bone == Some(x)
    requires forall k :: j < k < |bs| ==> bs[k].bone != Some(x)
    requires x in bind && bs[j].smooth <= 0.0 && NonNegative(bs[j].clampDeg)
    ensures var r := ApplyBindings(w, bs, bind, st);
      var t := TargetEuler(w, bs[j]);
      && x in r.pose
      && r.pose[x] == Product(bind[x], Euler(t.x, t.y, t.z))
      && Within(t, bs[j].clampDeg)
  {
    BoundBoneComposedOnBind(w, bs, bind, st, x, j);
  }
}
