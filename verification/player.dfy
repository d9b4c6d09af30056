/**
 * The `CsvRetargetPlayer` component: the playback state machine (`_sequenceFrames`,
 * `_seqFrame`), the commands that change it, the sequence builder and the per-tick pose
 * update.
 */
module Player {
  import opened Wrappers
  import opened Tokens
  import opened Clips
  import opened Pose

  // ----- the playback lifecycle --------------------------------------------------------------

  /** `_sequenceFrames` (`None` is `null`) and `_seqFrame`: the state `Tick` steps through. */
  datatype Playback = Playback(frames: Option<seq<Frame>>, cursor: nat)

  /** A tick renders a frame exactly when there is a sequence and the cursor is inside it. */
  predicate Renders(p: Playback) {
    p.frames.Some? && p.cursor < |p.frames.value|
  }

  /**
   * What one tick does to the playback state: nothing without a sequence or with an empty
   * one; a cursor at or past the end drops the sequence; otherwise the cursor moves on by one.
   */
  function Step(p: Playback): (q: Playback)
    ensures Renders(p) ==> q == Playback(p.frames, p.cursor + 1) && q.cursor <= |p.frames.value|
    ensures !Renders(p) ==> q.cursor == p.cursor && !Renders(q)
    ensures q.frames.Some? ==> q.frames == p.frames
    ensures p.frames.Some? && p.frames.value != [] && p.cursor >= |p.frames.value| ==> q == Playback(None, p.cursor)
    ensures p.frames.None? || p.frames.value == [] ==> q == p
  {
    if p.frames.None? || p.frames.value == [] then p
    else if p.cursor >= |p.frames.value| then Playback(None, p.cursor)
    else Playback(p.frames, p.cursor + 1)
  }

  /** The playback state after `k` ticks. */
  function Steps(p: Playback, k: nat): Playback
    decreases k
  {
    if k == 0 then p else Steps(Step(p), k - 1)
  }

  /**
   * A sequence plays through its frames in order: `k` ticks after the cursor was at `c`, it is
   * at `c + k`, as long as that does not pass the end.
   */
  lemma {:induction false} PlaysInOrder(s: seq<Frame>, c: nat, k: nat)
    requires c + k <= |s|
    ensures Steps(Playback(Some(s), c), k) == Playback(Some(s), c + k)
    decreases k
  {
    if k > 0 {
      assert Step(Playback(Some(s), c)) == Playback(Some(s), c + 1);
      PlaysInOrder(s, c + 1, k - 1);
    }
  }

  /** Without a sequence, ticks change nothing and render nothing: `Play` after `Pause` is idle. */
  lemma {:induction false} StaysCleared(c: nat, k: nat)
    ensures Steps(Playback(None, c), k) == Playback(None, c)
    ensures !Renders(Steps(Playback(None, c), k))
    decreases k
  {
    if k > 0 {
      StaysCleared(c, k - 1);
    }
  }

  /** An empty sequence is never cleared and never renders. */
  lemma {:induction false} EmptyNeverCleared(c: nat, k: nat)
    ensures Steps(Playback(Some([]), c), k) == Playback(Some([]), c)
    ensures !Renders(Steps(Playback(Some([]), c), k))
    decreases k
  {
    if k > 0 {
      EmptyNeverCleared(c, k - 1);
    }
  }

  /** `Steps` splits at any point. */
  lemma {:induction false} StepsAdd(p: Playback, j: nat, k: nat)
    ensures Steps(p, j + k) == Steps(Steps(p, j), k)
    decreases j
  {
    if j > 0 {
      StepsAdd(Step(p), j - 1, k);
    }
  }

  /**
   * Played from the start, a non-empty sequence renders frame `k` on tick `k + 1` for every
   * `k < |s|`, renders on no later tick, and is dropped on tick `|s| + 1`.
   */
  lemma PlaybackLifecycle(s: seq<Frame>, k: nat)
    requires s != []
    ensures k < |s| ==> Renders(Steps(Playback(Some(s), 0), k)) && Steps(Playback(Some(s), 0), k).cursor == k
    ensures k >= |s| ==> !Renders(Steps(Playback(Some(s), 0), k))
    ensures k > |s| ==> Steps(Playback(Some(s), 0), k) == Playback(None, |s|)
  {
    var start := Playback(Some(s), 0);
    if k <= |s| {
      PlaysInOrder(s, 0, k);
    } else {
      PlaysInOrder(s, 0, |s|);
      StepsAdd(start, |s|, k - |s|);
      assert Steps(start, |s| + 1) == Playback(None, |s|) by {
        StepsAdd(start, |s|, 1);
      }
      StepsAdd(start, |s| + 1, k - |s| - 1);
      StaysCleared(|s|, k - |s| - 1);
    }
  }

  /** `Mathf.Max(0, rounded)`: the number of hold frames after each clip is never negative. */
  function HoldFrames(rounded: int): (h: nat)
    ensures rounded >= 0 ==> h == rounded
    ensures rounded < 0 ==> h == 0
  {
    if rounded > 0 then rounded else 0
  }

  /**
   * The tokens `PlayTokensJson` finally builds from: the scan's tokens when there is at least
   * one and building from them does not throw; otherwise (the `catch` around the scan branch
   * also catches a throwing build) the delimiter split of the payload. Without a gloss table
   * and with a path check that refuses no name nothing throws, and this is the scan-or-split
   * choice `PayloadTokens`.
   */
  function JsonTokens(gloss: Option<GlossMap>, rejects: PathCheck, payload: Option<string>): (ts: seq<string>)
    ensures var arr := ScanJson(payload);
      !(arr.Some? && arr.value != [] && BuildThrows(gloss, rejects, NonBlank(arr.value))) ==> ts == PayloadTokens(payload)
    ensures var arr := ScanJson(payload);
      arr.Some? && arr.value != [] && BuildThrows(gloss, rejects, NonBlank(arr.value)) ==>
        ts == SplitDelimited(if payload.None? then "" else payload.value)
    ensures gloss.None? && (forall f :: !rejects(f)) ==> ts == PayloadTokens(payload)
  {
    var arr := ScanJson(payload);
    if arr.Some? && |arr.value| > 0 && !BuildThrows(gloss, rejects, NonBlank(arr.value)) then arr.value
    else SplitDelimited(if payload.None? then "" else payload.value)
  }

  /**
   * A `|`-delimited payload of words without `"` hands the builder exactly those words, in
   * order, under any gloss table and path check (whether that build then throws is
   * `BuildThrows`).
   */
  lemma PipePayloadTokens(gloss: Option<GlossMap>, rejects: PathCheck, ts: seq<string>)
    requires forall k :: 0 <= k < |ts| ==> IsWord(ts[k]) && '"' !in ts[k]
    ensures NonBlank(JsonTokens(gloss, rejects, Some(JoinPipe(ts)))) == ts
  {
    PayloadPipeDelimited(ts);
    PipePayloadScansNothing(ts);
    NonBlankOfWords(ts);
  }

  /**
   * A JSON array of non-blank, quote-free strings hands the builder exactly those strings,
   * in order, as long as building from them does not throw.
   */
  lemma JsonPayloadTokens(gloss: Option<GlossMap>, rejects: PathCheck, ts: seq<string>)
    requires ts != []
    requires forall k :: 0 <= k < |ts| ==> !Blank(ts[k]) && '"' !in ts[k]
    requires !BuildThrows(gloss, rejects, ts)
    ensures NonBlank(JsonTokens(gloss, rejects, Some(EncodeJsonArray(ts)))) == ts
  {
    assert forall k :: 0 <= k < |ts| ==> ts[k] != [];
    PayloadJsonArray(ts);
    ScanJsonRoundTrip(ts);
    NonBlankOfNonBlank(ts);
  }

  lemma {:induction false} NonBlankOfNonBlank(ts: seq<string>)
    requires forall k :: 0 <= k < |ts| ==> !Blank(ts[k])
    ensures NonBlank(ts) == ts
    decreases |ts|
  {
    if ts != [] {
      NonBlankOfNonBlank(ts[1..]);
    }
  }

  /** The segment of a token, in terms of what the loader returns for its resolved file. */
  lemma SegmentOfLoaded(gloss: Option<GlossMap>, load: ClipLoader, hold: nat, tk: string, file: string)
    requires ResolveFile(gloss, tk) == Some(file)
    ensures var f := load(file);
      Segment(gloss, load, hold, tk) ==
        if f.Some? && |f.value| > 0 then f.value + Repeat(f.value[|f.value| - 1], hold) else []
  {
  }

  /** Building one more token of the list appends that token's segment. */
  lemma SequencePrefixStep(gloss: Option<GlossMap>, load: ClipLoader, hold: nat, tokens: seq<string>, i: nat)
    requires i < |tokens|
    ensures Sequence(gloss, load, hold, tokens[..i + 1]) == Sequence(gloss, load, hold, tokens[..i]) + Segment(gloss, load, hold, tokens[i])
  {
    SequenceSnoc(gloss, load, hold, tokens[..i], tokens[i]);
    assert tokens[..i + 1] == tokens[..i] + [tokens[i]];
  }

  // ----- the component -----------------------------------------------------------------------

  class CsvRetargetPlayer {
    /** The channel-to-bone bindings. */
    const bindings: seq<RetargetBinding>
    /** Gain on the hand channels. */
    var handGain: real
    /** Smoothing of the face channels; `0` turns it off. */
    var faceSmooth: real
    /** `Mathf.RoundToInt(interTokenHoldSeconds * fps)`, before it is clamped at zero. */
    var holdTicks: int

    /** `_sequenceFrames`: the frames being played, or `None` when nothing is loaded. */
    var sequenceFrames: Option<seq<Frame>>
    /** `_seqFrame`: the index of the next frame to play. */
    var seqFrame: nat
    /** `_prevFace`: the working frame's first 411 channels as of the last smoothed tick. */
    var prevFace: array<real>
    /** `_bind`: each bound bone's rotation as captured by `Start`. */
    var bind: map<Bone, Rotation>
    /** `_prevEuler`: the last smoothed angles of each bone. */
    var prevEuler: map<Bone, Vec3>
    /** The bones' local rotations, as the scene holds them. */
    var pose: map<Bone, Rotation>

    /** The face buffer is 411 wide, and `_bind` holds exactly the bound bones, all in the scene. */
    ghost predicate Valid()
      reads this
    {
      && prevFace.Length == FaceEnd
      && bind.Keys == BoundBones(bindings)
      && BoundBones(bindings) <= pose.Keys
    }

    /**
     * `Start`: captures the current rotation of every bound bone into `_bind`, zeroes its
     * `_prevEuler` entry and allocates a zeroed `_prevFace`; nothing is playing yet.
     */
    constructor Start(bindings: seq<RetargetBinding>, handGain: real, faceSmooth: real, holdTicks: int,
                      scene: map<Bone, Rotation>)
      requires BoundBones(bindings) <= scene.Keys
      ensures Valid()
      ensures this.bindings == bindings && this.handGain == handGain
      ensures this.faceSmooth == faceSmooth && this.holdTicks == holdTicks
      ensures forall x :: x in bind ==> bind[x] == scene[x]
      ensures prevEuler.Keys == BoundBones(bindings)
      ensures forall x :: x in prevEuler ==> prevEuler[x] == Zero
      ensures fresh(prevFace) && forall i :: 0 <= i < prevFace.Length ==> prevFace[i] == 0.0
      ensures sequenceFrames == None && seqFrame == 0 && pose == scene
    {
      var captured: map<Bone, Rotation> := map[];
      var zeroed: map<Bone, Vec3> := map[];
      for i := 0 to |bindings|
        invariant captured.Keys == BoundBones(bindings[..i]) && zeroed.Keys == BoundBones(bindings[..i])
        invariant forall x :: x in captured ==> x in scene && captured[x] == scene[x]
        invariant forall x :: x in zeroed ==> zeroed[x] == Zero
      {
        BoundBonesPrefix(bindings, i);
        if bindings[i].bone.Some? {
          var bone := bindings[i].bone.value;
          captured := captured[bone := scene[bone]];
          zeroed := zeroed[bone := Zero];
        }
      }
      assert bindings[..|bindings|] == bindings;
      this.bindings := bindings;
      this.handGain := handGain;
      this.faceSmooth := faceSmooth;
      this.holdTicks := holdTicks;
      sequenceFrames := None;
      seqFrame := 0;
      prevFace := new real[FaceEnd](_ => 0.0);
      bind := captured;
      prevEuler := zeroed;
      pose := scene;
    }

    /** `Play`: rewinds the cursor; the sequence, if any, stays as it is. */
    method Play()
      modifies this`seqFrame
      ensures seqFrame == 0
    {
      seqFrame := 0;
    }

    /** `Pause`: drops the sequence; the cursor stays where it was. */
    method Pause()
      modifies this`sequenceFrames
      ensures sequenceFrames == None
    {
      sequenceFrames := None;
    }

    /**
     * `ResetPose`: drops the sequence, rewinds the cursor and puts every bone of `_bind` back
     * to its captured rotation; every other bone keeps its rotation.
     */
    method ResetPose()
      requires Valid()
      modifies this`sequenceFrames, this`seqFrame, this`pose
      ensures Valid()
      ensures sequenceFrames == None && seqFrame == 0
      ensures pose.Keys == old(pose).Keys
      ensures forall x :: x in bind ==> pose[x] == bind[x]
      ensures forall x :: x in old(pose) && x !in bind ==> pose[x] == old(pose)[x]
    {
      sequenceFrames := None;
      seqFrame := 0;
      var todo := bind.Keys;
      while todo != {}
        invariant sequenceFrames == None && seqFrame == 0
        invariant todo <= bind.Keys
        invariant pose.Keys == old(pose).Keys
        invariant forall x :: x in bind && x !in todo ==> pose[x] == bind[x]
        invariant forall x :: x in old(pose) && (x !in bind || x in todo) ==> pose[x] == old(pose)[x]
        decreases |todo|
      {
        var x :| x in todo;
        pose := pose[x := bind[x]];
        todo := todo - {x};
      }
    }

    /**
     * `BuildSequenceFromTokensEnumerable`, with the gloss table and the clip loader as
     * parameters. `ok` is false when a token resolves to a null file or to a name the path
     * check refuses: `Path.Combine` throws and the sequence is kept. Otherwise the new sequence is `Sequence` of the tokens under
     * the loaded map and the hold count `Mathf.Max(0, holdTicks)`.
     */
    method BuildSequence(tokens: seq<string>, entries: Option<seq<Entry>>, load: ClipLoader, rejects: PathCheck)
      returns (ok: bool)
      modifies this`sequenceFrames
      ensures ok <==> !BuildThrows(LoadGlossMap(entries), rejects, tokens)
      ensures ok ==> sequenceFrames == Some(Sequence(LoadGlossMap(entries), load, HoldFrames(holdTicks), tokens))
      ensures !ok ==> sequenceFrames == old(sequenceFrames)
    {
      var gloss := LoadGlossMap(entries);
      var hold := if holdTicks > 0 then holdTicks else 0;
      var list;
      ok, list := BuildList(gloss, load, rejects, hold, tokens);
      if ok {
        sequenceFrames := Some(list);
      }
    }

    /**
     * The token loop of the builder: `ok` is false as soon as a token resolves to a null
     * file; otherwise `list` is the sequence of all the tokens' segments.
     */
    static method BuildList(gloss: Option<GlossMap>, load: ClipLoader, rejects: PathCheck, hold: nat, tokens: seq<string>)
      returns (ok: bool, list: seq<Frame>)
      ensures ok <==> !BuildThrows(gloss, rejects, tokens)
      ensures ok ==> list == Sequence(gloss, load, hold, tokens)
    {
      list := [];
      for i := 0 to |tokens|
        invariant list == Sequence(gloss, load, hold, tokens[..i])
        invariant forall k :: 0 <= k < i ==> !CombineThrows(rejects, ResolveFile(gloss, tokens[k]))
      {
        var tk := tokens[i];
        var file := LookUpFile(gloss, tk);
        if file.None? || rejects(file.value) {
          assert CombineThrows(rejects, ResolveFile(gloss, tokens[i]));
          return false, list;
        }
        list := AppendToken(gloss, load, hold, list, tk, file.value);
        SequencePrefixStep(gloss, load, hold, tokens, i);
      }
      assert tokens[..|tokens|] == tokens;
      ok := true;
    }

    /** One pass of the token loop for a token that resolves to `file`: its clip and hold frames, if any. */
    static method AppendToken(gloss: Option<GlossMap>, load: ClipLoader, hold: nat, list: seq<Frame>, tk: string, file: string)
      returns (r: seq<Frame>)
      requires ResolveFile(gloss, tk) == Some(file)
      ensures r == list + Segment(gloss, load, hold, tk)
    {
      var f := load(file);
      SegmentOfLoaded(gloss, load, hold, tk, file);
      if f.Some? && |f.value| > 0 {
        r := AppendClip(list, f.value, hold);
      } else {
        r := list;
      }
    }

    /** The file lookup of the builder: the mapped path, or else the default file name. */
    static method LookUpFile(gloss: Option<GlossMap>, tk: string) returns (file: Option<string>)
      ensures file == ResolveFile(gloss, tk)
    {
      if gloss.Some? && tk in gloss.value {
        file := gloss.value[tk];
      } else {
        file := Some(tk + "_normalized.csv");
      }
    }

    /** `list.AddRange(f)` followed by `hold` copies of `f`'s last frame. */
    static method AppendClip(list: seq<Frame>, clip: seq<Frame>, hold: nat) returns (r: seq<Frame>)
      requires clip != []
      ensures r == list + clip + Repeat(clip[|clip| - 1], hold)
    {
      r := list + clip;
      if hold > 0 {
        var last := clip[|clip| - 1];
        for j := 0 to hold
          invariant r == list + clip + Repeat(last, j)
        {
          assert Repeat(last, j + 1) == Repeat(last, j) + [last];
          r := r + [last];
        }
      } else {
        assert Repeat(clip[|clip| - 1], hold) == [];
      }
    }

    /**
     * `PlayTokens`: a missing or empty token array changes nothing; otherwise the sequence is
     * rebuilt from the non-blank tokens and the cursor rewound. `ok` is false when the build
     * throws; the call then changes nothing.
     */
    method PlayTokens(tokens: Option<seq<string>>, entries: Option<seq<Entry>>, load: ClipLoader, rejects: PathCheck)
      returns (ok: bool)
      modifies this`sequenceFrames, this`seqFrame
      ensures tokens.None? || tokens.value == [] ==>
        ok && sequenceFrames == old(sequenceFrames) && seqFrame == old(seqFrame)
      ensures tokens.Some? && tokens.value != [] ==>
        (ok <==> !BuildThrows(LoadGlossMap(entries), rejects, NonBlank(tokens.value)))
      ensures tokens.Some? && tokens.value != [] && ok ==>
        && sequenceFrames == Some(Sequence(LoadGlossMap(entries), load, HoldFrames(holdTicks), NonBlank(tokens.value)))
        && seqFrame == 0
      ensures !ok ==> sequenceFrames == old(sequenceFrames) && seqFrame == old(seqFrame)
    {
      if tokens.None? || |tokens.value| == 0 {
        return true;
      }
      ok := BuildSequence(NonBlank(tokens.value), entries, load, rejects);
      if ok {
        seqFrame := 0;
      }
    }

    /**
     * `PlayTokensJson`: plays the quoted tokens of a JSON-like array, or else the delimiter
     * split of the payload (`JsonTokens`), and rewinds the cursor. When the final token list
     * is empty the previous sequence is kept. `ok` is false when building from the split
     * throws too; the exception then leaves the call and nothing has changed.
     */
    method PlayTokensJson(payload: Option<string>, entries: Option<seq<Entry>>, load: ClipLoader, rejects: PathCheck)
      returns (ok: bool)
      modifies this`sequenceFrames, this`seqFrame
      ensures var ts := JsonTokens(LoadGlossMap(entries), rejects, payload);
        ok <==> ts == [] || !BuildThrows(LoadGlossMap(entries), rejects, NonBlank(ts))
      ensures ok ==> seqFrame == 0
      ensures ok && JsonTokens(LoadGlossMap(entries), rejects, payload) == [] ==> sequenceFrames == old(sequenceFrames)
      ensures var ts := JsonTokens(LoadGlossMap(entries), rejects, payload);
        ok && ts != [] ==> sequenceFrames == Some(Sequence(LoadGlossMap(entries), load, HoldFrames(holdTicks), NonBlank(ts)))
      ensures !ok ==> sequenceFrames == old(sequenceFrames) && seqFrame == old(seqFrame)
    {
      var arr := MiniJsonToStrings(payload);
      if arr.Some? && |arr.value| > 0 {
        ok := PlayTokens(arr, entries, load, rejects);
        if ok {
          Play();
          return;
        }
      }
      var toks := SplitDelimited(if payload.None? then "" else payload.value);
      ok := PlayTokens(Some(toks), entries, load, rejects);
      if ok {
        Play();
      }
    }

    /**
     * `Tick`: advances the playback state by `Step`; when it renders, it builds the working
     * frame from a copy of the current frame, saves its first 411 channels as `_prevFace` when
     * face smoothing is on, and runs the binding loop over `_prevEuler` and the bones.
     */
    method Tick()
      requires Valid()
      requires Renders(Playback(sequenceFrames, seqFrame)) ==>
        var src := sequenceFrames.value[seqFrame];
        ChannelsFit(src, faceSmooth) && AllReach(src, bindings)
      modifies this`sequenceFrames, this`seqFrame, this`prevEuler, this`pose, prevFace
      ensures Valid()
      ensures Playback(sequenceFrames, seqFrame) == Step(old(Playback(sequenceFrames, seqFrame)))
      ensures !old(Renders(Playback(sequenceFrames, seqFrame))) ==>
        prevEuler == old(prevEuler) && pose == old(pose) && prevFace[..] == old(prevFace[..])
      ensures old(Renders(Playback(sequenceFrames, seqFrame))) ==>
        var w := WorkingFrame(old(sequenceFrames.value[seqFrame]), handGain, faceSmooth, old(prevFace[..]));
        && BoneState(prevEuler, pose) == ApplyBindings(w, bindings, bind, old(BoneState(prevEuler, pose)))
        && prevFace[..] == if faceSmooth > 0.0 then w[..FaceEnd] else old(prevFace[..])
    {
      if sequenceFrames.None? || |sequenceFrames.value| == 0 {
        return;
      }
      if seqFrame >= |sequenceFrames.value| {
        sequenceFrames := None;
        return;
      }
      var src := sequenceFrames.value[seqFrame];
      var w := WorkOn(src);
      RunBindings(w);
      seqFrame := seqFrame + 1;
    }

    /**
     * The channel part of `Tick`: a copy of `src` with the hand groups scaled and, when
     * smoothing is on, the face group interpolated and the first 411 channels saved to
     * `_prevFace`.
     */
    method WorkOn(src: Frame) returns (w: Frame)
      requires prevFace.Length == FaceEnd && ChannelsFit(src, faceSmooth)
      modifies prevFace
      ensures w == WorkingFrame(src, handGain, faceSmooth, old(prevFace[..]))
      ensures prevFace[..] == if faceSmooth > 0.0 then w[..FaceEnd] else old(prevFace[..])
    {
      var f := new real[|src|](i requires 0 <= i < |src| => src[i]);
      ghost var prev := prevFace[..];
      ScaleGroup(f, HandStart, 162, handGain);
      ScaleGroup(f, 162, FaceStart, handGain);
      ghost var h := f[..];
      assert forall j :: 0 <= j < |h| ==> h[j] == if HandStart <= j < FaceStart then src[j] * handGain else src[j];
      if faceSmooth > 0.0 {
        SmoothFaceGroup(f, prevFace, 1.0 - faceSmooth);
        forall i | 0 <= i < FaceEnd {
          prevFace[i] := f[i];
        }
      }
      w := f[..];
      assert forall j :: FaceStart <= j < FaceEnd && j < |src| ==>
        w[j] == if faceSmooth > 0.0 then Lerp(prev[j], src[j], 1.0 - faceSmooth) else src[j];
      WorkingFrameOfChannels(src, handGain, faceSmooth, prev, w);
    }

    /** `for (int i = lo; i < hi; i++) f[i] *= gain;` */
    static method ScaleGroup(f: array<real>, lo: nat, hi: nat, gain: real)
      requires lo <= hi <= f.Length
      modifies f
      ensures forall j :: 0 <= j < f.Length ==> f[j] == if lo <= j < hi then old(f[j]) * gain else old(f[j])
    {
      for i := lo to hi
        invariant forall j :: 0 <= j < f.Length ==> f[j] == if lo <= j < i then old(f[j]) * gain else old(f[j])
      {
        f[i] := f[i] * gain;
      }
    }

    /** `for (int i = 225; i < 411; i++) f[i] = Mathf.Lerp(_prevFace[i], f[i], a);` */
    static method SmoothFaceGroup(f: array<real>, prev: array<real>, a: real)
      requires f != prev && prev.Length == FaceEnd && f.Length >= FaceEnd
      modifies f
      ensures forall j :: 0 <= j < f.Length ==>
        f[j] == if FaceStart <= j < FaceEnd then Lerp(prev[j], old(f[j]), a) else old(f[j])
    {
      for i := FaceStart to FaceEnd
        invariant forall j :: 0 <= j < f.Length ==>
          f[j] == if FaceStart <= j < i then Lerp(prev[j], old(f[j]), a) else old(f[j])
      {
        f[i] := Lerp(prev[i], f[i], a);
      }
    }

    /** The binding loop of `Tick`, on the working frame `w`. */
    method RunBindings(w: Frame)
      requires AllReach(w, bindings) && BoundBones(bindings) <= pose.Keys
      modifies this`prevEuler, this`pose
      ensures pose.Keys == old(pose).Keys
      ensures BoneState(prevEuler, pose) == ApplyBindings(w, bindings, bind, old(BoneState(prevEuler, pose)))
    {
      for k := 0 to |bindings|
        invariant pose.Keys == old(pose).Keys
        invariant ApplyBindings(w, bindings[k..], bind, BoneState(prevEuler, pose))
          == ApplyBindings(w, bindings, bind, old(BoneState(prevEuler, pose)))
      {
        BoundBonesSuffix(bindings, k);
        BoundBonesSuffix(bindings, k + 1);
        assert bindings[k..][0] == bindings[k] && bindings[k..][1..] == bindings[k + 1..];
        assert bindings[k].bone.Some? ==> bindings[k].bone.value in BoundBones(bindings);
        ApplyOne(w, bindings[k]);
      }
    }

    /** One pass of the binding loop of `Tick`, for binding `b`. */
    method ApplyOne(w: Frame, b: RetargetBinding)
      requires b.bone.Some? ==> Reaches(w, b) && b.bone.value in pose
      modifies this`prevEuler, this`pose
      ensures BoneState(prevEuler, pose) == ApplyBinding(w, b, bind, old(BoneState(prevEuler, pose)))
    {
      if b.bone.None? {
        return;
      }
      ghost var st := BoneState(prevEuler, pose);
      var bone := b.bone.value;
      var s := StartChannel(b.startIndex);
      var x := w[s] * b.scale.x + b.addOffset.x;
      var y := w[s + 1] * b.scale.y + b.addOffset.y;
      var z := w[s + 2] * b.scale.z + b.addOffset.z;
      x := Clamp(x, -b.clampDeg.x, b.clampDeg.x);
      y := Clamp(y, -b.clampDeg.y, b.clampDeg.y);
      z := Clamp(z, -b.clampDeg.z, b.clampDeg.z);
      assert Vec3(x, y, z) == TargetEuler(w, b);
      if b.smooth > 0.0 {
        var p := if bone in prevEuler then prevEuler[bone] else Zero;
        var a := 1.0 - b.smooth;
        x := Lerp(p.x, x, a);
        y := Lerp(p.y, y, a);
        z := Lerp(p.z, z, a);
        assert Vec3(x, y, z) == LerpVec(PrevEulerOf(st.prevEuler, bone), TargetEuler(w, b), a);
        prevEuler := prevEuler[bone := Vec3(x, y, z)];
      }
      assert Vec3(x, y, z) == BindingEuler(w, b, PrevEulerOf(st.prevEuler, bone));
      var delta := Euler(x, y, z);
      var base := if bone in bind then bind[bone] else pose[bone];
      pose := pose[bone := Product(base, delta)];
    }
  }
}
