# CsvRetargetPlayer, modelled in Dafny

`CsvRetargetPlayer` is a Unity component that drives an avatar's skeleton from
pre-computed clips. A clip is a CSV file with one row of channel values per tick.
The component does four things:

- It turns an incoming token string (a JSON-like array of glosses, or a `|`/`,`/space
  delimited list) into tokens.
- It resolves each token to a clip file through the `gloss2anim.json` table, falling back
  to `<token>_normalized.csv`.
- It concatenates the clips, holding each clip's last frame for `hold` extra ticks.
- On every tick it plays one frame: it scales the hand channels, smooths the face
  channels, and writes one rotation per binding to the bound bone.

The model has five modules, one file each:

- `wrappers.dfy` (`Wrappers`): `Option`, which stands for C# `null`.
- `tokens.dfy` (`Tokens`):
  - `MiniJsonToStrings`, a quoted-substring scan and not a JSON parser.
  - The delimiter split of `PlayTokensJson`.
  - The non-blank filter of `PlayTokens`.
  - `string.Trim` and `Char.IsWhiteSpace`.
- `clips.dfy` (`Clips`):
  - The line filter and field split of `LoadCsvSafe`.
  - The `ToDictionary` step of `LoadGloss2AnimMapSafe`.
  - The token-to-file rule.
  - `Sequence`, the function that says what `BuildSequenceFromTokensEnumerable` builds.
- `pose.dfy` (`Pose`):
  - `RetargetBinding`.
  - `Mathf.Clamp` and `Mathf.Lerp`.
  - The working frame of a tick.
  - The per-binding pose step and the binding loop, as functions.
- `player.dfy` (`Player`):
  - The playback lifecycle `Step`.
  - The class `CsvRetargetPlayer`. It has the component's fields, `Start` as its constructor, and the methods `BuildSequence`, `PlayTokens`, `PlayTokensJson`, `Play`, `Pause`, `ResetPose` and `Tick`. Each method is proved against the functions above.

Representation choices:

- Channel values are `real`.
- A frame is a `seq<real>`.
- `_prevFace` is an `array<real>` of 411 values.
- Bones are an opaque type.
- Bone rotations are a map from bone to `Rotation`, held by the component.
- A `Rotation` is a free term: `Euler(x, y, z)` for `Quaternion.Euler` and `Product(l, r)` for `l * r`. No law of quaternion algebra is assumed, so every statement about rotations holds for any reading of these two operations.
- File reading is a parameter:
  - a `ClipLoader` (file name to optional frames) for clips;
  - an optional entry list for the gloss table (`None` when the file is absent, or when JSON parsing fails or yields no `entries`).

Points where the code behaves in a way a reader might not expect, modelled as written:

- A binding's start index is clamped to the constant range `[0, 408]`, not to the frame length minus 3.
- `Pause` drops the sequence. `Play` only rewinds the cursor, so `Play` after `Pause` plays nothing (`StaysCleared`).
- Binding smoothing state (`_prevEuler`) is kept per bone, not per binding. Bindings on the same bone share it.
- On desktop builds, a malformed number in a clip makes `float.Parse` throw out of `LoadCsvSafe`. The clip is not simply skipped (see "Left out").
- A gloss entry may map a token to any path, including an empty one.
- A gloss record may lack its `key` or its `path`, which is then null. A null key makes `ToDictionary` throw, and the whole map is dropped. A null path is stored. A token mapped to it makes `Path.Combine` throw inside the builder before anything is stored. So does a file name holding a character the runtime refuses in a path (NUL everywhere; on Windows also `"`, `<`, `>`, `|` and 0x01–0x1F). Which characters those are depends on the runtime and the platform, so the model takes the check as a parameter `rejects` (`PathCheck`, in `Clips.CombineThrows`). A build throws exactly when some token's file is null or refused (`Clips.BuildThrows`). That exception leaves `PlayTokens` with the sequence and the cursor unchanged. In `PlayTokensJson` the `catch` around the scan branch sends the payload to the delimiter split, and a throw there leaves the call with nothing changed. The methods return `ok == false` for a throw.

## Model

| member | source | states |
|---|---|---|
| Tokens.IsWhiteSpace | Assets/Scripts/CsvRetargetPlayer.cs:93 | `Char.IsWhiteSpace`, the set `\s` also matches: the ASCII controls 9-13, space, U+0085 and the Unicode separators of category Z (a definition) |
| Tokens.Blank | Assets/Scripts/CsvRetargetPlayer.cs:93 | `string.IsNullOrWhiteSpace` of a non-null string: every character is white space (a definition) |
| Tokens.NullOrBlank | Assets/Scripts/CsvRetargetPlayer.cs:374 | `string.IsNullOrWhiteSpace` of a nullable string (a definition) |
| Tokens.Trim | Assets/Scripts/CsvRetargetPlayer.cs:375 | the trimmed string is empty exactly when the input is blank; otherwise it starts and ends with a non-blank, is a contiguous slice of the input, and everything cut off is white space |
| Tokens.Quoted | Assets/Scripts/CsvRetargetPlayer.cs:378-381 | every capture of the `"([^"]+)"` scan is non-empty and contains no `"` |
| Tokens.ScanJson | Assets/Scripts/CsvRetargetPlayer.cs:372-382 | what `MiniJsonToStrings` answers: null for null or blank input, and otherwise tokens that are each non-empty and quote-free |
| Tokens.MiniJsonToStrings | Assets/Scripts/CsvRetargetPlayer.cs:372-382 | null for null/blank input or when the trimmed input does not start with `[`; otherwise the captures of the trimmed input in order, each non-empty and quote-free |
| Tokens.ScanQuoted | Assets/Scripts/CsvRetargetPlayer.cs:377-381 | the match loop collects exactly the captures `Quoted` defines, left to right |
| Tokens.ScanJsonRoundTrip | Assets/Scripts/CsvRetargetPlayer.cs:372-382 | a JSON array of non-empty quote-free strings scans back to exactly those strings |
| Tokens.SplitDelimited | Assets/Scripts/CsvRetargetPlayer.cs:114-117 | every token of the split is non-empty and holds no `|`, `,` or white space |
| Tokens.SplitDelimitedKeepsOrder | Assets/Scripts/CsvRetargetPlayer.cs:114-117 | the tokens, concatenated, are the input with its delimiters deleted: nothing is lost or reordered |
| Tokens.SplitJoinPipe | Assets/Scripts/CsvRetargetPlayer.cs:114-117 | splitting words joined by `|` gives back the words |
| Tokens.NonBlank | Assets/Scripts/CsvRetargetPlayer.cs:93 | the filter keeps no blank token, drops no non-blank one and adds nothing |
| Tokens.NonBlankAppend | Assets/Scripts/CsvRetargetPlayer.cs:93 | the filter keeps token order: filtering a concatenation is concatenating the filtered halves |
| Tokens.NonBlankCount | Assets/Scripts/CsvRetargetPlayer.cs:93 | each non-blank token occurs in the result exactly as often as in the input, and no blank token occurs |
| Tokens.NonBlankOfWords | Assets/Scripts/CsvRetargetPlayer.cs:93 | the filter leaves the output of the delimiter split as it is |
| Tokens.PayloadTokens | Assets/Scripts/CsvRetargetPlayer.cs:104-117 | the list `PlayTokensJson` chooses (the scan's tokens when there is at least one, the delimiter split otherwise) holds no empty token |
| Tokens.PayloadJsonArray | Assets/Scripts/CsvRetargetPlayer.cs:104-108 | a non-empty JSON array payload takes the scan branch and yields its elements |
| Tokens.PipePayloadScansNothing | Assets/Scripts/CsvRetargetPlayer.cs:104-105 | the quoted scan finds no token in a `|`-joined payload without `"`, so `PlayTokensJson` goes to the split |
| Tokens.PayloadPipeDelimited | Assets/Scripts/CsvRetargetPlayer.cs:114-118 | a `|`-joined payload of quote-free words takes the split branch and yields its words |
| Clips.DataLines | Assets/Scripts/CsvRetargetPlayer.cs:285-287 | the filtered lines are all data lines (neither blank nor starting with `#`) and every data line of the file is kept |
| Clips.DataLinesCount | Assets/Scripts/CsvRetargetPlayer.cs:285-287 | each data line occurs in the result exactly as often as in the file, and no other line occurs: none is added or lost |
| Clips.DataLinesAppend | Assets/Scripts/CsvRetargetPlayer.cs:285-287 | the filter keeps file order: filtering a concatenation is concatenating the filtered halves |
| Clips.SplitFields | Assets/Scripts/CsvRetargetPlayer.cs:296 | `Split(',')` gives one more field than the line has commas, and no field holds a comma |
| Clips.JoinSplitFields | Assets/Scripts/CsvRetargetPlayer.cs:296 | the fields joined with `,` give the line back |
| Clips.DecodeCsv | Assets/Scripts/CsvRetargetPlayer.cs:279-299 | null exactly when the file is missing or has no data line; otherwise one frame per data line, in file order, as wide as that line has fields, value `j` of frame `k` being `parse` of field `j` of data line `k` |
| Clips.ToDictionaryFrom | Assets/Scripts/CsvRetargetPlayer.cs:323 | `ToDictionary` over the entries, adding one entry at a time and failing on a null or repeated key; its contract is stated by `ToDictionaryFromSpec` |
| Clips.ToDictionaryFromSpec | Assets/Scripts/CsvRetargetPlayer.cs:323 | `ToDictionary` succeeds exactly when all keys are present and distinct, and then maps each key to its entry's path |
| Clips.LoadGlossMap | Assets/Scripts/CsvRetargetPlayer.cs:304-331 | the gloss map from the optional entry list; its contract is stated by `LoadGlossMapSpec` |
| Clips.LoadGlossMapSpec | Assets/Scripts/CsvRetargetPlayer.cs:304-331 | the map exists exactly when the table was read and its keys are present and distinct; it then holds exactly the table's keys, each mapped to its path |
| Clips.ResolveFile | Assets/Scripts/CsvRetargetPlayer.cs:192-202 | the mapped path, possibly null, when the map exists and holds the token; `<token>_normalized.csv` otherwise, so with no map every token takes the default name |
| Clips.NullFileIffNullPath | Assets/Scripts/CsvRetargetPlayer.cs:192-204 | under a loaded table a token resolves to a null file exactly when a record with that key has a null path; without a table no token does |
| Clips.DefaultFileNamesDistinct | Assets/Scripts/CsvRetargetPlayer.cs:200 | distinct unmapped tokens never share a default file |
| Clips.SegmentShape | Assets/Scripts/CsvRetargetPlayer.cs:205-220 | a token with a missing or empty clip contributes nothing; otherwise its clip's frames in order, then exactly `hold` copies of the last one |
| Clips.Sequence | Assets/Scripts/CsvRetargetPlayer.cs:190-223 | the frames the token loop appends, token by token; its contract is stated by `SequenceLength`, `SequenceAppend`, `SequenceSegmentAt` and `SkippedTokenIgnored` |
| Clips.SequenceLength | Assets/Scripts/CsvRetargetPlayer.cs:190-223 | the sequence is as long as the sum of `clip length + hold` over the usable tokens |
| Clips.SequenceAppend | Assets/Scripts/CsvRetargetPlayer.cs:190-223 | building distributes over concatenation of token lists |
| Clips.SequenceSegmentAt | Assets/Scripts/CsvRetargetPlayer.cs:190-223 | the `j`-th token's segment sits between those of the tokens before and after it |
| Clips.SkippedTokenIgnored | Assets/Scripts/CsvRetargetPlayer.cs:206-210 | a token whose clip is missing or empty can be removed without changing the sequence |
| Clips.SkippedIffNoDataLines | Assets/Scripts/CsvRetargetPlayer.cs:205-210 | with clips read from CSV files, a token that resolves to a file is skipped exactly when that file is missing or has only blank and `#` lines |
| Pose.Clamp | Assets/Scripts/CsvRetargetPlayer.cs:160-162 | `Mathf.Clamp`: within the bounds when they are ordered, the value itself when already within, the bound it passed otherwise |
| Pose.Lerp | Assets/Scripts/CsvRetargetPlayer.cs:141 | `Mathf.Lerp`: between its endpoints, the first at `t <= 0`, the second at `t >= 1` |
| Pose.WorkingFrame | Assets/Scripts/CsvRetargetPlayer.cs:132-143 | hand channels `[99,225)` are the source times `handGain`; face channels `[225,411)` that the frame has are `Lerp(prevFace, source, 1 - faceSmooth)` when `faceSmooth > 0` and the source otherwise; all other channels are the source; it needs 225 channels, and 411 when smoothing the face |
| Pose.StartChannel | Assets/Scripts/CsvRetargetPlayer.cs:155 | the clamped start lies in `[0, 408]` (so `s + 2 < 411`) and equals the start index when that is already inside |
| Pose.TargetEuler | Assets/Scripts/CsvRetargetPlayer.cs:156-162 | every axis lies within `±clampDeg` when the bounds are non-negative, and equals `scale * raw + offset` when that is already within |
| Pose.BindingEuler | Assets/Scripts/CsvRetargetPlayer.cs:164-170 | with `smooth <= 0` the angles are the clamped target; with `smooth >= 1` the previous angles; they stay within `±clampDeg` when the previous angles did |
| Pose.ApplyBinding | Assets/Scripts/CsvRetargetPlayer.cs:153-176 | a binding without a bone changes nothing; otherwise exactly its bone's rotation becomes `base * Euler(e)`, with `e` the `BindingEuler` angles from the bone's `_prevEuler` (zero if absent) and `base` the captured rotation (the current one if none), and `_prevEuler` records `e` for that bone only when `smooth > 0` |
| Pose.ApplyBindings | Assets/Scripts/CsvRetargetPlayer.cs:151-177 | the binding loop keeps the set of bones with a rotation |
| Pose.UnboundBoneUntouched | Assets/Scripts/CsvRetargetPlayer.cs:151-177 | a bone no binding names keeps its rotation and its `_prevEuler` entry |
| Pose.UnsmoothedBoneKeepsState | Assets/Scripts/CsvRetargetPlayer.cs:164-172 | a bone whose bindings all have `smooth <= 0` keeps its `_prevEuler` entry |
| Pose.BoundBoneComposedOnBind | Assets/Scripts/CsvRetargetPlayer.cs:151-177 | the bone of the last binding that names it ends the loop as `base * Euler(e)`, with `e` the angles that binding computes from the smoothing state the earlier bindings left and `base` the captured rotation (else the rotation before that binding); `_prevEuler` holds `e` when that binding smooths |
| Pose.WrittenAnglesWithinClamp | Assets/Scripts/CsvRetargetPlayer.cs:155-176 | with `smooth <= 0` the last binding on a captured bone leaves `bind[bone] * Euler(t)`, `t` its clamped target angles, which lie within `±clampDeg` when the bounds are non-negative |
| Player.Step | Assets/Scripts/CsvRetargetPlayer.cs:124-179 | a rendering tick moves the cursor on by exactly one frame and keeps the sequence; a tick that renders nothing keeps the cursor and leaves a state that renders nothing; the sequence is never replaced, only dropped; a tick past the end of a non-empty sequence drops it and keeps the cursor; a tick with no sequence or an empty one changes nothing |
| Player.PlaysInOrder | Assets/Scripts/CsvRetargetPlayer.cs:126-132 | ticks move the cursor one frame at a time through the sequence without skipping |
| Player.StaysCleared | Assets/Scripts/CsvRetargetPlayer.cs:124 | with no sequence, ticks change nothing and render nothing, so `Play` after `Pause` is idle |
| Player.EmptyNeverCleared | Assets/Scripts/CsvRetargetPlayer.cs:124 | an empty sequence is never dropped and never renders |
| Player.PlaybackLifecycle | Assets/Scripts/CsvRetargetPlayer.cs:124-130 | from cursor 0 a length-n sequence renders on exactly the first n ticks, frame k on tick k+1, and is dropped on tick n+1 |
| Player.HoldFrames | Assets/Scripts/CsvRetargetPlayer.cs:186 | the hold count is never negative, and equals the rounded count when that is not negative |
| Player.JsonTokens | Assets/Scripts/CsvRetargetPlayer.cs:100-119 | the tokens `PlayTokensJson` finally builds from: the scan-or-split choice `PayloadTokens` unless the scan branch's build throws (`BuildThrows`), then the split; always `PayloadTokens` without a gloss table under a path check that refuses nothing |
| Player.PipePayloadTokens | Assets/Scripts/CsvRetargetPlayer.cs:104-118 | a `|`-delimited payload of quote-free words hands the builder exactly those words in order, under any gloss table and path check; whether that build throws is `BuildThrows` of those words |
| Player.JsonPayloadTokens | Assets/Scripts/CsvRetargetPlayer.cs:104-108 | a JSON array of non-blank quote-free strings whose build does not throw hands the builder exactly those strings in order |
| Player.CsvRetargetPlayer.Start | Assets/Scripts/CsvRetargetPlayer.cs:52-65 | captures each bound bone's rotation in `_bind`, zeroes its `_prevEuler`, allocates a zeroed 411-value `_prevFace`; nothing plays |
| Player.CsvRetargetPlayer.Play | Assets/Scripts/CsvRetargetPlayer.cs:360-364 | rewinds the cursor and changes nothing else |
| Player.CsvRetargetPlayer.Pause | Assets/Scripts/CsvRetargetPlayer.cs:366-370 | drops the sequence and changes nothing else |
| Player.CsvRetargetPlayer.ResetPose | Assets/Scripts/CsvRetargetPlayer.cs:349-358 | drops the sequence, rewinds the cursor, restores every bone of `_bind` to its captured rotation and leaves every other bone as it was |
| Player.CsvRetargetPlayer.BuildSequence | Assets/Scripts/CsvRetargetPlayer.cs:182-225 | throws (`ok` false, sequence kept) exactly when some token resolves to a null file or to a name the path check refuses (`BuildThrows`); otherwise the new sequence is `Sequence` of the tokens under the loaded gloss map and `max(0, holdTicks)`, never null |
| Player.CsvRetargetPlayer.BuildList | Assets/Scripts/CsvRetargetPlayer.cs:190-222 | the token loop fails exactly when some token resolves to a null file or to a refused name, and otherwise yields `Sequence` of the tokens |
| Player.CsvRetargetPlayer.LookUpFile | Assets/Scripts/CsvRetargetPlayer.cs:194-202 | the lookup computes `ResolveFile`: the mapped path, or the default file name |
| Player.CsvRetargetPlayer.AppendToken | Assets/Scripts/CsvRetargetPlayer.cs:204-220 | one pass for a token with a file appends exactly that token's `Segment` |
| Player.CsvRetargetPlayer.AppendClip | Assets/Scripts/CsvRetargetPlayer.cs:214-220 | appends the clip, then `hold` copies of its last frame |
| Player.CsvRetargetPlayer.PlayTokens | Assets/Scripts/CsvRetargetPlayer.cs:85-98 | a null or empty token array changes nothing; otherwise the call throws exactly when `BuildThrows` holds of the non-blank tokens (then nothing changes), and if not the sequence is rebuilt from the non-blank tokens and the cursor is 0 |
| Player.CsvRetargetPlayer.PlayTokensJson | Assets/Scripts/CsvRetargetPlayer.cs:100-120 | builds from `JsonTokens`: the cursor is 0 and the sequence is rebuilt from those tokens, or kept when they are empty; when the split's build throws too, the call throws and nothing changes |
| Player.CsvRetargetPlayer.Tick | Assets/Scripts/CsvRetargetPlayer.cs:122-180 | on any frame the channel loops and bindings can read (225 channels, 411 with face smoothing, and every bound triplet inside the frame), the playback state moves by `Step`; a rendering tick writes the binding loop's result over the working frame and saves the working frame's first 411 channels to `_prevFace` when face smoothing is on; a tick that renders nothing writes no bone and no smoothing state |
| Player.CsvRetargetPlayer.WorkOn | Assets/Scripts/CsvRetargetPlayer.cs:132-143 | the working copy is `WorkingFrame` of the current frame; `_prevFace` becomes its first 411 channels when `faceSmooth > 0` and is untouched otherwise |
| Player.CsvRetargetPlayer.ScaleGroup | Assets/Scripts/CsvRetargetPlayer.cs:134-135 | multiplies exactly the channels of one range by the gain |
| Player.CsvRetargetPlayer.SmoothFaceGroup | Assets/Scripts/CsvRetargetPlayer.cs:139-141 | interpolates exactly the face channels against `_prevFace` |
| Player.CsvRetargetPlayer.RunBindings | Assets/Scripts/CsvRetargetPlayer.cs:151-177 | the `foreach` over the bindings computes `ApplyBindings` |
| Player.CsvRetargetPlayer.ApplyOne | Assets/Scripts/CsvRetargetPlayer.cs:153-176 | one pass of the loop body computes `ApplyBinding` |

## Left out

- File and resource I/O. This covers `File.Exists`, `File.ReadAllLines`, `File.ReadAllText`, the Android `UnityWebRequest` branch of `LoadCsvSafe` with its busy wait, and `JsonUtility.FromJson`. Each is a parameter: the clip loader, or the optional gloss entry list. The Android branch's `\n`/`\r` line split is not modelled; the desktop branch is.
- The set of characters `Path.Combine` refuses is the parameter `rejects`, not a fixed list, because it differs between runtimes and platforms. `BaseDir` (the streaming-assets path) is taken to be a valid path.
- `float.Parse` is a total parameter `parse`. On desktop a malformed field throws out of `LoadCsvSafe` and `BuildSequenceFromTokensEnumerable`. Inside `PlayTokensJson` the `catch` then sends control to the delimiter split of the raw payload. Neither exception path is modelled.
- `Mathf.RoundToInt(interTokenHoldSeconds * fps)` is the integer field `holdTicks`. Float rounding of channel values, clamping and interpolation is not modelled: all arithmetic is on reals.
- Quaternion algebra. `Quaternion.Euler` and `*` are uninterpreted constructors of `Rotation`.
- Unity lifecycle and timing: `InvokeRepeating` and its period, `Application.targetFrameRate`, and the `Update` keyboard handler. `Tick` is a method the caller invokes.
- The debug sweep and every `Debug.Log*` call.
- `Assets/Scripts/AndroidBridge.cs` is not part of this model. It only forwards calls to the component.
- Unity's destroyed-object `null` checks on bones (`ResetPose`'s `kvp.Key != null`, a binding's bone destroyed after `Start`). Bones are always live identifiers here.
- Player.CsvRetargetPlayer.Tick: requires every channel the tick reads to exist. That means 225 channels, 411 when `faceSmooth > 0`, and the clamped triplet of every binding with a bone. On a frame missing one of them the source throws `IndexOutOfRangeException` part-way through the tick, after the earlier channel loops and bindings have run. That exception path is not modelled.
- Player.CsvRetargetPlayer.Tick: `_seqFrame` is an unbounded natural number. Its 32-bit overflow is not modelled.
- Aliasing of frame arrays. Frames are values, so the `Clone` calls at lines 95 and 132 need no counterpart. The model has no way to express a caller mutating a stored frame.
- `bindings`, `handGain`, `faceSmooth` and `holdTicks` can be edited in the Unity inspector at any time. The model takes them as fixed at `Start`, and no method changes them.
- `StartsWith("#")` and `StartsWith("[")` are culture-sensitive in .NET. Here they are modelled as a test of the first character. Culture-specific ignorable characters are not modelled.
