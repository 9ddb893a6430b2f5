# HumanoidDataPlayer in Dafny

A model of the Unity component `HumanoidDataPlayer`. It replays a recorded
humanoid motion on a rig in three steps:

- **Binding.** `Start` checks that the rig is a humanoid. It then binds the
  49 joints of the `targetBones` table to the transforms the rig has for them.
- **Loading.** If a CSV text is assigned, `ParseCSV` loads it into the
  frame list. Each data line has the form
  `frame, time, (rotX, rotY, rotZ, rotW, posX, posY, posZ) x 49`.
- **Playback.** Every `Update` tick advances the playback timer by
  `deltaTime * playbackSpeed`. Past the last frame, the timer wraps to the
  first frame or clamps to the last one. The cursor then scans forward to the
  latest frame not after the timer. Finally `ApplyFrame` writes that frame
  onto every bound joint.

The component is modelled as the class `Player.HumanoidDataPlayer`. Its fields
are the source's fields: the frame list is a `seq`, the bone dictionary is a
`map` from joint to `Transform` object, and the timer and cursor are plain
fields. Each method is proved against a specification function:

- `Csv.ParseRows` and `Csv.LoadText` specify the line loop.
- `Csv.ParseRow` specifies the body of one line.
- `Timeline.Advance` specifies one tick of the clock.
- `Player.Bound` specifies the binding loop.
- The predicate `Player.ShowsFrame` states what `ApplyFrame` leaves on the rig.

Properties of those functions are proved as lemmas. Examples:

- The load is an in-order filter that stops at the first line that throws.
- A line becomes a frame exactly when its columns parse.
- Looping wraps and non-looping clamps, and a clamp is absorbing.
- On sorted times, the cursor lands on the latest frame not after the timer.

Modules:

- `Wrappers`: `Option`.
- `Bones`: the joint enumeration and the `targetBones` table, with its distinctness.
- `Text`: .NET `String.Split` on a set of separator characters, with and without `RemoveEmptyEntries`.
- `Csv`: the frame record and the parse of a data line and of a whole text.
- `Timeline`: the playback clock.
- `Player`: the component.

The Unity engine is abstracted as follows:

- The float parser (`float.TryParse`/`float.Parse` with the invariant culture) is a parameter `string -> Option<real>`.
- The rig lookup `Animator.GetBoneTransform` is a parameter `Bone -> Option<Transform>`.
- `Time.deltaTime` is a parameter of `Update`.
- The Animator's humanoid check is a boolean parameter of `Start`.
- The `TextAsset` is an `Option<string>`.
- What the component logs becomes a `LoadStatus` result.
- The exception `float.Parse` throws on a joint column becomes the `FormatException` status.

Three behaviours of the code are worth stating outright:

- **The wrap discards the overshoot.** After a wrap the timer restarts at the first frame's time. `Timeline.WrapExample` shows this: a 2.5 s tick over frames at 0, 1, 2 ends at timer 0, frame 0.
- **Extra columns are accepted.** A line with more than 2 + 7 * 49 tokens is read, and the extra columns are ignored (`Csv.ParseReadsOnlyLayoutColumns`).
- **A bad joint column ends the load.** A joint column that does not parse throws. The load stops, the frames read so far stay, and the timer is not set (`Csv.RowThrowsIff`, `Csv.AbortSticks`, `Player.HumanoidDataPlayer.ParseCSV`).

## Model

| member | source | states |
|---|---|---|
| Bones.TargetBonesDistinct | Assets/Script/HumanoidDataPlayer.cs:16-69 | the joint table has 49 entries, entry i is the joint of slot i, and no joint is listed twice |
| Text.Split | Assets/Script/HumanoidDataPlayer.cs:131 | splitting on separator characters gives one piece more than there are separators, and no piece holds a separator |
| Text.JoinSplit | Assets/Script/HumanoidDataPlayer.cs:131 | joining the comma split of a line with commas gives the line back: splitting loses nothing |
| Text.SplitJoin | Assets/Script/HumanoidDataPlayer.cs:131 | splitting pieces that hold no comma, after joining them with commas, gives the pieces back |
| Text.RemoveEmpty | Assets/Script/HumanoidDataPlayer.cs:120 | RemoveEmptyEntries keeps exactly the non-empty pieces: every kept piece is a non-empty input piece, and every non-empty input piece is kept |
| Text.RemoveEmptyAppend | Assets/Script/HumanoidDataPlayer.cs:120 | dropping empty pieces distributes over concatenation, so the kept pieces keep their order and repeats |
| Text.SplitFree | Assets/Script/HumanoidDataPlayer.cs:120 | a text without separators splits into itself alone |
| Text.SplitAtSeparator | Assets/Script/HumanoidDataPlayer.cs:120 | splitting cuts at every separator: the text on either side of one is split independently and the pieces are concatenated |
| Text.Lines | Assets/Script/HumanoidDataPlayer.cs:120 | every line of the text is non-empty and holds no '\n' or '\r' |
| Text.LinesOfBreakFree | Assets/Script/HumanoidDataPlayer.cs:120 | a text without line breaks is no line when empty and exactly one line otherwise |
| Text.LinesCutAtBreak | Assets/Script/HumanoidDataPlayer.cs:120 | the text is cut at every '\n' and '\r': the lines of a + [break] + b are the lines of a followed by the lines of b; with LinesOfBreakFree this fixes the lines of every text |
| Text.LinesKeepText | Assets/Script/HumanoidDataPlayer.cs:120 | the lines, glued back together, are exactly the text with its line breaks removed |
| Text.Tokens | Assets/Script/HumanoidDataPlayer.cs:131 | a line has one token more than it has commas, and no token holds a comma |
| Csv.ParseJoints | Assets/Script/HumanoidDataPlayer.cs:152-168 | when the joint columns parse, there is exactly one rotation and one position per joint |
| Csv.JointsParseIff | Assets/Script/HumanoidDataPlayer.cs:152-168 | joint parsing succeeds if and only if every column from 2 to 2 + 7n - 1 parses |
| Csv.JointColumnsLayout | Assets/Script/HumanoidDataPlayer.cs:154-166 | joint j's rotation is (x, y, z, w) from columns 2+7j .. 2+7j+3 and its position is (x, y, z) from columns 2+7j+4 .. 2+7j+6 |
| Csv.ParseTokens | Assets/Script/HumanoidDataPlayer.cs:148-169 | a frame a line yields has one rotation and one position per table joint |
| Csv.RowBecomesFrameIff | Assets/Script/HumanoidDataPlayer.cs:131-169 | a line yields a frame if and only if it has at least 2 + 7n tokens, its time column parses and every joint column parses; the frame's time is column 1 |
| Csv.RowThrowsIff | Assets/Script/HumanoidDataPlayer.cs:141-163 | a line throws if and only if it has enough tokens and its time parses but some joint column does not |
| Csv.ParseReadsOnlyLayoutColumns | Assets/Script/HumanoidDataPlayer.cs:131-169 | the result of a line depends only on columns 1 .. 2 + 7n - 1: column 0 and columns past the expected count are never read |
| Csv.ParseRows | Assets/Script/HumanoidDataPlayer.cs:128-170 | every frame a run of data lines appends has one slot per table joint |
| Csv.ParseRowsCollects | Assets/Script/HumanoidDataPlayer.cs:128-170 | reading the lines one at a time is folding their results in line order |
| Csv.CollectIsFilter | Assets/Script/HumanoidDataPlayer.cs:128-170 | the fold keeps exactly the frames of the results before the first throw, in order, and reports the throw when there is one |
| Csv.ParseRowsIsFilter | Assets/Script/HumanoidDataPlayer.cs:128-170 | the load keeps, in input line order and with nothing sorted or dropped, the frames of the lines before the first one that throws, and is aborted exactly when some line throws |
| Csv.AbortSticks | Assets/Script/HumanoidDataPlayer.cs:155-163 | once a line has thrown, no later line changes the load |
| Csv.LoadText | Assets/Script/HumanoidDataPlayer.cs:118-170 | every frame a text yields has one slot per table joint |
| Csv.HeaderOnlyLoadsNothing | Assets/Script/HumanoidDataPlayer.cs:120-125 | a text with fewer than two non-empty lines yields no frames and does not throw |
| Timeline.Scan | Assets/Script/HumanoidDataPlayer.cs:202-205 | the cursor scan only moves forward, passes only frames not after the timer, and stops on the last frame or before the first frame after the timer |
| Timeline.ScanFindsLatest | Assets/Script/HumanoidDataPlayer.cs:202-205 | on sorted times, a scan starting at a frame not after the timer ends on the latest frame not after the timer |
| Timeline.LatestIsUnique | Assets/Script/HumanoidDataPlayer.cs:202-205 | the latest frame not after a time is unique |
| Timeline.TiesResolveToLast | Assets/Script/HumanoidDataPlayer.cs:202-205 | among frames with the same timestamp, the cursor settles on the last one |
| Timeline.Advance | Assets/Script/HumanoidDataPlayer.cs:187-205 | after a tick the cursor is on a frame, and it is the last frame or the next frame is after the timer |
| Timeline.AdvanceFindsLatest | Assets/Script/HumanoidDataPlayer.cs:187-205 | on sorted times, a non-negative tick from a cursor not ahead of the timer leaves the cursor on the latest frame not after the timer, whether it wraps, clamps or neither |
| Timeline.AdvanceWithinRecording | Assets/Script/HumanoidDataPlayer.cs:187-205 | a tick that does not pass the last frame moves the timer by deltaTime * speed and never moves the cursor back |
| Timeline.AdvanceWraps | Assets/Script/HumanoidDataPlayer.cs:189-195 | past the last frame with looping on, the timer resets to the first frame's time and the scan restarts from frame 0 |
| Timeline.AdvanceClamps | Assets/Script/HumanoidDataPlayer.cs:196-200 | past the last frame with looping off, timer and cursor clamp to the last frame's time and index |
| Timeline.ClampIsAbsorbing | Assets/Script/HumanoidDataPlayer.cs:187-205 | once clamped, any number of further non-negative ticks leave timer and cursor where they are |
| Timeline.Run | Assets/Script/HumanoidDataPlayer.cs:182-209 | after any number of ticks the cursor is on a frame |
| Timeline.ElapsedIsScaledSum | Assets/Script/HumanoidDataPlayer.cs:187 | the playback time a run of ticks adds is the speed times the real time the ticks span |
| Timeline.RunNeverMovesBack | Assets/Script/HumanoidDataPlayer.cs:187-205 | while the run stays within the recording, the cursor never moves back |
| Timeline.RunTimer | Assets/Script/HumanoidDataPlayer.cs:187 | while the run stays within the recording, the timer is the start time plus the elapsed playback time |
| Timeline.RunEndsOnLatest | Assets/Script/HumanoidDataPlayer.cs:187-205 | on sorted times, after a run within the recording, the cursor is not ahead of the timer, and after at least one tick it is on the latest frame not after the timer |
| Timeline.PlaybackFromStart | Assets/Script/HumanoidDataPlayer.cs:172-205 | from the first frame, ticks spanning T seconds within the recording put the timer at first time + speed * T and the cursor on the latest frame not after it |
| Timeline.WrapExample | Assets/Script/HumanoidDataPlayer.cs:189-195 | looping over frames at 0, 1, 2, a 2.5 s tick from the start ends at timer 0 and frame 0 |
| Timeline.ClampExample | Assets/Script/HumanoidDataPlayer.cs:196-200 | not looping over frames at 0, 1, 2, a 10 s tick from the start ends at timer 2 and frame 2 |
| Player.BoundBinds | Assets/Script/HumanoidDataPlayer.cs:98-105 | after binding, a joint is in the dictionary if and only if it was already there or it is a table joint the rig has; each listed joint found maps to the rig's transform, and every other entry is unchanged |
| Player.HumanoidDataPlayer.constructor | Assets/Script/HumanoidDataPlayer.cs:71-85 | a new component has no bound joints and no frames, and timer, cursor and currentFramePlaying are 0 |
| Player.HumanoidDataPlayer.BindBones | Assets/Script/HumanoidDataPlayer.cs:98-105 | the binding loop leaves the dictionary as Bound over the whole table, keeps only table joints bound, and changes nothing else |
| Player.ReadRow | Assets/Script/HumanoidDataPlayer.cs:130-169 | one pass of the line loop gives exactly ParseRow's result: short line, bad time, thrown exception, or the frame |
| Player.JointFailureThrows | Assets/Script/HumanoidDataPlayer.cs:152-163 | a line whose time parses and whose joint j fails throws |
| Player.HumanoidDataPlayer.ReadRows | Assets/Script/HumanoidDataPlayer.cs:128-170 | the line loop appends the frames of ParseRows to the frame list and reports the throw exactly when ParseRows aborts |
| Player.HumanoidDataPlayer.ParseCSV | Assets/Script/HumanoidDataPlayer.cs:118-180 | the load appends LoadText's frames to the frame list; it reports too few lines, a throw, no frames or success; only after a full load with frames is the timer set to the first frame's time |
| Player.HumanoidDataPlayer.Start | Assets/Script/HumanoidDataPlayer.cs:89-113 | without a humanoid rig nothing changes; otherwise the table is bound, and when a text is assigned it is loaded as ParseCSV says; the cursor and settings are never touched |
| Player.HumanoidDataPlayer.ApplyFrame | Assets/Script/HumanoidDataPlayer.cs:212-223 | with only table joints bound, every bound joint shows its slot of the frame, unless a later slot is bound to the same transform; the component is unchanged and only bound transforms are written |
| Player.InjectiveRigShowsAll | Assets/Script/HumanoidDataPlayer.cs:212-223 | when no two joints share a transform, every bound joint shows exactly its own slot of the frame |
| Player.HumanoidDataPlayer.MoveTimer | Assets/Script/HumanoidDataPlayer.cs:187-201 | the timer moves by deltaTime * speed, then wraps to the first frame or clamps to the last one once past the last frame |
| Player.HumanoidDataPlayer.SeekFrame | Assets/Script/HumanoidDataPlayer.cs:202-205 | the cursor loop ends where Scan does |
| Player.HumanoidDataPlayer.Tick | Assets/Script/HumanoidDataPlayer.cs:187-207 | timer and cursor end where Advance puts them, and currentFramePlaying mirrors the cursor |
| Player.HumanoidDataPlayer.Update | Assets/Script/HumanoidDataPlayer.cs:182-209 | with no frames nothing changes; otherwise the clock advances as Advance says, currentFramePlaying mirrors the cursor, and the current frame is shown on the rig |

## Left out

- Floating point: times, speeds and joint values are exact reals. Single-precision rounding of `playbackTimer += deltaTime * playbackSpeed` is not modelled.
- Parsing decimal text: the float parser is a parameter. `float.TryParse` with `NumberStyles.Float` and `float.Parse` share that parameter, because a comma-split token holds no ',' and thousands separators are the only difference between the two styles.
- Quaternion and Vector3 arithmetic: the component only stores and copies them, so they are plain records of reals.
- The Unity engine: `Animator`, `GetComponent`, the `MonoBehaviour` lifecycle, `TextAsset`, `Time.deltaTime` and every `Debug.Log*` call. They are parameters, or the `LoadStatus` result, as described above.
- Player.HumanoidDataPlayer.Update: its contract ties the new clock to `Timeline.Advance`, but does not itself say that the cursor lands on the latest frame not after the timer. That needs sorted frame times, which the component does not check. `Timeline.AdvanceFindsLatest` proves it for sorted times.
- Player.HumanoidDataPlayer.Tick: the same as Update. It states the clock through `Timeline.Advance`, and the latest-frame property is in `Timeline.AdvanceFindsLatest`.
- Player.HumanoidDataPlayer.ReadRows: the source's `for` loop leaves by propagating the exception. The model's loop stops on its condition once a line has thrown, and the method reports the throw as its result. The frames appended and the lines read are the same.
- The tail of an exception: in the source the exception leaves `Start` itself, and Unity logs it. The model stops at `ParseCSV`'s `FormatException` status with the same state.
- Negative playback speed: the clock is modelled for any speed. The latest-frame lemmas assume non-negative ticks, because the forward-only scan cannot move the cursor back.
- MovementRecognizer.cs and HumanoidBoneIdentifier.cs are not part of this model. The first delegates to a gesture recogniser and camera projection outside the repository. The second only logs `Animator` lookups.
