# Flip-Book: a verified model of the frame editor

Flip-Book is an Android app for drawing short flip-book animations. The user
draws on one frame at a time. Frames can be added (at most 32), duplicated,
cleared and stepped through. A translucent "onion skin" of the previous frame
can be shown over the current one. The animation plays back at 4 frames per
second and can be exported as an MP4 video. When the app stops, the frames are
saved to the activity's preferences, and they are restored when it starts
again.

The model covers the two classes that hold this logic.

- `DoodleView` (file `doodle_view.dfy`, module `Doodle`) is a class with the
  fields the Java view updates in place:
  - the frame list;
  - the cursor `frameIndex`;
  - the playback flag;
  - which frame the drawing canvas is bound to;
  - the overlay flag;
  - the view size.

  Each method is proved to move the object from a state `s` to
  `Editor.X(s)`. `Editor.X` is the matching transition function in module
  `Editor` (file `editor.dfy`), where the operations are stated on values.
  Lemmas there prove properties of whole runs: the capacity bound, playback
  order, the end of playback, and export idempotence. The methods and
  functions maintain an object invariant, `Editor.Valid`: while editing with
  frames, the cursor is a valid index and the canvas draws into the frame
  under it.
- `MainActivity` (file `main_activity.dfy`, module `Activity`) models three
  things:
  - choosing an unused video file name with the quadratic probe
    `"Video" + (h + k*k) + ".mp4"`, including the proof that a free name is
    found at an offset `k <= h`;
  - the save loop of `onStop`;
  - the restore loop of `onCreate`.

  Preferences are two maps, one for integer entries and one for string
  entries. The PNG/Base64 codec is a pair of function parameters.
  `SaveThenRestore` proves that a save followed by a restore gives back the
  frames, cut to 32, whenever the codec decodes what it encodes.
- `Decimal` (file `decimal.dfy`) renders a natural number in decimal, as
  Java's string concatenation does. It proves that the rendering is made of
  digits that read back as the number (`NatToStringRoundTrip`), and that it
  is injective.
  Injectivity is what makes the probed names, and the `"frame" + i` keys,
  pairwise distinct.

Where the documentation and the code differ, the model follows the code:

- `duplicateFrame` is documented as copying the frame "currently being
  displayed". The code calls `newFrame()` first, which moves the cursor to the
  new last frame. It then copies `frames.get(frameIndex - 1)`, which is the
  frame that was last before the call, whatever frame was displayed.
  `Editor.DuplicateFrame` states that behaviour.
- `duplicateFrame` has no capacity check, so it can take the list beyond 32
  frames. The restore loop then brings back only the first 32.
- The restoring constructor leaves `frameIndex` at Java's default 0 and the
  canvas unbound when the list is empty.
- `playAnimation` asks the timer for `frames + 1` intervals. The code's own
  comment says this is because with `frames` intervals the last frame was cut
  off. The `onDraw` comment calls a cursor past the last frame "very rare".
  The model shows the background if and only if more ticks than frames
  arrive (`Editor.PlaybackShowsFramesInOrder`). How many ticks Android
  delivers is not modelled.

## Model

| member | source | states |
|---|---|---|
| Editor.Valid | app/src/main/java/edu/bloomu/sjh91055/finalproj/DoodleView.java:171-177 | the object invariant: while editing with frames the cursor is a valid index and the canvas draws into the frame under it; it implies that while editing the canvas has a bitmap exactly when a frame exists |
| Editor.Blank | app/src/main/java/edu/bloomu/sjh91055/finalproj/DoodleView.java:173-177 | a new frame has the requested width and height and every pixel is the background color |
| Editor.Cleared | app/src/main/java/edu/bloomu/sjh91055/finalproj/DoodleView.java:187 | clearing keeps the dimensions and the pixel count and makes every pixel the background color |
| Editor.CopiedOnto | app/src/main/java/edu/bloomu/sjh91055/finalproj/DoodleView.java:298 | drawing one frame onto another keeps the target's width and height and gives it the source's pixels |
| Editor.Empty | app/src/main/java/edu/bloomu/sjh91055/finalproj/DoodleView.java:56-62 | a new view has no frames, is not playing, shows the overlay, has no canvas bitmap, and satisfies the invariant |
| Editor.Restored | app/src/main/java/edu/bloomu/sjh91055/finalproj/DoodleView.java:69-78 | the restored view holds exactly the given frames, not playing, with the cursor on the last frame when there is one, and satisfies the invariant |
| Editor.SizeChanged | app/src/main/java/edu/bloomu/sjh91055/finalproj/DoodleView.java:107-113 | the size is recorded; an empty editing view gets one blank frame of that size with cursor and canvas on it; a non-empty list and its cursor are kept; the overlay flag stays; with frames already present or during playback only the size changes |
| Editor.NewFrame | app/src/main/java/edu/bloomu/sjh91055/finalproj/DoodleView.java:171-180 | while editing, exactly one background-filled frame of the view's size is appended, the old frames form its prefix, cursor and canvas move onto it; during playback nothing changes |
| Editor.ResetCanvas | app/src/main/java/edu/bloomu/sjh91055/finalproj/DoodleView.java:185-189 | while editing, the frame under the cursor becomes background-filled and every other frame, the count and the cursor stay; during playback nothing changes |
| Editor.AddFrame | app/src/main/java/edu/bloomu/sjh91055/finalproj/DoodleView.java:197-204 | below 32 frames a new frame is added silently; at 32 or more only the "maximum reached" notice is shown; during playback nothing happens; 32 is never exceeded by it |
| Editor.DuplicateFrame | app/src/main/java/edu/bloomu/sjh91055/finalproj/DoodleView.java:295-300 | while editing, one frame is appended whose pixels are those of the frame that was last before the call, the old frames are a prefix, and cursor and canvas move onto the new frame; the playback flag, the overlay flag and the view size stay |
| Editor.SetCurrentFrame | app/src/main/java/edu/bloomu/sjh91055/finalproj/DoodleView.java:266-269 | the canvas is bound to the frame under the cursor; frames, cursor and playback flag stay |
| Editor.NextFrame | app/src/main/java/edu/bloomu/sjh91055/finalproj/DoodleView.java:240-248 | while editing before the last frame the cursor and canvas advance by one; at the last frame the state is unchanged and "end of frames" is shown; frames never change |
| Editor.PrevFrame | app/src/main/java/edu/bloomu/sjh91055/finalproj/DoodleView.java:253-261 | while editing after the first frame the cursor and canvas go back one; at the first frame the state is unchanged and "beginning of frames" is shown |
| Editor.ToggleOnionSkin | app/src/main/java/edu/bloomu/sjh91055/finalproj/DoodleView.java:285-290 | the overlay flag flips, even during playback, the notice names its new value, and nothing else changes |
| Editor.Schedule | app/src/main/java/edu/bloomu/sjh91055/finalproj/DoodleView.java:214-219 | the countdown timer ticks every 250 ms and its duration is exactly frames + 1 intervals |
| Editor.PlayAnimation | app/src/main/java/edu/bloomu/sjh91055/finalproj/DoodleView.java:210-214 | when editing, playback starts with the cursor at -1 and frames and canvas untouched; a second call during playback changes nothing |
| Editor.Tick | app/src/main/java/edu/bloomu/sjh91055/finalproj/DoodleView.java:221-224 | a tick advances the playback cursor by one and keeps the frames, the canvas, playback, the overlay flag and the view size |
| Editor.Ticks | app/src/main/java/edu/bloomu/sjh91055/finalproj/DoodleView.java:221-224 | k ticks advance the cursor by k, keep the frames and the canvas, and stay in playback |
| Editor.Finish | app/src/main/java/edu/bloomu/sjh91055/finalproj/DoodleView.java:227-232 | the finish event ends playback with the cursor and the canvas on the last frame and the frames unchanged |
| Editor.Render | app/src/main/java/edu/bloomu/sjh91055/finalproj/DoodleView.java:120-139 | during playback the frame under the cursor, or the background once it is past the end; while editing the current frame, overlaid with the previous one exactly when the overlay is on and a previous frame exists |
| Editor.TrimmedForVideo | app/src/main/java/edu/bloomu/sjh91055/finalproj/DoodleView.java:321-322 | the exported height is even, is the old height less its parity, and width and pixels stay |
| Editor.Exported | app/src/main/java/edu/bloomu/sjh91055/finalproj/DoodleView.java:320-324 | export keeps the frame count and trims each frame independently at its own position |
| Editor.AddFrameGrows | app/src/main/java/edu/bloomu/sjh91055/finalproj/DoodleView.java:197-204 | one add-frame press on a state grown by blank frames grows it by one more blank frame with the cursor on it below capacity, and does nothing at capacity |
| Editor.AddFramesBounded | app/src/main/java/edu/bloomu/sjh91055/finalproj/DoodleView.java:197-204 | any number k of add-frame presses yields min(n + k, 32) frames: the old ones as prefix, blank frames after them, the cursor on the last one |
| Editor.PlaybackShowsFramesInOrder | app/src/main/java/edu/bloomu/sjh91055/finalproj/DoodleView.java:120-125 | after playAnimation and k ticks the screen shows frame k-1, and the background once k exceeds the frame count; the frames are untouched |
| Editor.PlaybackEndsOnLastFrame | app/src/main/java/edu/bloomu/sjh91055/finalproj/DoodleView.java:226-232 | after any number of ticks the finish event returns to editing on the last frame, which is what is drawn, with the list unchanged |
| Editor.ExportIdempotent | app/src/main/java/edu/bloomu/sjh91055/finalproj/DoodleView.java:320-324 | exporting already exported frames changes nothing |
| Editor.CapacityScenario | app/src/main/java/edu/bloomu/sjh91055/finalproj/DoodleView.java:197-204 | from a new view, sizing creates frame 0, 31 presses fill 32 frames, the next press only shows the notice, the timer runs 33 intervals, and finishing ends on frame 31 |
| Doodle.DoodleView.constructor | app/src/main/java/edu/bloomu/sjh91055/finalproj/DoodleView.java:56-62 | the new object's state is Editor.Empty |
| Doodle.DoodleView.Restoring | app/src/main/java/edu/bloomu/sjh91055/finalproj/DoodleView.java:69-78 | the new object's state is Editor.Restored of the given frames |
| Doodle.DoodleView.OnSizeChanged | app/src/main/java/edu/bloomu/sjh91055/finalproj/DoodleView.java:107-113 | the object moves to Editor.SizeChanged of its old state and keeps the invariant |
| Doodle.DoodleView.NewFrame | app/src/main/java/edu/bloomu/sjh91055/finalproj/DoodleView.java:171-180 | the object moves to Editor.NewFrame of its old state and keeps the invariant |
| Doodle.DoodleView.ResetCanvas | app/src/main/java/edu/bloomu/sjh91055/finalproj/DoodleView.java:185-189 | the object moves to Editor.ResetCanvas of its old state and keeps the invariant |
| Doodle.DoodleView.AddFrame | app/src/main/java/edu/bloomu/sjh91055/finalproj/DoodleView.java:197-204 | the new state and the returned notice are Editor.AddFrame of the old state |
| Doodle.DoodleView.PlayAnimation | app/src/main/java/edu/bloomu/sjh91055/finalproj/DoodleView.java:210-235 | the object moves to Editor.PlayAnimation and returns the timer Editor.Schedule gives for its frame count, or none when already playing |
| Doodle.DoodleView.Tick | app/src/main/java/edu/bloomu/sjh91055/finalproj/DoodleView.java:221-224 | the object moves to Editor.Tick of its old state and keeps the invariant |
| Doodle.DoodleView.Finish | app/src/main/java/edu/bloomu/sjh91055/finalproj/DoodleView.java:227-232 | the object moves to Editor.Finish of its old state and keeps the invariant |
| Doodle.DoodleView.NextFrame | app/src/main/java/edu/bloomu/sjh91055/finalproj/DoodleView.java:240-248 | the new state and the returned notice are Editor.NextFrame of the old state |
| Doodle.DoodleView.PrevFrame | app/src/main/java/edu/bloomu/sjh91055/finalproj/DoodleView.java:253-261 | the new state and the returned notice are Editor.PrevFrame of the old state |
| Doodle.DoodleView.SetCurrentFrame | app/src/main/java/edu/bloomu/sjh91055/finalproj/DoodleView.java:266-269 | the object moves to Editor.SetCurrentFrame of its old state |
| Doodle.DoodleView.ToggleOnionSkin | app/src/main/java/edu/bloomu/sjh91055/finalproj/DoodleView.java:285-290 | the new state and the returned notice are Editor.ToggleOnionSkin of the old state; the invariant is kept |
| Doodle.DoodleView.DuplicateFrame | app/src/main/java/edu/bloomu/sjh91055/finalproj/DoodleView.java:295-300 | the object moves to Editor.DuplicateFrame of its old state and keeps the invariant |
| Doodle.DoodleView.SaveToVideo | app/src/main/java/edu/bloomu/sjh91055/finalproj/DoodleView.java:320-324 | the frames are trimmed in place to Editor.Exported of the old frames, exactly those are submitted to the encoder in order, and nothing else changes |
| Decimal.NatToString | app/src/main/java/edu/bloomu/sjh91055/finalproj/MainActivity.java:241 | the decimal text of a number is non-empty, ends in the digit of the number modulo ten, and has no leading zero for a positive number |
| Decimal.NatToStringRoundTrip | app/src/main/java/edu/bloomu/sjh91055/finalproj/MainActivity.java:241 | the decimal text of a number consists of digits only, and read back as a decimal number it gives the number itself |
| Activity.VideoName | app/src/main/java/edu/bloomu/sjh91055/finalproj/MainActivity.java:241 | the name is "Video", then the decimal digits of the number, then ".mp4" |
| Activity.Candidate | app/src/main/java/edu/bloomu/sjh91055/finalproj/MainActivity.java:244 | the name probed at offset k is "Video", the decimal digits of h + k*k, then ".mp4" |
| Activity.FileInList | app/src/main/java/edu/bloomu/sjh91055/finalproj/MainActivity.java:258-263 | true exactly when some entry of the listing equals the name |
| Decimal.NatToStringInjective | app/src/main/java/edu/bloomu/sjh91055/finalproj/MainActivity.java:241-244 | different numbers give different decimal strings |
| Activity.CandidatesDistinct | app/src/main/java/edu/bloomu/sjh91055/finalproj/MainActivity.java:241-244 | the names probed at different offsets are different |
| Activity.ProbesBounded | app/src/main/java/edu/bloomu/sjh91055/finalproj/MainActivity.java:242-245 | if the first m probed names are all listed, the listing has at least m entries, so the probe loop ends |
| Activity.FindAvailableName | app/src/main/java/edu/bloomu/sjh91055/finalproj/MainActivity.java:234-248 | without a directory the name is "Video0.mp4"; otherwise it is the first probed name not in the listing, found at an offset no larger than the listing's length |
| Activity.FrameKey | app/src/main/java/edu/bloomu/sjh91055/finalproj/MainActivity.java:122 | the preference key of frame i is "frame" followed by the decimal digits of i |
| Activity.GetInt | app/src/main/java/edu/bloomu/sjh91055/finalproj/MainActivity.java:61 | an integer lookup returns the stored value when the key is present and the default otherwise |
| Activity.FrameKeyInjective | app/src/main/java/edu/bloomu/sjh91055/finalproj/MainActivity.java:122 | different frame indices are stored under different keys |
| Activity.FrameLimit | app/src/main/java/edu/bloomu/sjh91055/finalproj/MainActivity.java:66 | the restore loop visits min(count, 32) keys for a positive count, and none for a count of zero or less |
| Activity.FramesUnder | app/src/main/java/edu/bloomu/sjh91055/finalproj/MainActivity.java:66-74 | the frames found under the first n keys number at most n |
| Activity.FramesUnderAllPresent | app/src/main/java/edu/bloomu/sjh91055/finalproj/MainActivity.java:66-74 | when none of the first n keys is missing, exactly n frames are restored, the i-th decoded from key "frame" + i |
| Activity.RestoredFrames | app/src/main/java/edu/bloomu/sjh91055/finalproj/MainActivity.java:59-74 | at most 32 frames are restored, and no more than the stored count |
| Activity.RestoreFrames | app/src/main/java/edu/bloomu/sjh91055/finalproj/MainActivity.java:59-74 | the restore loop returns Activity.RestoredFrames of the preferences |
| Activity.FrameEntries | app/src/main/java/edu/bloomu/sjh91055/finalproj/MainActivity.java:112-123 | the entries written are exactly the keys "frame0" .. "frame(n-1)", the i-th holding the encoding of frame i |
| Activity.Saved | app/src/main/java/edu/bloomu/sjh91055/finalproj/MainActivity.java:106-124 | after saving, the count entry is the frame count, every frame is stored under its key, every other entry is kept, and no other key is added |
| Activity.SaveFrames | app/src/main/java/edu/bloomu/sjh91055/finalproj/MainActivity.java:104-125 | the save loop produces Activity.Saved of the old preferences |
| Activity.SaveThenRestore | app/src/main/java/edu/bloomu/sjh91055/finalproj/MainActivity.java:59-124 | with a codec that decodes what it encodes, restoring after a save gives back the saved frames in order, cut to the first 32 |
| Activity.RestartResumesProject | app/src/main/java/edu/bloomu/sjh91055/finalproj/MainActivity.java:59-76 | a project of 1 to 32 frames is resumed after a restart with the same frames, the cursor on the last one, and not playing |

## Left out

- Drawing itself (`onTouchEvent`, the `Path`, `setPaintColor`, the paint settings in `setupDrawing`) is not modelled. The model records which frame the canvas is bound to, not the strokes drawn into it.
- `ColorPickerView` is not part of this model.
- Pixels are abstract. Clearing fills with `BACKGROUND_COLOR`, and `drawBitmap` of one frame onto another replaces the content. Alpha blending and the 25-alpha onion-skin paint are not modelled.
- Editor.DuplicateFrame: the copy is modelled as replacing the blank frame's pixels. The real call composites the old frame over a white frame with the draw paint. The two agree for opaque frames of the same size.
- Editor.CopiedOnto: the model gives the target all of the source's pixels whatever the two sizes are. Java's `drawBitmap` copies only the overlapping region and leaves the rest of the new frame white. The sizes can differ after `onSizeChanged` reports new dimensions, or after `saveToVideo` trimmed an odd height, since the trimmed frame keeps its old pixels in the model. The model keeps no relation between `|pixels|` and `width * height` for copied or trimmed frames.
- Editor.Render: onDraw during playback with the cursor still at -1 would throw. The model requires the cursor to have left -1, together with a non-empty list while editing, where `frames.get(frameIndex)` would otherwise throw.
- `CountDownTimer` is not modelled. Its ticks and its finish arrive as the external events `Tick` and `Finish`. How many ticks Android really delivers before finishing, and the race the `onDraw` comment mentions, are not modelled; `Editor.Schedule` states the requested duration and interval.
- Doodle.DoodleView.Finish and Editor.Finish require at least one frame, because `setCurrentFrame` indexes the list. The empty-list case would throw.
- Doodle.DoodleView.DuplicateFrame and Editor.DuplicateFrame require a non-empty list while editing. With an empty list `frames.get(frameIndex - 1)` would throw.
- `invalidate()` and the Toast messages are not modelled as calls. They appear as the returned `Notice`.
- `saveToVideo` opens the directory and the file and runs the JCodec encoder. The model keeps only the frame loop and returns the submitted frames in place of the encoder. File creation, `encoder.finish()` and the IOException path are left out.
- `Bitmap.setHeight` on a real bitmap can throw when the height is not allowed. The model shrinks the height field only.
- `Bitmap.createBitmap` rejects a zero width or height. The model lets `Blank` create an empty frame.
- The restoring constructor with an empty list leaves `drawCanvas` null in Java, so a later `resetCanvas` would throw. The model keeps the canvas `Unbound` and makes `resetCanvas` a no-op there.
- Activity.FindAvailableName: the listing is a parameter; the external-storage lookup and `dir.list()` returning null are left out. Java `int` overflow of `h + offset * offset` is not modelled; the proof bounds the offset by the listing's size.
- Editor.Schedule: the duration is computed on unbounded integers. Java's `int` multiplication would overflow only beyond about 8.5 million frames. The app runs out of memory long before that, but `duplicateFrame` has no frame cap of its own, so the model does not bound the count.
- Preferences: `SharedPreferences` keeps one map with typed values. The model uses two maps, integer and string, so an entry of one type is never read as the other. `commit()` and any failure to write are left out.
- The PNG compression and the Base64 text encoding are the function parameters `encode` and `decode`. `decodeByteArray` returning null for corrupt data is not modelled.
- `getArray`, `newDoodle`, `resetFrameViews`, the menu and permission handlers, and the layout code in `onCreate` are not modelled. They only pass data through or deal with the Android UI.
