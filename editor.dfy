/** The frame-sequence editor of DoodleView, as a state machine over values.

    A `View` holds exactly the state the DoodleView object keeps between calls:
    the frame list, the cursor `frameIndex`, the playback flag, which frame the
    drawing canvas is bound to, the onion-skin flag and the view's size. Each
    operation of the view is a function from the old state to the new one; the
    class in module Doodle is proved to follow these functions step by step,
    and the lemmas at the end of this module speak about runs of several steps. */
module Editor {

  /** Capacity enforced by addFrame. */
  const MAX_FRAME: nat := 32
  /** Frames per second of playback and of the exported video. */
  const FRAME_RATE: nat := 4
  /** Color.WHITE as an ARGB word. */
  const BACKGROUND_COLOR: int := 0xFFFF_FFFF

  datatype Option<T> = None | Some(value: T)

  /** One raster frame; the pixel content is abstract ARGB words. */
  datatype Bitmap = Bitmap(width: nat, height: nat, pixels: seq<int>)

  /** What the drawing canvas paints into: no bitmap yet, or the frame at an index. */
  datatype Target = Unbound | Bound(index: nat)

  /** The short on-screen messages (Toasts) the editor shows. */
  datatype Notice = Silent | MaxFramesReached | EndOfFrames | BeginningOfFrames | OverlayNow(on: bool)

  datatype View = View(
    frames: seq<Bitmap>,
    frameIndex: int,
    animating: bool,
    drawCanvas: Target,
    imageOverlay: bool,
    width: nat,
    height: nat)

  /** The new state together with the notice an operation shows. */
  datatype Step = Step(view: View, notice: Notice)

  /** A countdown timer: total length and tick interval in milliseconds. */
  datatype Timer = Timer(durationMs: nat, intervalMs: nat)

  /** What onDraw puts on the screen. `Onion` is the current frame with the
      previous one laid over it translucently. */
  datatype Scene = Background | Plain(frame: Bitmap) | Onion(frame: Bitmap, previous: Bitmap)

  // ---------------------------------------------------------------------------
  // Pixel-level operations, abstracted

  /** createBitmap followed by drawColor(BACKGROUND_COLOR). */
  function Blank(w: nat, h: nat): (b: Bitmap)
    ensures b.width == w && b.height == h && |b.pixels| == w * h
    ensures forall i :: 0 <= i < |b.pixels| ==> b.pixels[i] == BACKGROUND_COLOR
  {
    Bitmap(w, h, seq(w * h, _ => BACKGROUND_COLOR))
  }

  /** drawColor(BACKGROUND_COLOR) on a canvas bound to `b`. */
  function Cleared(b: Bitmap): (r: Bitmap)
    ensures r.width == b.width && r.height == b.height && |r.pixels| == |b.pixels|
    ensures forall i :: 0 <= i < |r.pixels| ==> r.pixels[i] == BACKGROUND_COLOR
  {
    b.(pixels := seq(|b.pixels|, _ => BACKGROUND_COLOR))
  }

  /** drawBitmap(src, 0, 0) on a canvas bound to `dst`: the content of `src`
      replaces that of `dst`, whose dimensions stay. */
  function CopiedOnto(dst: Bitmap, src: Bitmap): (r: Bitmap)
    ensures r.width == dst.width && r.height == dst.height
    ensures r.pixels == src.pixels
  {
    dst.(pixels := src.pixels)
  }

  // ---------------------------------------------------------------------------
  // The object invariant

  /** While editing with at least one frame the cursor is a valid index and the
      canvas draws into the frame under the cursor; before the first frame exists
      the cursor rests at 0 and the canvas has no bitmap; during playback the
      cursor is at least one step before the first frame. */
  predicate Valid(v: View)
    ensures Valid(v) && !v.animating ==> (v.drawCanvas.Bound? <==> |v.frames| > 0)
  {
    (v.drawCanvas.Bound? ==> v.drawCanvas.index < |v.frames|) &&
    (!v.animating && |v.frames| > 0 ==>
       0 <= v.frameIndex < |v.frames| && v.drawCanvas == Bound(v.frameIndex)) &&
    (!v.animating && |v.frames| == 0 ==> v.frameIndex == 0) &&
    (v.animating ==> v.frameIndex >= -1)
  }

  // ---------------------------------------------------------------------------
  // Construction

  /** DoodleView(Context): an empty project, not yet sized. */
  function Empty(): (v: View)
    ensures Valid(v)
    ensures v.frames == [] && !v.animating && v.imageOverlay && v.drawCanvas == Unbound
  {
    View([], 0, false, Unbound, true, 0, 0)
  }

  /** DoodleView(Context, bitmaps): a project holding the restored frames, with
      the cursor and the canvas on the last of them. */
  function Restored(bitmaps: seq<Bitmap>): (v: View)
    ensures Valid(v)
    ensures v.frames == bitmaps && !v.animating && v.imageOverlay
    ensures |bitmaps| > 0 ==> v.frameIndex == |bitmaps| - 1
  {
    if |bitmaps| > 0 then View(bitmaps, |bitmaps| - 1, false, Bound(|bitmaps| - 1), true, 0, 0)
    else View(bitmaps, 0, false, Unbound, true, 0, 0)
  }

  // ---------------------------------------------------------------------------
  // Editing operations

  /** newFrame: while editing, append one background-filled frame of the view's
      size and move the cursor and the canvas onto it. There is no capacity check. */
  function NewFrame(v: View): (r: View)
    requires Valid(v)
    ensures Valid(r)
    ensures v.animating ==> r == v
    ensures !v.animating ==>
      |r.frames| == |v.frames| + 1 && r.frames[..|v.frames|] == v.frames &&
      r.frames[|v.frames|] == Blank(v.width, v.height) &&
      r.frameIndex == |v.frames| && r.drawCanvas == Bound(r.frameIndex)
    ensures r.animating == v.animating && r.imageOverlay == v.imageOverlay
    ensures r.width == v.width && r.height == v.height
  {
    if v.animating then v
    else
      var frames := v.frames + [Blank(v.width, v.height)];
      v.(frames := frames, frameIndex := |frames| - 1, drawCanvas := Bound(|frames| - 1))
  }

  /** onSizeChanged: record the size; the first frame is created here when the
      list is still empty. */
  function SizeChanged(v: View, w: nat, h: nat): (r: View)
    requires Valid(v)
    ensures Valid(r)
    ensures r.width == w && r.height == h && r.animating == v.animating
    ensures |v.frames| == 0 && !v.animating ==>
      r.frames == [Blank(w, h)] && r.frameIndex == 0 && r.drawCanvas == Bound(0)
    ensures |v.frames| > 0 ==> r.frames == v.frames && r.frameIndex == v.frameIndex
    ensures r.imageOverlay == v.imageOverlay
    ensures |v.frames| > 0 || v.animating ==> r == v.(width := w, height := h)
  {
    var sized := v.(width := w, height := h);
    if |sized.frames| < 1 then NewFrame(sized) else sized
  }

  /** resetCanvas: while editing, clear the frame the canvas is bound to; the
      number of frames, the cursor and every other frame stay. */
  function ResetCanvas(v: View): (r: View)
    requires Valid(v)
    ensures Valid(r)
    ensures v.animating ==> r == v
    ensures |r.frames| == |v.frames| && r.frameIndex == v.frameIndex
    ensures r.drawCanvas == v.drawCanvas && r.animating == v.animating
    ensures r.imageOverlay == v.imageOverlay && r.width == v.width && r.height == v.height
    ensures !v.animating && |v.frames| > 0 ==>
      r.frames[v.frameIndex] == Cleared(v.frames[v.frameIndex])
    ensures forall j :: 0 <= j < |v.frames| && !(r.drawCanvas == Bound(j) && !v.animating) ==>
      r.frames[j] == v.frames[j]
  {
    if v.animating then v
    else match v.drawCanvas
      case Unbound => v
      case Bound(i) => v.(frames := v.frames[i := Cleared(v.frames[i])])
  }

  /** addFrame: while editing, add a frame unless MAX_FRAME frames exist already,
      in which case only a notice is shown. */
  function AddFrame(v: View): (r: Step)
    requires Valid(v)
    ensures Valid(r.view)
    ensures v.animating ==> r == Step(v, Silent)
    ensures !v.animating && |v.frames| < MAX_FRAME ==> r == Step(NewFrame(v), Silent)
    ensures !v.animating && |v.frames| >= MAX_FRAME ==> r == Step(v, MaxFramesReached)
    ensures |v.frames| <= MAX_FRAME ==> |r.view.frames| <= MAX_FRAME
  {
    if v.animating then Step(v, Silent)
    else if |v.frames| < MAX_FRAME then Step(NewFrame(v), Silent)
    else Step(v, MaxFramesReached)
  }

  /** duplicateFrame: while editing, append a frame whose content is that of the
      frame that was last before the call (which need not be the one under the
      cursor), and move the cursor onto it. There is no capacity check; the
      source indexes the previous frame, so the list must not be empty. */
  function DuplicateFrame(v: View): (r: View)
    requires Valid(v)
    requires !v.animating ==> |v.frames| > 0
    ensures Valid(r)
    ensures v.animating ==> r == v
    ensures !v.animating ==>
      |r.frames| == |v.frames| + 1 && r.frames[..|v.frames|] == v.frames &&
      r.frames[|v.frames|].pixels == v.frames[|v.frames| - 1].pixels &&
      r.frames[|v.frames|].width == v.width && r.frames[|v.frames|].height == v.height &&
      r.frameIndex == |v.frames| && r.drawCanvas == Bound(r.frameIndex)
    ensures r.animating == v.animating && r.imageOverlay == v.imageOverlay && r.width == v.width && r.height == v.height
  {
    if v.animating then v
    else
      var n := NewFrame(v);
      var i := n.frameIndex;
      n.(frames := n.frames[i := CopiedOnto(n.frames[i], n.frames[i - 1])])
  }

  /** setCurrentFrame: bind the canvas to the frame under the cursor. */
  function SetCurrentFrame(v: View): (r: View)
    requires 0 <= v.frameIndex < |v.frames|
    ensures r.drawCanvas == Bound(v.frameIndex)
    ensures r.frames == v.frames && r.frameIndex == v.frameIndex && r.animating == v.animating
    ensures r.imageOverlay == v.imageOverlay && r.width == v.width && r.height == v.height
  {
    v.(drawCanvas := Bound(v.frameIndex))
  }

  /** nextFrame: while editing, step the cursor forward; at the last frame only
      a notice is shown. */
  function NextFrame(v: View): (r: Step)
    requires Valid(v)
    ensures Valid(r.view)
    ensures r.view.frames == v.frames && r.view.animating == v.animating
    ensures r.view.imageOverlay == v.imageOverlay && r.view.width == v.width && r.view.height == v.height
    ensures v.animating ==> r == Step(v, Silent)
    ensures !v.animating && v.frameIndex < |v.frames| - 1 ==>
      r.notice == Silent && r.view.frameIndex == v.frameIndex + 1 &&
      r.view.drawCanvas == Bound(r.view.frameIndex)
    ensures !v.animating && v.frameIndex >= |v.frames| - 1 ==> r == Step(v, EndOfFrames)
    ensures !v.animating && |v.frames| > 0 ==> 0 <= r.view.frameIndex < |v.frames|
  {
    if v.animating then Step(v, Silent)
    else if v.frameIndex < |v.frames| - 1 then
      Step(SetCurrentFrame(v.(frameIndex := v.frameIndex + 1)), Silent)
    else Step(v, EndOfFrames)
  }

  /** prevFrame: while editing, step the cursor back; at the first frame only a
      notice is shown. */
  function PrevFrame(v: View): (r: Step)
    requires Valid(v)
    ensures Valid(r.view)
    ensures r.view.frames == v.frames && r.view.animating == v.animating
    ensures r.view.imageOverlay == v.imageOverlay && r.view.width == v.width && r.view.height == v.height
    ensures v.animating ==> r == Step(v, Silent)
    ensures !v.animating && v.frameIndex > 0 ==>
      r.notice == Silent && r.view.frameIndex == v.frameIndex - 1 &&
      r.view.drawCanvas == Bound(r.view.frameIndex)
    ensures !v.animating && v.frameIndex <= 0 ==> r == Step(v, BeginningOfFrames)
    ensures !v.animating && |v.frames| > 0 ==> 0 <= r.view.frameIndex < |v.frames|
  {
    if v.animating then Step(v, Silent)
    else if v.frameIndex > 0 then
      Step(SetCurrentFrame(v.(frameIndex := v.frameIndex - 1)), Silent)
    else Step(v, BeginningOfFrames)
  }

  /** toggleOnionSkin: flip the overlay flag and announce its new value; this is
      not guarded by the playback flag. */
  function ToggleOnionSkin(v: View): (r: Step)
    ensures r.view.imageOverlay == !v.imageOverlay && r.notice == OverlayNow(r.view.imageOverlay)
    ensures r.view.(imageOverlay := v.imageOverlay) == v
  {
    var flipped := v.(imageOverlay := !v.imageOverlay);
    Step(flipped, OverlayNow(flipped.imageOverlay))
  }

  // ---------------------------------------------------------------------------
  // Playback

  /** The timer playAnimation starts for `frameCount` frames: one tick every
      1000 / FRAME_RATE ms for frameCount + 1 intervals. */
  function Schedule(frameCount: nat): (t: Timer)
    ensures t.intervalMs == 250 && t.durationMs % t.intervalMs == 0
    ensures t.durationMs / t.intervalMs == frameCount + 1
  {
    var interval := 1000 / FRAME_RATE;
    Timer((frameCount + 1) * interval, interval)
  }

  /** playAnimation: when editing, enter playback with the cursor one step before
      the first frame; the frames and the canvas binding stay. A no-op during
      playback. */
  function PlayAnimation(v: View): (r: View)
    requires Valid(v)
    ensures Valid(r)
    ensures v.animating ==> r == v
    ensures r.animating && r.frames == v.frames && r.drawCanvas == v.drawCanvas
    ensures !v.animating ==> r.frameIndex == -1
    ensures r.imageOverlay == v.imageOverlay && r.width == v.width && r.height == v.height
  {
    if v.animating then v else v.(animating := true, frameIndex := -1)
  }

  /** onTick: advance the playback cursor by one. */
  function Tick(v: View): (r: View)
    requires Valid(v) && v.animating
    ensures Valid(r) && r.animating
    ensures r.frames == v.frames && r.frameIndex == v.frameIndex + 1 && r.drawCanvas == v.drawCanvas
    ensures r.imageOverlay == v.imageOverlay && r.width == v.width && r.height == v.height
  {
    v.(frameIndex := v.frameIndex + 1)
  }

  /** onFinish: leave playback with the cursor and the canvas on the last frame.
      setCurrentFrame indexes the list, so at least one frame must exist. */
  function Finish(v: View): (r: View)
    requires Valid(v) && v.animating && |v.frames| > 0
    ensures Valid(r) && !r.animating
    ensures r.frames == v.frames && r.frameIndex == |v.frames| - 1
    ensures r.drawCanvas == Bound(|v.frames| - 1)
    ensures r.imageOverlay == v.imageOverlay && r.width == v.width && r.height == v.height
  {
    SetCurrentFrame(v.(animating := false, frameIndex := |v.frames| - 1))
  }

  /** `k` tick events in a row. */
  function Ticks(v: View, k: nat): (r: View)
    requires Valid(v) && v.animating
    ensures Valid(r) && r.animating
    ensures r.frames == v.frames && r.frameIndex == v.frameIndex + k && r.drawCanvas == v.drawCanvas
    ensures r.imageOverlay == v.imageOverlay && r.width == v.width && r.height == v.height
  {
    if k == 0 then v else Tick(Ticks(v, k - 1))
  }

  // ---------------------------------------------------------------------------
  // Rendering

  /** onDraw. During playback: the frame under the cursor while there is one,
      otherwise the background (the upper bound is guarded, the lower is not, so
      the cursor must have left -1). While editing: the frame under the cursor,
      with the previous frame laid over it when the overlay is on and a previous
      frame exists. */
  function Render(v: View): (s: Scene)
    requires Valid(v)
    requires v.animating ==> v.frameIndex >= 0
    requires !v.animating ==> |v.frames| > 0
    ensures v.animating && v.frameIndex < |v.frames| ==> s == Plain(v.frames[v.frameIndex])
    ensures v.animating && v.frameIndex >= |v.frames| ==> s == Background
    ensures !v.animating ==> !s.Background? && s.frame == v.frames[v.frameIndex]
    ensures !v.animating ==> (s.Onion? <==> v.imageOverlay && v.frameIndex > 0)
    ensures s.Onion? ==> s.previous == v.frames[v.frameIndex - 1]
  {
    if v.animating then
      if v.frameIndex < |v.frames| then Plain(v.frames[v.frameIndex]) else Background
    else if v.imageOverlay && v.frameIndex > 0 then
      Onion(v.frames[v.frameIndex], v.frames[v.frameIndex - 1])
    else Plain(v.frames[v.frameIndex])
  }

  // ---------------------------------------------------------------------------
  // Video export

  /** The per-frame correction of saveToVideo: an odd height loses one row. */
  function TrimmedForVideo(b: Bitmap): (r: Bitmap)
    ensures r.height % 2 == 0
    ensures r.height == b.height - b.height % 2
    ensures r.width == b.width && r.pixels == b.pixels
  {
    if b.height % 2 != 0 then b.(height := b.height - 1) else b
  }

  /** The frames after saveToVideo has corrected them in place; they are also
      exactly what it submits to the encoder, in list order. */
  function Exported(frames: seq<Bitmap>): (r: seq<Bitmap>)
    ensures |r| == |frames|
    ensures forall i :: 0 <= i < |r| ==> r[i] == TrimmedForVideo(frames[i])
  {
    seq(|frames|, i requires 0 <= i < |frames| => TrimmedForVideo(frames[i]))
  }

  // ---------------------------------------------------------------------------
  // Properties of runs

  /** `k` presses of the add-frame button. */
  function AddFrames(v: View, k: nat): (r: View)
    requires Valid(v)
    ensures Valid(r)
  {
    if k == 0 then v else AddFrame(AddFrames(v, k - 1)).view
  }

  /** `r` is `v` grown to `n` frames by appending blank frames, still editing. */
  ghost predicate Grown(v: View, r: View, n: nat)
  {
    Valid(r) && !r.animating && r.width == v.width && r.height == v.height &&
    |v.frames| <= n == |r.frames| && r.frames[..|v.frames|] == v.frames &&
    (forall j :: |v.frames| <= j < n ==> r.frames[j] == Blank(v.width, v.height))
  }

  /** One press of add-frame on a grown state: one more blank frame below
      capacity, with the cursor on it; nothing at capacity. */
  lemma AddFrameGrows(v: View, p: View, n: nat)
    requires Grown(v, p, n) && n <= MAX_FRAME
    ensures n < MAX_FRAME ==>
      Grown(v, AddFrame(p).view, n + 1) && AddFrame(p).view.frameIndex == n
    ensures n == MAX_FRAME ==> AddFrame(p).view == p
  {
    if n < MAX_FRAME {
      var r := AddFrame(p).view;
      var b := Blank(v.width, v.height);
      assert r.frames == p.frames + [b];
      PrefixOfAppend(p.frames, b, |v.frames|);
      forall j | |v.frames| <= j < n + 1 ensures r.frames[j] == b {
        if j < n {
          assert r.frames[j] == p.frames[j];
        }
      }
    }
  }

  /** Repeated addFrame while editing never exceeds MAX_FRAME: it appends blank
      frames until the capacity is reached and then changes nothing; as soon as
      one frame was appended the cursor is on the last frame. */
  lemma {:induction false} AddFramesBounded(v: View, k: nat)
    requires Valid(v) && !v.animating && |v.frames| <= MAX_FRAME
    ensures var r := AddFrames(v, k);
      Grown(v, r, if |v.frames| + k <= MAX_FRAME then |v.frames| + k else MAX_FRAME) &&
      (k > 0 && |v.frames| < MAX_FRAME ==> r.frameIndex == |r.frames| - 1)
  {
    if k == 0 {
      assert v.frames[..|v.frames|] == v.frames;
    } else {
      AddFramesBounded(v, k - 1);
      var n := if |v.frames| + k - 1 <= MAX_FRAME then |v.frames| + k - 1 else MAX_FRAME;
      AddFrameGrows(v, AddFrames(v, k - 1), n);
    }
  }

  lemma PrefixOfAppend<T>(s: seq<T>, x: T, n: nat)
    requires n <= |s|
    ensures (s + [x])[..n] == s[..n]
  {
  }

  /** Playback started from an editing state shows, on its k-th tick, the k-th
      frame, and the background once the cursor has passed the last frame; the
      frames are not touched. */
  lemma PlaybackShowsFramesInOrder(v: View, k: nat)
    requires Valid(v) && !v.animating && k >= 1
    ensures var p := Ticks(PlayAnimation(v), k);
      p.frames == v.frames && p.animating && p.frameIndex == k - 1 &&
      Render(p) == (if k <= |v.frames| then Plain(v.frames[k - 1]) else Background)
  {
  }

  /** After any number of ticks, the finish event returns to editing on the last
      frame with the list unchanged. */
  lemma PlaybackEndsOnLastFrame(v: View, k: nat)
    requires Valid(v) && !v.animating && |v.frames| > 0
    ensures var f := Finish(Ticks(PlayAnimation(v), k));
      !f.animating && f.frames == v.frames && f.frameIndex == |v.frames| - 1 &&
      f.drawCanvas == Bound(|v.frames| - 1) && Render(f).frame == v.frames[|v.frames| - 1]
  {
  }

  /** Exporting twice changes nothing the first export did not: the second pass
      finds every height even. */
  lemma ExportIdempotent(frames: seq<Bitmap>)
    ensures Exported(Exported(frames)) == Exported(frames)
  {
    var once := Exported(frames);
    assert forall i :: 0 <= i < |once| ==> TrimmedForVideo(once[i]) == once[i];
  }

  /** The life of a project from an empty view: the first frame appears when the
      view is sized, 31 presses of add-frame fill the store, the 32nd press only
      shows the capacity notice, and playback of the 32 frames ends on frame 31. */
  lemma CapacityScenario(w: nat, h: nat)
    ensures var first := SizeChanged(Empty(), w, h);
      |first.frames| == 1 && first.frameIndex == 0 &&
      var full := AddFrames(first, 31);
      |full.frames| == MAX_FRAME && full.frameIndex == 31 &&
      AddFrame(full) == Step(full, MaxFramesReached) &&
      Schedule(|full.frames|).durationMs / Schedule(|full.frames|).intervalMs == 33 &&
      var done := Finish(Ticks(PlayAnimation(full), 33));
      !done.animating && done.frameIndex == 31 && done.frames == full.frames
  {
    var first := SizeChanged(Empty(), w, h);
    AddFramesBounded(first, 31);
  }
}
