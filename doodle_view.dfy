/** The DoodleView object: the fields the Java view updates in place, and one
    method per operation, each proved to move the object from a state `s` to
    the state the matching function of module Editor gives for `s`. */
module Doodle {
  import opened Editor

  class DoodleView {
    var frames: seq<Bitmap>
    var frameIndex: int
    var animating: bool
    var drawCanvas: Target
    var imageOverlay: bool
    var width: nat
    var height: nat

    /** The object's state as a value. */
    function Snapshot(): View
      reads this
    {
      View(frames, frameIndex, animating, drawCanvas, imageOverlay, width, height)
    }

    ghost predicate Valid()
      reads this
    {
      Editor.Valid(Snapshot())
    }

    /** DoodleView(Context). */
    constructor ()
      ensures Valid() && Snapshot() == Empty()
    {
      frames := [];
      frameIndex := 0;
      animating := false;
      drawCanvas := Unbound;
      imageOverlay := true;
      width, height := 0, 0;
    }

    /** DoodleView(Context, ArrayList<Bitmap>). */
    constructor Restoring(bitmaps: seq<Bitmap>)
      ensures Valid() && Snapshot() == Restored(bitmaps)
    {
      frames := bitmaps;
      animating := false;
      imageOverlay := true;
      width, height := 0, 0;
      frameIndex := 0;
      drawCanvas := Unbound;
      if |bitmaps| > 0 {
        frameIndex := |bitmaps| - 1;
        drawCanvas := Bound(|bitmaps| - 1);
      }
    }

    method OnSizeChanged(w: nat, h: nat)
      requires Valid()
      modifies this
      ensures Valid() && Snapshot() == SizeChanged(old(Snapshot()), w, h)
    {
      width := w;
      height := h;
      if |frames| < 1 {
        NewFrame();
      }
    }

    method NewFrame()
      requires Valid()
      modifies this
      ensures Valid() && Snapshot() == Editor.NewFrame(old(Snapshot()))
    {
      if !animating {
        frames := frames + [Blank(width, height)];
        frameIndex := |frames| - 1;
        drawCanvas := Bound(frameIndex);
      }
    }

    method ResetCanvas()
      requires Valid()
      modifies this
      ensures Valid() && Snapshot() == Editor.ResetCanvas(old(Snapshot()))
    {
      if !animating && drawCanvas.Bound? {
        var i := drawCanvas.index;
        frames := frames[i := Cleared(frames[i])];
      }
    }

    method AddFrame() returns (notice: Notice)
      requires Valid()
      modifies this
      ensures Valid() && Step(Snapshot(), notice) == Editor.AddFrame(old(Snapshot()))
    {
      notice := Silent;
      if !animating {
        if |frames| < MAX_FRAME {
          NewFrame();
        } else {
          notice := MaxFramesReached;
        }
      }
    }

    /** Starts playback and returns the countdown timer it would schedule, or
        None when playback is already running. */
    method PlayAnimation() returns (timer: Option<Timer>)
      requires Valid()
      modifies this
      ensures Valid() && Snapshot() == Editor.PlayAnimation(old(Snapshot()))
      ensures timer == if old(animating) then None else Some(Schedule(|frames|))
    {
      timer := None;
      if !animating {
        animating := true;
        frameIndex := -1;
        var frameCount := |frames| + 1;
        var animationDuration := frameCount * (1000 / FRAME_RATE);
        timer := Some(Timer(animationDuration, 1000 / FRAME_RATE));
      }
    }

    /** The timer's onTick callback; the timer exists only during playback. */
    method Tick()
      requires Valid() && animating
      modifies this
      ensures Valid() && Snapshot() == Editor.Tick(old(Snapshot()))
    {
      frameIndex := frameIndex + 1;
    }

    /** The timer's onFinish callback. */
    method Finish()
      requires Valid() && animating && |frames| > 0
      modifies this
      ensures Valid() && Snapshot() == Editor.Finish(old(Snapshot()))
    {
      animating := false;
      frameIndex := |frames| - 1;
      SetCurrentFrame();
    }

    method NextFrame() returns (notice: Notice)
      requires Valid()
      modifies this
      ensures Valid() && Step(Snapshot(), notice) == Editor.NextFrame(old(Snapshot()))
    {
      notice := Silent;
      if !animating {
        if frameIndex < |frames| - 1 {
          frameIndex := frameIndex + 1;
          SetCurrentFrame();
        } else {
          notice := EndOfFrames;
        }
      }
    }

    method PrevFrame() returns (notice: Notice)
      requires Valid()
      modifies this
      ensures Valid() && Step(Snapshot(), notice) == Editor.PrevFrame(old(Snapshot()))
    {
      notice := Silent;
      if !animating {
        if frameIndex > 0 {
          frameIndex := frameIndex - 1;
          SetCurrentFrame();
        } else {
          notice := BeginningOfFrames;
        }
      }
    }

    method SetCurrentFrame()
      requires 0 <= frameIndex < |frames|
      modifies this
      ensures Snapshot() == Editor.SetCurrentFrame(old(Snapshot()))
    {
      drawCanvas := Bound(frameIndex);
    }

    method ToggleOnionSkin() returns (notice: Notice)
      modifies this
      ensures Step(Snapshot(), notice) == Editor.ToggleOnionSkin(old(Snapshot()))
      ensures old(Valid()) ==> Valid()
    {
      imageOverlay := !imageOverlay;
      notice := OverlayNow(imageOverlay);
    }

    method DuplicateFrame()
      requires Valid()
      requires !animating ==> |frames| > 0
      modifies this
      ensures Valid() && Snapshot() == Editor.DuplicateFrame(old(Snapshot()))
    {
      if !animating {
        NewFrame();
        var i := frameIndex;
        frames := frames[i := CopiedOnto(frames[i], frames[i - 1])];
      }
    }

    /** The frame loop of saveToVideo: each frame of odd height loses one row in
        place, and is then submitted to the encoder. Returns the submitted
        frames in submission order. */
    method SaveToVideo() returns (submitted: seq<Bitmap>)
      requires Valid()
      modifies this
      ensures Valid()
      ensures frames == Exported(old(frames)) && submitted == frames
      ensures Snapshot() == old(Snapshot()).(frames := frames)
    {
      submitted := [];
      var i := 0;
      while i < |frames|
        invariant 0 <= i <= |frames| == |old(frames)|
        invariant forall j :: 0 <= j < i ==> frames[j] == TrimmedForVideo(old(frames)[j])
        invariant forall j :: i <= j < |frames| ==> frames[j] == old(frames)[j]
        invariant submitted == frames[..i]
        invariant Snapshot() == old(Snapshot()).(frames := frames)
      {
        var f := frames[i];
        if f.height % 2 != 0 {
          f := f.(height := f.height - 1);
          frames := frames[i := f];
        }
        assert frames[..i + 1] == frames[..i] + [f];
        submitted := submitted + [f];
        i := i + 1;
      }
    }
  }
}
