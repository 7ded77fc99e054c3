/** The logic of MainActivity around the doodle view: choosing an unused video
    file name, and saving the frames to / restoring them from the activity's
    preferences. The file listing, the preferences store and the PNG/Base64
    codec are parameters. */
module Activity {
  import opened Editor
  import Decimal

  // ---------------------------------------------------------------------------
  // Video file naming

  /** fileInList: a linear scan of the listing for an equal name. */
  function FileInList(list: seq<string>, fileName: string): (found: bool)
    ensures found <==> exists i :: 0 <= i < |list| && list[i] == fileName
  {
    if |list| == 0 then false
    else if list[0] == fileName then true
    else
      var rest := FileInList(list[1..], fileName);
      assert rest ==> exists i :: 0 <= i < |list| && list[i] == fileName by {
        if rest {
          var i :| 0 <= i < |list| - 1 && list[1..][i] == fileName;
          assert list[i + 1] == fileName;
        }
      }
      assert (exists i :: 0 <= i < |list| && list[i] == fileName) ==> rest by {
        if exists i :: 0 <= i < |list| && list[i] == fileName {
          var i :| 0 <= i < |list| && list[i] == fileName;
          assert i > 0 && list[1..][i - 1] == fileName;
        }
      }
      rest
  }

  /** "Video" + n + ".mp4". */
  function VideoName(n: nat): (name: string)
    ensures |name| == 9 + |Decimal.NatToString(n)|
    ensures name[..5] == "Video" && name[|name| - 4..] == ".mp4"
    ensures name[5..|name| - 4] == Decimal.NatToString(n)
  {
    "Video" + Decimal.NatToString(n) + ".mp4"
  }

  /** The name probed at offset k when the listing has h entries. */
  function Candidate(h: nat, k: nat): (name: string)
    ensures |name| >= 10 && name[..5] == "Video" && name[|name| - 4..] == ".mp4"
    ensures name[5..|name| - 4] == Decimal.NatToString(h + k * k)
  {
    var n := h + k * k;
    VideoName(n)
  }

  lemma SquareIncreasing(i: nat, j: nat)
    requires i < j
    ensures i * i < j * j
  {
    assert i * i <= i * j;
    assert i * j < j * j;
  }

  /** The probe offsets 0, 1, 2, ... name pairwise different files. */
  lemma CandidatesDistinct(h: nat, i: nat, j: nat)
    requires i < j
    ensures Candidate(h, i) != Candidate(h, j)
  {
    SquareIncreasing(i, j);
    if Candidate(h, i) == Candidate(h, j) {
      Decimal.AffixedInjective("Video", h + i * i, h + j * j, ".mp4");
    }
  }

  /** The values f(0) .. f(m-1). */
  function Image<T(==)>(f: nat -> T, m: nat): set<T>
  {
    if m == 0 then {} else Image(f, m - 1) + {f(m - 1)}
  }

  lemma {:induction false} ImageMember<T>(f: nat -> T, m: nat, x: T)
    requires x in Image(f, m)
    ensures exists j :: 0 <= j < m && x == f(j)
  {
    if x != f(m - 1) {
      ImageMember(f, m - 1, x);
    }
  }

  /** A function that takes distinct values on 0 .. m-1 has m values there. */
  lemma {:induction false} ImageSize<T>(f: nat -> T, m: nat)
    requires forall i, j :: 0 <= i < j < m ==> f(i) != f(j)
    ensures |Image(f, m)| == m
  {
    if m > 0 {
      ImageSize(f, m - 1);
      if f(m - 1) in Image(f, m - 1) {
        ImageMember(f, m - 1, f(m - 1));
      }
    }
  }

  /** The distinct names in a listing. */
  function NamesIn(list: seq<string>): (s: set<string>)
    ensures |s| <= |list|
    ensures forall x :: x in s <==> x in list
  {
    if |list| == 0 then {} else {list[0]} + NamesIn(list[1..])
  }

  lemma SubsetSize(a: set<string>, b: set<string>)
    requires a <= b
    ensures |a| <= |b|
  {
    assert b == a + (b - a);
    assert a * (b - a) == {};
  }

  /** If the first m probes all hit the listing, the listing has at least m
      entries: the probed names are distinct. This is why the probe stops. */
  lemma ProbesBounded(files: seq<string>, h: nat, m: nat)
    requires forall j :: 0 <= j < m ==> FileInList(files, Candidate(h, j))
    ensures m <= |files|
  {
    var probe := (k: nat) => Candidate(h, k);
    forall i, j | 0 <= i < j < m ensures probe(i) != probe(j) {
      CandidatesDistinct(h, i, j);
    }
    ImageSize(probe, m);
    assert Image(probe, m) <= NamesIn(files) by {
      forall x | x in Image(probe, m) ensures x in NamesIn(files) {
        ImageMember(probe, m, x);
        var j :| 0 <= j < m && x == probe(j);
        assert FileInList(files, Candidate(h, j));
      }
    }
    SubsetSize(Image(probe, m), NamesIn(files));
  }

  /** findAvailableName. `listing` is the directory's file list, or None when
      the directory does not exist. With a listing of h names the result is
      the first of "Video" + (h + k*k) + ".mp4", k = 0, 1, 2, ..., that is not
      listed; some k <= h is always free. */
  method FindAvailableName(listing: Option<seq<string>>) returns (videoName: string)
    ensures listing.None? ==> videoName == "Video0.mp4"
    ensures listing.Some? ==> !FileInList(listing.value, videoName)
    ensures listing.Some? ==>
      exists k: nat :: k <= |listing.value| && videoName == Candidate(|listing.value|, k) &&
        forall j :: 0 <= j < k ==> FileInList(listing.value, Candidate(|listing.value|, j))
  {
    if listing.Some? {
      var files := listing.value;
      var h := |files|;
      var offset := 0;
      videoName := VideoName(h);
      assert videoName == Candidate(h, 0);
      while FileInList(files, videoName)
        invariant offset <= h
        invariant videoName == Candidate(h, offset)
        invariant forall j :: 0 <= j < offset ==> FileInList(files, Candidate(h, j))
        decreases h - offset
      {
        ProbesBounded(files, h, offset + 1);
        offset := offset + 1;
        videoName := VideoName(h + offset * offset);
      }
    } else {
      videoName := "Video0.mp4";
    }
  }

  // ---------------------------------------------------------------------------
  // Persistence of the frames

  /** The activity's preferences: the integer entries (getInt / putInt) and the
      string entries (getString / putString). */
  datatype Prefs = Prefs(ints: map<string, int>, strings: map<string, string>)

  const COUNT_KEY: string := "numberOfFrames"

  /** "frame" + i. */
  function FrameKey(i: nat): (key: string)
    ensures |key| == 5 + |Decimal.NatToString(i)|
    ensures key[..5] == "frame" && key[5..] == Decimal.NatToString(i)
  {
    "frame" + Decimal.NatToString(i)
  }

  lemma FrameKeyInjective(i: nat, j: nat)
    requires FrameKey(i) == FrameKey(j)
    ensures i == j
  {
    assert FrameKey(i) + "" == FrameKey(i);
    assert FrameKey(j) + "" == FrameKey(j);
    Decimal.AffixedInjective("frame", i, j, "");
  }

  /** getInt(key, default). */
  function GetInt(p: Prefs, key: string, default: int): (value: int)
    ensures key in p.ints ==> value == p.ints[key]
    ensures key !in p.ints ==> value == default
  {
    if key in p.ints then p.ints[key] else default
  }

  /** How many keys the restore loop `i < frameCount && i < MAX_FRAME` visits. */
  function FrameLimit(count: int): (n: nat)
    ensures n <= MAX_FRAME
    ensures count >= 0 ==> n <= count
    ensures count > 0 ==> n == MAX_FRAME || n == count
    ensures count <= 0 ==> n == 0
  {
    if count <= 0 then 0 else if count < MAX_FRAME then count else MAX_FRAME
  }

  /** The frames stored under "frame0" .. "frame(n-1)", in key order, each key
      that is absent skipped. */
  function FramesUnder(strings: map<string, string>, decode: string -> Bitmap, n: nat): (r: seq<Bitmap>)
    ensures |r| <= n
  {
    if n == 0 then []
    else
      FramesUnder(strings, decode, n - 1) +
      (if FrameKey(n - 1) in strings then [decode(strings[FrameKey(n - 1)])] else [])
  }

  /** When no key is missing, every key contributes its frame at its own index. */
  lemma {:induction false} FramesUnderAllPresent(strings: map<string, string>, decode: string -> Bitmap, n: nat)
    requires forall i :: 0 <= i < n ==> FrameKey(i) in strings
    ensures |FramesUnder(strings, decode, n)| == n
    ensures forall i :: 0 <= i < n ==> FramesUnder(strings, decode, n)[i] == decode(strings[FrameKey(i)])
  {
    if n > 0 {
      FramesUnderAllPresent(strings, decode, n - 1);
    }
  }

  /** What onCreate hands to the DoodleView constructor. */
  function RestoredFrames(p: Prefs, decode: string -> Bitmap): (r: seq<Bitmap>)
    ensures |r| <= MAX_FRAME
    ensures |r| <= FrameLimit(GetInt(p, COUNT_KEY, 0))
  {
    FramesUnder(p.strings, decode, FrameLimit(GetInt(p, COUNT_KEY, 0)))
  }

  /** The restore loop of onCreate. */
  method RestoreFrames(p: Prefs, decode: string -> Bitmap) returns (bitmaps: seq<Bitmap>)
    ensures bitmaps == RestoredFrames(p, decode)
  {
    bitmaps := [];
    var frameCount := GetInt(p, COUNT_KEY, 0);
    var i := 0;
    while i < frameCount && i < MAX_FRAME
      invariant 0 <= i <= FrameLimit(frameCount)
      invariant bitmaps == FramesUnder(p.strings, decode, i)
    {
      var key := FrameKey(i);
      if key in p.strings {
        bitmaps := bitmaps + [decode(p.strings[key])];
      }
      i := i + 1;
    }
  }

  /** The string entries the save loop puts for the frames: keys "frame0" ..
      "frame(n-1)", the i-th holding the encoding of frame i. */
  function FrameEntries(frames: seq<Bitmap>, encode: Bitmap -> string): (m: map<string, string>)
    ensures forall i :: 0 <= i < |frames| ==> FrameKey(i) in m && m[FrameKey(i)] == encode(frames[i])
    ensures m.Keys == Image(FrameKey, |frames|)
  {
    if |frames| == 0 then map[]
    else
      var n := |frames| - 1;
      var earlier := FrameEntries(frames[..n], encode);
      var m := earlier[FrameKey(n) := encode(frames[n])];
      assert forall i :: 0 <= i < |frames| ==> FrameKey(i) in m && m[FrameKey(i)] == encode(frames[i]) by {
        forall i | 0 <= i < |frames| ensures FrameKey(i) in m && m[FrameKey(i)] == encode(frames[i]) {
          if i < n {
            assert frames[..n][i] == frames[i];
            if FrameKey(i) == FrameKey(n) { FrameKeyInjective(i, n); }
          }
        }
      }
      m
  }

  /** The preferences after onStop: the frame count, and one encoded frame per
      index; every other entry, including frame keys beyond the count left by an
      earlier, longer save, is kept. */
  function Saved(p: Prefs, frames: seq<Bitmap>, encode: Bitmap -> string): (r: Prefs)
    ensures GetInt(r, COUNT_KEY, 0) == |frames|
    ensures forall key :: key in p.ints && key != COUNT_KEY ==> key in r.ints && r.ints[key] == p.ints[key]
    ensures r.ints.Keys == p.ints.Keys + {COUNT_KEY}
    ensures forall i :: 0 <= i < |frames| ==>
      FrameKey(i) in r.strings && r.strings[FrameKey(i)] == encode(frames[i])
    ensures forall key :: key in p.strings && key !in Image(FrameKey, |frames|) ==>
      key in r.strings && r.strings[key] == p.strings[key]
    ensures r.strings.Keys == p.strings.Keys + Image(FrameKey, |frames|)
  {
    Prefs(p.ints[COUNT_KEY := |frames|], p.strings + FrameEntries(frames, encode))
  }

  lemma UpdateAfterMerge<K, V>(a: map<K, V>, b: map<K, V>, k: K, v: V)
    ensures (a + b)[k := v] == a + b[k := v]
  {
  }

  /** The save loop of onStop. */
  method SaveFrames(p: Prefs, frames: seq<Bitmap>, encode: Bitmap -> string) returns (r: Prefs)
    ensures r == Saved(p, frames, encode)
  {
    var ints := p.ints[COUNT_KEY := |frames|];
    var strings := p.strings;
    for i := 0 to |frames|
      invariant strings == p.strings + FrameEntries(frames[..i], encode)
    {
      var key, value := FrameKey(i), encode(frames[i]);
      var done := FrameEntries(frames[..i], encode);
      assert frames[..i + 1][..i] == frames[..i];
      assert FrameEntries(frames[..i + 1], encode) == done[key := value];
      UpdateAfterMerge(p.strings, done, key, value);
      strings := strings[key := value];
    }
    assert frames[..|frames|] == frames;
    r := Prefs(ints, strings);
  }

  /** Saving and then restoring gives back the saved frames in order, cut to
      MAX_FRAME, provided the codec decodes what it encodes. */
  lemma SaveThenRestore(p: Prefs, frames: seq<Bitmap>, encode: Bitmap -> string, decode: string -> Bitmap)
    requires forall b :: decode(encode(b)) == b
    ensures RestoredFrames(Saved(p, frames, encode), decode) ==
      frames[..if |frames| < MAX_FRAME then |frames| else MAX_FRAME]
  {
    var s := Saved(p, frames, encode);
    var n := FrameLimit(|frames|);
    FramesUnderAllPresent(s.strings, decode, n);
  }

  /** Stopping and restarting the app resumes a project of at most MAX_FRAME
      frames with the same frames and the cursor on the last one. */
  lemma RestartResumesProject(v: View, p: Prefs, encode: Bitmap -> string, decode: string -> Bitmap)
    requires forall b :: decode(encode(b)) == b
    requires 0 < |v.frames| <= MAX_FRAME
    ensures var w := Restored(RestoredFrames(Saved(p, v.frames, encode), decode));
      w.frames == v.frames && w.frameIndex == |v.frames| - 1 && !w.animating
  {
    SaveThenRestore(p, v.frames, encode, decode);
    assert v.frames[..|v.frames|] == v.frames;
  }
}
