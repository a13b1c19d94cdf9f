/** The photo reel of the kiosk page (`PhotoReel` in static/js/main.js): the
    most recent captures, newest first, at most `MaxPhotos` of them once the
    reel has been filled by the page itself. */
module PhotoReel {

  /** `CONFIG.photoReel.maxPhotos`. */
  const MaxPhotos: nat := 3

  /** The reel's children after `addPhoto(filename)`: the new image is
      inserted before the first child, then the last child is removed if the
      reel holds more than `MaxPhotos`. */
  function AddedPhoto(children: seq<string>, filename: string): (r: seq<string>)
    ensures 0 < |r| <= |children| + 1 && r[0] == filename
    ensures r[1..] == children[..|r| - 1]
    ensures |children| < MaxPhotos ==> r == [filename] + children
    ensures |children| >= MaxPhotos ==> |r| == |children|
    ensures |children| <= MaxPhotos ==> |r| <= MaxPhotos
  {
    var inserted := [filename] + children;
    if |inserted| > MaxPhotos then inserted[..|inserted| - 1] else inserted
  }

  /** The children after `addPhoto` has been called for each of `filenames`
      in turn. */
  function AddedPhotos(children: seq<string>, filenames: seq<string>): (r: seq<string>)
    ensures |children| <= MaxPhotos ==> |r| <= MaxPhotos
    ensures filenames != [] ==> r != [] && r[0] == filenames[|filenames| - 1]
    decreases |filenames|
  {
    if filenames == [] then children
    else AddedPhotos(AddedPhoto(children, filenames[0]), filenames[1..])
  }

  function Reversed(s: seq<string>): (r: seq<string>)
    ensures |r| == |s|
    ensures forall i :: 0 <= i < |s| ==> r[i] == s[|s| - 1 - i]
  {
    if s == [] then [] else Reversed(s[1..]) + [s[0]]
  }

  function Min(a: nat, b: nat): nat { if a <= b then a else b }

  /** On a reel that holds at most `MaxPhotos` photos, adding photos one after
      another shows the newest `MaxPhotos` of everything, newest first. */
  lemma {:induction false} AddedPhotosShowsNewest(children: seq<string>, filenames: seq<string>)
    requires |children| <= MaxPhotos
    ensures AddedPhotos(children, filenames)
         == (Reversed(filenames) + children)[..Min(MaxPhotos, |filenames| + |children|)]
    decreases |filenames|
  {
    if filenames != [] {
      var f, rest := filenames[0], filenames[1..];
      var next := AddedPhoto(children, f);
      AddedPhotosShowsNewest(next, rest);
      var lhs := (Reversed(rest) + next)[..Min(MaxPhotos, |rest| + |next|)];
      var rhs := (Reversed(filenames) + children)[..Min(MaxPhotos, |filenames| + |children|)];
      assert |next| == Min(MaxPhotos, 1 + |children|);
      assert |lhs| == |rhs|;
      forall i | 0 <= i < |lhs| ensures lhs[i] == rhs[i] {
        if i < |rest| {
          assert lhs[i] == rest[|rest| - 1 - i];
          assert rhs[i] == filenames[|filenames| - 1 - i];
        } else if i == |rest| {
          assert lhs[i] == next[0];
          assert rhs[i] == filenames[0];
        } else {
          assert lhs[i] == next[i - |rest|];
          assert rhs[i] == children[i - |filenames|];
          assert next[1..][i - |rest| - 1] == children[i - |rest| - 1];
        }
      }
    }
  }

  /** A triple capture on a reel of at most three photos leaves exactly the
      three new photos on it, the last one taken first. */
  lemma TripleCaptureFillsReel(children: seq<string>, a: string, b: string, c: string)
    requires |children| <= MaxPhotos
    ensures AddedPhotos(children, [a, b, c]) == [c, b, a]
  {
    AddedPhotosShowsNewest(children, [a, b, c]);
    ReversedThree(a, b, c);
    PrefixOfThree([c, b, a], children);
  }

  lemma ReversedThree(a: string, b: string, c: string)
    ensures Reversed([a, b, c]) == [c, b, a]
  {
    var r := Reversed([a, b, c]);
    assert r[0] == c && r[1] == b && r[2] == a;
  }

  lemma PrefixOfThree(front: seq<string>, back: seq<string>)
    requires |front| == 3
    ensures (front + back)[..Min(MaxPhotos, 3 + |back|)] == front
  {
    assert Min(MaxPhotos, 3 + |back|) == 3;
  }

  class Reel {
    /** The filenames of the reel's `<img>` children, first child first. */
    var children: seq<string>
    /** Whether the "no photos yet" message is still on the page. */
    var noPhotosShown: bool

    constructor (photos: seq<string>, noPhotosMessage: bool)
      ensures children == photos && noPhotosShown == noPhotosMessage
    {
      children, noPhotosShown := photos, noPhotosMessage;
    }

    /** `addPhoto(filename)`. */
    method AddPhoto(filename: string)
      modifies this
      ensures children == AddedPhoto(old(children), filename)
      ensures !noPhotosShown
    {
      noPhotosShown := false;
      var inserted := [filename] + children;
      if |inserted| > MaxPhotos {
        inserted := inserted[..|inserted| - 1];
      }
      children := inserted;
    }

    /** The success path of `CameraApp.capturePhoto3`: `addPhoto` for every
        filename the server returned, in order. */
    method AddCapturedPhotos(filenames: seq<string>)
      modifies this
      ensures children == AddedPhotos(old(children), filenames)
      ensures noPhotosShown == (old(noPhotosShown) && filenames == [])
    {
      ghost var start := children;
      for i := 0 to |filenames|
        invariant AddedPhotos(start, filenames) == AddedPhotos(children, filenames[i..])
        invariant noPhotosShown == (old(noPhotosShown) && i == 0)
      {
        assert filenames[i..][1..] == filenames[i + 1..];
        AddPhoto(filenames[i]);
      }
    }
  }
}
