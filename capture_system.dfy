/** The capture counter, the capture-directory listing, the upload queue
    and the streaming flag of `CameraCaptureSystem`
    (src/camera_capture.py:261-453). The camera, the LED ring, the
    watermark and the sleeps are not modelled; `directory` stands for the
    names `os.listdir` reports for `capture_dir`, `uploadQueue` for the
    names put on the upload queue, and the two recording counters for the
    calls made to `picam2.start_recording` and `picam2.stop_recording`. */
module CaptureSystem {

  import opened Wrappers
  import opened PhotoNames
  import opened Paths
  import PhotoListing

  /** Every number the capture pattern reads from `directory` is at most
      `bound`. */
  ghost predicate NumbersAtMost(directory: seq<string>, bound: int)
  {
    forall i :: 0 <= i < |directory| && MatchPhotoNumber(directory[i]).Some? ==>
      MatchPhotoNumber(directory[i]).value <= bound
  }

  /** Every name `get_all_photos` keeps has a numeric key of at most `bound`. */
  ghost predicate KeysAtMost(directory: seq<string>, bound: int)
  {
    forall f :: f in directory && PhotoListing.IsListed(f) ==>
      PhotoListing.Keyed(f) && PhotoListing.Key(f) <= bound
  }

  class CameraCaptureSystem {
    const captureDir: string
    var captureCount: int
    var streaming: bool
    var recordingStarts: nat
    var recordingStops: nat
    var directory: seq<string>
    var uploadQueue: seq<string>

    /** The counter is never below any number already on disk, and the
        camera records exactly while `streaming` is set. */
    ghost predicate Valid()
      reads this
    {
      captureCount >= 0 &&
      NumbersAtMost(directory, captureCount) &&
      recordingStarts == recordingStops + (if streaming then 1 else 0)
    }

    /** `__init__`: the counter starts one past the largest photo number on
        disk (0 when there is none), the stream is off and nothing is queued. */
    constructor (dir: string, listing: seq<string>)
      ensures Valid()
      ensures captureDir == dir && directory == listing
      ensures NumbersAtMost(listing, captureCount - 1)
      ensures captureCount == 0 <==> forall i :: 0 <= i < |listing| ==> MatchPhotoNumber(listing[i]).None?
      ensures captureCount > 0 ==> exists i :: 0 <= i < |listing| && MatchPhotoNumber(listing[i]) == Some(captureCount - 1)
      ensures !streaming && uploadQueue == [] && recordingStarts == 0 && recordingStops == 0
    {
      captureDir := dir;
      directory := listing;
      var last := GetLastPhotoNumber(listing);
      captureCount := last + 1;
      streaming := false;
      recordingStarts := 0;
      recordingStops := 0;
      uploadQueue := [];
    }

    /** `start_mjpeg_stream`: starts recording only when not streaming. */
    method StartMjpegStream()
      requires Valid()
      modifies this
      ensures Valid()
      ensures streaming
      ensures recordingStarts == old(recordingStarts) + (if old(streaming) then 0 else 1)
      ensures recordingStops == old(recordingStops)
      ensures captureCount == old(captureCount) && directory == old(directory) && uploadQueue == old(uploadQueue)
    {
      if !streaming {
        streaming := true;
        recordingStarts := recordingStarts + 1;
      }
    }

    /** `stop_mjpeg_stream`: stops recording only when streaming. */
    method StopMjpegStream()
      requires Valid()
      modifies this
      ensures Valid()
      ensures !streaming
      ensures recordingStops == old(recordingStops) + (if old(streaming) then 1 else 0)
      ensures recordingStarts == old(recordingStarts)
      ensures captureCount == old(captureCount) && directory == old(directory) && uploadQueue == old(uploadQueue)
    {
      if streaming {
        streaming := false;
        recordingStops := recordingStops + 1;
      }
    }

    /** `_capture_single_image`: advances the counter, then saves
        `photo_<counter>.jpg`, a name not yet on disk and numbered above
        every photo there; recording is on for the shot and off afterwards. */
    method CaptureSingleImage() returns (filename: string)
      requires Valid()
      modifies this
      ensures Valid()
      ensures captureCount == old(captureCount) + 1
      ensures filename == JoinPath(captureDir, PhotoName(captureCount))
      ensures directory == old(directory) + [PhotoName(captureCount)]
      ensures NumbersAtMost(old(directory), captureCount - 1)
      ensures PhotoName(captureCount) !in old(directory)
      ensures KeysAtMost(old(directory), old(captureCount)) ==>
        PhotoListing.GetLatestPhoto(directory) == Success(Some(PhotoName(captureCount)))
      ensures !streaming
      ensures recordingStarts == old(recordingStarts) + (if old(streaming) then 0 else 1)
      ensures recordingStops == old(recordingStops) + 1
      ensures uploadQueue == old(uploadQueue)
    {
      captureCount := captureCount + 1;
      var name := PhotoName(captureCount);
      filename := JoinPath(captureDir, name);
      if !streaming {
        StartMjpegStream();
      }
      SaveNewPhoto(directory, captureCount);
      SavedPhotoIsLatest(directory, captureCount);
      directory := directory + [name];
      StopMjpegStream();
    }

    /** `upload`: puts the file name on the upload queue. */
    method Upload(filename: string)
      requires Valid()
      modifies this
      ensures Valid()
      ensures uploadQueue == old(uploadQueue) + [filename]
      ensures captureCount == old(captureCount) && directory == old(directory) && streaming == old(streaming)
      ensures recordingStarts == old(recordingStarts) && recordingStops == old(recordingStops)
    {
      uploadQueue := uploadQueue + [filename];
    }

    /** `capture_image`: one photo, queued for upload under the name it
        returns; the counter rises by exactly one. */
    method CaptureImage() returns (filename: string)
      requires Valid()
      modifies this
      ensures Valid()
      ensures captureCount == old(captureCount) + 1
      ensures filename == JoinPath(captureDir, PhotoName(captureCount))
      ensures directory == old(directory) + [PhotoName(captureCount)]
      ensures PhotoName(captureCount) !in old(directory)
      ensures uploadQueue == old(uploadQueue) + [filename]
      ensures !streaming
    {
      filename := CaptureSingleImage();
      Upload(filename);
    }

    /** The loop of `capture_image_3`: `count` single captures in a row,
        their paths collected in capture order. */
    method CaptureSeries(count: nat) returns (filenames: seq<string>)
      requires Valid()
      modifies this
      ensures Valid()
      ensures captureCount == old(captureCount) + count
      ensures filenames == InDirectory(captureDir, NamesAfter(old(captureCount), count))
      ensures directory == old(directory) + NamesAfter(old(captureCount), count)
      ensures uploadQueue == old(uploadQueue)
      ensures count > 0 ==> !streaming
    {
      filenames := [];
      ghost var last: nat := captureCount;
      for i := 0 to count
        invariant Valid()
        invariant captureCount == last + i
        invariant filenames == InDirectory(captureDir, NamesAfter(last, i))
        invariant directory == old(directory) + NamesAfter(last, i)
        invariant uploadQueue == old(uploadQueue)
        invariant i > 0 ==> !streaming
      {
        SeriesStep(captureDir, old(directory), last, i);
        var filename := CaptureSingleImage();
        filenames := filenames + [filename];
      }
    }

    /** The upload loop of `capture_image_3`: queues every name, in order. */
    method UploadAll(filenames: seq<string>)
      requires Valid()
      modifies this
      ensures Valid()
      ensures uploadQueue == old(uploadQueue) + filenames
      ensures captureCount == old(captureCount) && directory == old(directory) && streaming == old(streaming)
    {
      for i := 0 to |filenames|
        invariant Valid()
        invariant uploadQueue == old(uploadQueue) + filenames[..i]
        invariant captureCount == old(captureCount) && directory == old(directory) && streaming == old(streaming)
      {
        assert filenames[..i + 1] == filenames[..i] + [filenames[i]];
        Upload(filenames[i]);
      }
      assert filenames[..|filenames|] == filenames;
    }

    /** `capture_image_3`: three photos in capture order, numbered
        consecutively above the counter, all queued in that order; the
        counter then rises once more (by four in all) and the stream is left
        running. */
    method CaptureImage3() returns (filenames: seq<string>)
      requires Valid()
      modifies this
      ensures Valid()
      ensures captureCount == old(captureCount) + 4
      ensures |filenames| == 3
      ensures forall k :: 0 <= k < 3 ==> filenames[k] == JoinPath(captureDir, PhotoName(old(captureCount) + 1 + k))
      ensures directory == old(directory) + NamesAfter(old(captureCount), 3)
      ensures uploadQueue == old(uploadQueue) + filenames
      ensures streaming
    {
      filenames := CaptureSeries(3);
      captureCount := captureCount + 1;
      UploadAll(filenames);
      if !streaming {
        StartMjpegStream();
      }
    }
  }

  /** Each name joined onto `dir`, in order. */
  function InDirectory(dir: string, names: seq<string>): (paths: seq<string>)
    ensures |paths| == |names|
    ensures forall k :: 0 <= k < |names| ==> paths[k] == JoinPath(dir, names[k])
  {
    seq(|names|, k requires 0 <= k < |names| => JoinPath(dir, names[k]))
  }

  /** Saving the photo numbered above every number on disk adds a file that
      was not there and keeps every number at most the new one. */
  lemma SaveNewPhoto(directory: seq<string>, n: nat)
    requires NumbersAtMost(directory, n - 1)
    ensures PhotoName(n) !in directory
    ensures NumbersAtMost(directory + [PhotoName(n)], n)
  {
    PhotoNameRoundTrip(n);
    var after := directory + [PhotoName(n)];
    forall i | 0 <= i < |after| && MatchPhotoNumber(after[i]).Some?
      ensures MatchPhotoNumber(after[i]).value <= n
    {
      if i < |directory| {
        assert after[i] == directory[i];
      }
    }
  }

  /** One more capture extends both the returned paths and the directory
      by the next name of the series. */
  lemma SeriesStep(dir: string, directory: seq<string>, last: nat, i: nat)
    ensures InDirectory(dir, NamesAfter(last, i + 1))
      == InDirectory(dir, NamesAfter(last, i)) + [JoinPath(dir, PhotoName(last + i + 1))]
    ensures directory + NamesAfter(last, i + 1)
      == directory + NamesAfter(last, i) + [PhotoName(last + i + 1)]
  {
    assert NamesAfter(last, i + 1) == NamesAfter(last, i) + [PhotoName(last + i + 1)];
  }

  /** Saving a photo numbered above every key on disk makes it the latest. */
  lemma SavedPhotoIsLatest(directory: seq<string>, n: nat)
    ensures KeysAtMost(directory, n - 1) ==>
      PhotoListing.GetLatestPhoto(directory + [PhotoName(n)]) == Success(Some(PhotoName(n)))
  {
    if KeysAtMost(directory, n - 1) {
      PhotoListing.NewestCaptureIsLatest(directory, n);
    }
  }

  /** The names of `count` consecutive photos after number `last`. */
  function NamesAfter(last: nat, count: nat): (names: seq<string>)
    ensures |names| == count
    ensures forall k :: 0 <= k < count ==> names[k] == PhotoName(last + 1 + k)
  {
    seq(count, k requires 0 <= k < count => PhotoName(last + 1 + k))
  }
}
