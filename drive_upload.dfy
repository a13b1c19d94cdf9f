/** The request `GoogleDriveUploader.upload_file` builds
    (src/camera_capture.py:117-161): the file metadata (its name and, when a
    folder is known, its parent folder) and the MIME type chosen from the
    file extension. The Drive service call itself is not modelled. */
module DriveUpload {

  import opened Wrappers
  import opened Paths
  import opened PhotoNames

  const JpegMime: string := "image/jpeg"
  const DefaultMime: string := "application/octet-stream"

  /** The body sent with `files().create`: `{'name': ...}` plus `'parents'`
      when a folder was chosen. */
  datatype FileMetadata = FileMetadata(name: string, parents: Option<seq<string>>)

  datatype UploadRequest = UploadRequest(metadata: FileMetadata, mimeType: string)

  /** Python truthiness of an optional folder id: neither `None` nor `''`. */
  predicate Truthy(folderId: Option<string>)
  {
    folderId.Some? && folderId.value != []
  }

  /** `folder_id or self.folder_id`. */
  function TargetFolder(folderId: Option<string>, instanceFolderId: Option<string>): (t: Option<string>)
    ensures Truthy(t) <==> Truthy(folderId) || Truthy(instanceFolderId)
    ensures Truthy(folderId) ==> t == folderId
    ensures !Truthy(folderId) ==> t == instanceFolderId
  {
    if Truthy(folderId) then folderId else instanceFolderId
  }

  /** `mime_types.get(os.path.splitext(path)[1].lower(), 'application/octet-stream')`. */
  function MimeType(path: string): (m: string)
    ensures m == JpegMime || m == DefaultMime
    ensures m == JpegMime <==> AsciiLower(SplitExt(path).1) in {".jpg", ".jpeg"}
  {
    var ext := AsciiLower(SplitExt(path).1);
    if ext == ".jpg" || ext == ".jpeg" then JpegMime else DefaultMime
  }

  /** The metadata and MIME type of one upload; `folderId` is the argument,
      `instanceFolderId` the uploader's own `folder_id`. */
  function UploadFile(filePath: string, folderId: Option<string>, instanceFolderId: Option<string>): (u: UploadRequest)
    ensures u.metadata.name == Basename(filePath)
    ensures u.metadata.parents.Some? <==> Truthy(folderId) || Truthy(instanceFolderId)
    ensures Truthy(folderId) ==> u.metadata.parents == Some([folderId.value])
    ensures !Truthy(folderId) && Truthy(instanceFolderId) ==> u.metadata.parents == Some([instanceFolderId.value])
    ensures u.mimeType == MimeType(filePath)
  {
    var target := TargetFolder(folderId, instanceFolderId);
    var metadata := FileMetadata(Basename(filePath), if Truthy(target) then Some([target.value]) else None);
    UploadRequest(metadata, MimeType(filePath))
  }

  /** Any spelling of `.jpg` or `.jpeg`, in any letter case, after a file
      stem is sent as a JPEG. */
  lemma JpegExtensionsIgnoreCase(stem: string, ext: string)
    requires |stem| > 0 && stem[|stem| - 1] != '/' && stem[|stem| - 1] != '.'
    requires AsciiLower(ext) == ".jpg" || AsciiLower(ext) == ".jpeg"
    ensures MimeType(stem + ext) == JpegMime
  {
    assert ext[0] == '.' by {
      assert AsciiLowerChar(ext[0]) == '.';
    }
    forall i | 0 <= i < |ext| ensures ext[i] != '/' && (i > 0 ==> ext[i] != '.') {
      assert AsciiLower(ext)[i] == AsciiLowerChar(ext[i]);
    }
    assert '/' !in ext;
    assert '.' !in ext[1..] by {
      forall i | 0 <= i < |ext[1..]| ensures ext[1..][i] != '.' {
        assert ext[1..][i] == ext[i + 1];
      }
    }
    SplitExtOfSuffix(stem, ext);
  }

  /** A MIME type of `image/jpeg` means the path ends in `.jpg` or `.jpeg`,
      in some letter case. */
  lemma JpegOnlyForJpegNames(path: string)
    requires MimeType(path) == JpegMime
    ensures (|path| >= 4 && AsciiLower(path[|path| - 4..]) == ".jpg")
         || (|path| >= 5 && AsciiLower(path[|path| - 5..]) == ".jpeg")
  {
    var (root, ext) := SplitExt(path);
    assert path == root + ext;
    assert path[|path| - |ext|..] == ext;
  }

  /** Every photo the capture system queues is uploaded under its own file
      name as a JPEG, into the folder the uploader was built with. */
  lemma CapturedPhotoUpload(dir: string, n: nat, instanceFolderId: string)
    requires instanceFolderId != []
    ensures var u := UploadFile(JoinPath(dir, PhotoName(n)), None, Some(instanceFolderId));
      u.metadata == FileMetadata(PhotoName(n), Some([instanceFolderId])) && u.mimeType == JpegMime
  {
    var path := JoinPath(dir, PhotoName(n));
    var u := UploadFile(path, None, Some(instanceFolderId));
    assert u.metadata.name == PhotoName(n) by {
      PhotoNameHasNoSlash(n);
      BasenameOfJoin(dir, PhotoName(n));
    }
    assert u.mimeType == JpegMime by {
      CapturedPhotoIsJpeg(dir, n);
    }
  }

  lemma CapturedPhotoIsJpeg(dir: string, n: nat)
    ensures MimeType(JoinPath(dir, PhotoName(n))) == JpegMime
  {
    var digits := DecimalString(n);
    var stem := Prefix + digits;
    JoinPathAppend(dir, stem, Extension);
    var joined := JoinPath(dir, stem);
    assert joined[|joined| - 1] == digits[|digits| - 1] by {
      assert joined[|joined| - |stem|..] == stem;
    }
    JpegExtensionsIgnoreCase(joined, Extension);
  }

  lemma PhotoNameHasNoSlash(n: nat)
    ensures PhotoName(n) == Prefix + DecimalString(n) + Extension
    ensures '/' !in PhotoName(n)
  {
    var digits := DecimalString(n);
    var stem := Prefix + digits;
    forall i | 0 <= i < |PhotoName(n)| ensures PhotoName(n)[i] != '/' {
      if i >= |Prefix| && i < |stem| {
        assert PhotoName(n)[i] == digits[i - |Prefix|];
      }
    }
  }
}
