/** Upload of a post's media file: the MIME-type filter applied while the
    file arrives, the size limit, and the description returned for a stored
    file, whose media type comes from the MIME type's top-level part. */
module PostMedia {
  import opened Common

  const NoFile := "No file uploaded"
  const Rejected := "Only image, video, and audio files are allowed!"

  /** The subtypes the filter accepts, each matched after a "/" at the very
      end of the MIME type. */
  const AllowedSubtypes: seq<string> := ["jpg", "jpeg", "png", "gif", "mp4", "webm", "mp3", "wav", "ogg"]

  /** 50 MiB. */
  const MaxFileSize := 50 * 1024 * 1024

  const UploadPath := "/uploads/post-media/"

  /** The filter: the MIME type ends in "/" and one of the allowed subtypes. */
  predicate AcceptedMime(mime: string) {
    exists k :: 0 <= k < |AllowedSubtypes| && EndsWith(mime, "/" + AllowedSubtypes[k])
  }

  datatype MediaType = Image | Video | Audio | Unknown

  /** The media type by MIME prefix, tried in the order image, video, audio. */
  function Classify(mime: string): MediaType {
    if StartsWith(mime, "image/") then Image
    else if StartsWith(mime, "video/") then Video
    else if StartsWith(mime, "audio/") then Audio
    else Unknown
  }

  /** The part of a MIME type before its first "/", if it has one. */
  function TopLevel(mime: string): (r: Option<string>)
    ensures r.Some? ==> OccursAt(mime, "/", |r.value|) && r.value == mime[..|r.value|]
    ensures r.Some? ==> forall j :: 0 <= j < |r.value| ==> mime[j] != '/'
    ensures r.None? <==> forall j :: 0 <= j < |mime| ==> mime[j] != '/'
  {
    match IndexOfFrom(mime, "/", 0)
    case None =>
      assert forall j :: 0 <= j < |mime| ==> mime[j] != '/' by {
        forall j | 0 <= j < |mime| ensures mime[j] != '/' {
          assert !OccursAt(mime, "/", j);
          assert mime[j..j + 1] == [mime[j]];
        }
      }
      None
    case Some(i) =>
      assert forall j :: 0 <= j < i ==> mime[j] != '/' by {
        forall j | 0 <= j < i ensures mime[j] != '/' {
          assert !OccursAt(mime, "/", j);
          assert mime[j..j + 1] == [mime[j]];
        }
      }
      assert mime[i..i + 1] == "/";
      assert mime[i] == '/';
      Some(mime[..i])
  }

  function KindOf(topLevel: Option<string>): MediaType {
    match topLevel
    case Some("image") => Image
    case Some("video") => Video
    case Some("audio") => Audio
    case _ => Unknown
  }

  /** Prefix tests and the top-level type agree: the classifier reports
      exactly the kind named before the first "/". */
  lemma ClassifyIsTopLevel(mime: string)
    ensures Classify(mime) == KindOf(TopLevel(mime))
  {
    PrefixIsTopLevel(mime, "image");
    PrefixIsTopLevel(mime, "video");
    PrefixIsTopLevel(mime, "audio");
  }

  lemma PrefixIsTopLevel(mime: string, word: string)
    requires forall j :: 0 <= j < |word| ==> word[j] != '/'
    ensures StartsWith(mime, word + "/") <==> TopLevel(mime) == Some(word)
  {
    var t := TopLevel(mime);
    if StartsWith(mime, word + "/") {
      assert mime[|word|] == '/';
      assert forall j :: 0 <= j < |word| ==> mime[j] == word[j];
      assert t.Some?;
      var n := |t.value|;
      assert mime[n..n + 1] == "/";
      assert mime[n] == '/';
      assert n == |word|;
      assert mime[..|word|] == word;
    }
    if t == Some(word) {
      assert mime[..|word| + 1] == word + "/";
    }
  }

  /** The filter admits subtypes outside the three families the classifier
      knows: an Ogg container sent as "application/ogg" is stored and
      described as of unknown type. */
  lemma AcceptedYetUnknown()
    ensures AcceptedMime("application/ogg") && Classify("application/ogg") == Unknown
  {
    var m := "application/ogg";
    assert AllowedSubtypes[8] == "ogg";
    assert m[|m| - 4..] == "/ogg";
    assert EndsWith(m, "/" + AllowedSubtypes[8]);
    assert m[..6][0] == 'a' && m[..6][1] == 'p';
    assert !StartsWith(m, "image/") && !StartsWith(m, "video/") && !StartsWith(m, "audio/");
  }

  /** A file as the upload middleware hands it over; `filename` is the name
      it was stored under. */
  datatype File = File(filename: string, originalName: string, mimetype: string, size: int)

  datatype Uploaded = Uploaded(mediaUrl: string, mediaType: MediaType, filename: string, originalName: string, size: int)

  /** The filter runs first, then the size limit, then the check that a file
      arrived at all; a stored file is described by its public URL and kind. */
  function UploadMedia(file: Option<File>): (r: Result<Uploaded>)
    ensures file.None? ==> r == Err(BadRequest(NoFile))
    ensures file.Some? && !AcceptedMime(file.value.mimetype) ==> r == Err(BadRequest(Rejected))
    ensures file.Some? && AcceptedMime(file.value.mimetype) && file.value.size > MaxFileSize ==> r == Err(PayloadTooLarge)
    ensures r.Ok? <==> file.Some? && AcceptedMime(file.value.mimetype) && file.value.size <= MaxFileSize
    ensures r.Ok? ==> StartsWith(r.value.mediaUrl, UploadPath) && r.value.mediaUrl[|UploadPath|..] == file.value.filename
    ensures r.Ok? ==> r.value.mediaType == KindOf(TopLevel(file.value.mimetype))
    ensures r.Ok? ==> r.value.filename == file.value.filename && r.value.originalName == file.value.originalName
                      && r.value.size == file.value.size
  {
    match file
    case None => Err(BadRequest(NoFile))
    case Some(f) =>
      if !AcceptedMime(f.mimetype) then Err(BadRequest(Rejected))
      else if f.size > MaxFileSize then Err(PayloadTooLarge)
      else
        ClassifyIsTopLevel(f.mimetype);
        var url := UploadPath + f.filename;
        assert url[..|UploadPath|] == UploadPath && url[|UploadPath|..] == f.filename;
        Ok(Uploaded(url, Classify(f.mimetype), f.filename, f.originalName, f.size))
  }
}
