/**
 * Admission of an uploaded batch (processFiles): files are examined in
 * order; a file with a foreign MIME type, one over the size cap or one that
 * fails to decode is skipped, and the batch stops as soon as the session
 * already holds the maximum number of photos.
 */
module Admission {
  import opened Config
  import opened ImageSizing

  /** Photo ids are numbers drawn from the clock; they are given to the model. */
  type PhotoId = real

  /** A normalised photo record: its id, the original file name and the resized dimensions. */
  datatype Photo = Photo(id: PhotoId, name: string, width: real, height: real)

  /** The outcome of the asynchronous decode and re-encode of one file, with the id stamped on success. */
  datatype Decode = Decoded(naturalWidth: nat, naturalHeight: nat, id: PhotoId) | DecodeFailed

  /** An uploaded file as the browser reports it. */
  datatype FileInput = FileInput(mimeType: string, size: nat, name: string, decode: Decode)

  /** What happens to one examined file; each non-`Added` case is one error message shown to the user. */
  datatype Notice = Added | InvalidType | TooLarge | DecodeError | CapReached

  datatype Verdict = Accept(photo: Photo) | Reject(reason: Notice)

  predicate AllowedType(mime: string) {
    mime in AllowedFileTypes
  }

  /** The photo record compressImage builds from a decoded file. */
  function Compress(name: string, d: Decode): (p: Photo)
    requires d.Decoded?
    ensures p.id == d.id && p.name == name
    ensures p.width <= MaxWidth && p.height <= MaxHeight
    ensures p.width <= d.naturalWidth as real && p.height <= d.naturalHeight as real
    ensures p.width * (d.naturalHeight as real) == p.height * (d.naturalWidth as real)
  {
    var s := Resize(d.naturalWidth as real, d.naturalHeight as real);
    Photo(d.id, name, s.width, s.height)
  }

  /** The checks of one loop iteration after the cap test, in the source's order. */
  function Classify(f: FileInput): (v: Verdict)
    ensures v.Accept? <==> AllowedType(f.mimeType) && f.size <= MaxFileSize && f.decode.Decoded?
    ensures v.Accept? ==> v.photo == Compress(f.name, f.decode)
    ensures !AllowedType(f.mimeType) ==> v == Reject(InvalidType)
    ensures AllowedType(f.mimeType) && f.size > MaxFileSize ==> v == Reject(TooLarge)
    ensures AllowedType(f.mimeType) && f.size <= MaxFileSize && f.decode.DecodeFailed? ==> v == Reject(DecodeError)
  {
    if !AllowedType(f.mimeType) then Reject(InvalidType)
    else if f.size > MaxFileSize then Reject(TooLarge)
    else if f.decode.DecodeFailed? then Reject(DecodeError)
    else Accept(Compress(f.name, f.decode))
  }

  /** The collection after the batch, and the notice of every examined file. */
  datatype Batch = Batch(photos: seq<Photo>, notices: seq<Notice>)

  /** The loop of processFiles, starting from the collection `photos`. */
  function Process(photos: seq<Photo>, files: seq<FileInput>): (r: Batch)
    ensures |r.photos| <= |photos| + |files|
    ensures |r.notices| <= |files|
    ensures files != [] ==> r.notices != []
    decreases |files|
  {
    if files == [] then Batch(photos, [])
    else if |photos| >= MaxPhotos then Batch(photos, [CapReached])
    else
      match Classify(files[0])
      case Accept(p) =>
        var rest := Process(photos + [p], files[1..]);
        Batch(rest.photos, [Added] + rest.notices)
      case Reject(why) =>
        var rest := Process(photos, files[1..]);
        Batch(rest.photos, [why] + rest.notices)
  }

  /** The collection after one examined file. */
  function AfterFile(photos: seq<Photo>, v: Verdict): seq<Photo>
  {
    if v.Accept? then photos + [v.photo] else photos
  }

  function NoticeOf(v: Verdict): Notice
  {
    match v
    case Accept(_) => Added
    case Reject(why) => why
  }

  /** One step of the loop, when the collection still has room. */
  lemma ProcessStep(photos: seq<Photo>, files: seq<FileInput>)
    requires files != [] && |photos| < MaxPhotos
    ensures Process(photos, files).photos == Process(AfterFile(photos, Classify(files[0])), files[1..]).photos
    ensures Process(photos, files).notices == [NoticeOf(Classify(files[0]))] + Process(AfterFile(photos, Classify(files[0])), files[1..]).notices
  {
  }

  // ---------------------------------------------------------------------
  // An independent description of the result

  /** The photos of every acceptable file of the batch, in order, with no cap. */
  function Acceptable(files: seq<FileInput>): (r: seq<Photo>)
    ensures |r| <= |files|
  {
    if files == [] then []
    else
      var rest := Acceptable(files[1..]);
      match Classify(files[0])
      case Accept(p) => [p] + rest
      case Reject(_) => rest
  }

  /** Free places left in a collection of `n` photos. */
  function Room(n: nat): nat
  {
    if n >= MaxPhotos then 0 else MaxPhotos - n
  }

  function Take<T>(s: seq<T>, k: nat): (r: seq<T>)
    ensures |r| == if k <= |s| then k else |s|
    ensures forall i :: 0 <= i < |r| ==> r[i] == s[i]
  {
    if k <= |s| then s[..k] else s
  }

  /**
   * The batch appends, after the photos already held, the first acceptable
   * files up to the free room, in batch order: a rejected file costs nothing
   * and the cap cuts the rest.
   */
  lemma {:induction false} ProcessIsCappedFilter(photos: seq<Photo>, files: seq<FileInput>)
    ensures Process(photos, files).photos == photos + Take(Acceptable(files), Room(|photos|))
    decreases |files|
  {
    if files == [] {
      assert photos + [] == photos;
    } else if |photos| >= MaxPhotos {
      assert photos + Take(Acceptable(files), 0) == photos;
    } else {
      var acc := Acceptable(files[1..]);
      match Classify(files[0])
      case Accept(p) =>
        ProcessIsCappedFilter(photos + [p], files[1..]);
        assert Acceptable(files) == [p] + acc;
        assert Room(|photos + [p]|) == Room(|photos|) - 1;
        assert Take([p] + acc, Room(|photos|)) == [p] + Take(acc, Room(|photos|) - 1);
        assert (photos + [p]) + Take(acc, Room(|photos|) - 1) == photos + ([p] + Take(acc, Room(|photos|) - 1));
      case Reject(_) =>
        ProcessIsCappedFilter(photos, files[1..]);
    }
  }

  /** The photos already held are kept, unchanged and first. */
  lemma ProcessKeepsExisting(photos: seq<Photo>, files: seq<FileInput>)
    ensures |Process(photos, files).photos| >= |photos|
    ensures Process(photos, files).photos[..|photos|] == photos
  {
    ProcessIsCappedFilter(photos, files);
  }

  /** A batch never takes the collection past the cap. */
  lemma ProcessRespectsCap(photos: seq<Photo>, files: seq<FileInput>)
    requires |photos| <= MaxPhotos
    ensures |Process(photos, files).photos| <= MaxPhotos
  {
    ProcessIsCappedFilter(photos, files);
  }

  /** With enough room, every acceptable file is admitted, in order. */
  lemma ProcessAdmitsAllWhenRoom(photos: seq<Photo>, files: seq<FileInput>)
    requires |photos| + |Acceptable(files)| <= MaxPhotos
    ensures Process(photos, files).photos == photos + Acceptable(files)
  {
    ProcessIsCappedFilter(photos, files);
  }

  /** A full collection stops the batch at once: no file is examined and one cap notice is shown. */
  lemma FullCollectionStops(photos: seq<Photo>, files: seq<FileInput>)
    requires |photos| >= MaxPhotos && files != []
    ensures Process(photos, files) == Batch(photos, [CapReached])
  {
  }

  /** Every admitted photo comes from an acceptable file of the batch. */
  lemma {:induction false} AcceptableFromFiles(files: seq<FileInput>, i: nat)
    requires i < |Acceptable(files)|
    ensures exists k :: 0 <= k < |files| && Classify(files[k]) == Accept(Acceptable(files)[i])
  {
    var rest := Acceptable(files[1..]);
    match Classify(files[0])
    case Accept(p) =>
      if i > 0 {
        AcceptableFromFiles(files[1..], i - 1);
        var k :| 0 <= k < |files[1..]| && Classify(files[1..][k]) == Accept(rest[i - 1]);
        assert files[k + 1] == files[1..][k];
      }
    case Reject(_) =>
      AcceptableFromFiles(files[1..], i);
      var k :| 0 <= k < |files[1..]| && Classify(files[1..][k]) == Accept(rest[i]);
      assert files[k + 1] == files[1..][k];
  }

  /**
   * One notice per examined file: the batch examines every file unless it
   * stops on the cap, and the cap notice, if any, is the last one and comes
   * only once the collection is full.
   */
  lemma {:induction false} NoticesFollowFiles(photos: seq<Photo>, files: seq<FileInput>)
    ensures var b := Process(photos, files);
            && |b.notices| <= |files|
            && (CapReached !in b.notices ==> |b.notices| == |files|)
            && (forall i :: 0 <= i < |b.notices| - 1 ==> b.notices[i] != CapReached)
            && (CapReached in b.notices ==> |b.photos| >= MaxPhotos)
            && (forall i :: 0 <= i < |b.notices| && b.notices[i] != CapReached ==> b.notices[i] == NoticeOf(Classify(files[i])))
    decreases |files|
  {
    if files != [] && |photos| < MaxPhotos {
      match Classify(files[0])
      case Accept(p) =>
        NoticesFollowFiles(photos + [p], files[1..]);
      case Reject(_) =>
        NoticesFollowFiles(photos, files[1..]);
    }
  }

  /** A file of exactly 10 MiB passes the size check. */
  lemma ExactlyTenMegabytesAccepted(name: string, d: Decode)
    requires d.Decoded?
    ensures Classify(FileInput("image/png", 10485760, name, d)).Accept?
    ensures Classify(FileInput("image/png", 10485761, name, d)) == Reject(TooLarge)
    ensures Classify(FileInput("image/gif", 10, name, d)) == Reject(InvalidType)
  {
  }
}
