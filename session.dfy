/**
 * The editing session: the module-level state of app.js (the selected
 * photos, the generated PDF and the share link) together with the two form
 * fields the session reads, and the operations that change them.
 */
module Session {
  import opened Config
  import opened Admission
  import opened PhotoLayout
  import opened FormText
  import opened PdfFileName

  /** The photos left after removing every photo with the given id (the filter of removePhoto). */
  function Without(photos: seq<Photo>, id: PhotoId): (r: seq<Photo>)
    ensures |r| <= |photos|
  {
    if photos == [] then []
    else if photos[0].id == id then Without(photos[1..], id)
    else [photos[0]] + Without(photos[1..], id)
  }

  /** A photo is left exactly when it was there and has another id. */
  lemma {:induction false} WithoutMembers(photos: seq<Photo>, id: PhotoId, p: Photo)
    ensures p in Without(photos, id) <==> p in photos && p.id != id
  {
    if photos != [] {
      WithoutMembers(photos[1..], id, p);
      assert photos == [photos[0]] + photos[1..];
    }
  }

  /** Removal keeps the relative order: it works piece by piece on a split collection. */
  lemma {:induction false} WithoutAppend(a: seq<Photo>, b: seq<Photo>, id: PhotoId)
    ensures Without(a + b, id) == Without(a, id) + Without(b, id)
  {
    if a == [] {
      assert a + b == b;
    } else {
      assert (a + b)[1..] == a[1..] + b;
      WithoutAppend(a[1..], b, id);
    }
  }

  /** Removing an id no photo has changes nothing. */
  lemma {:induction false} WithoutAbsent(photos: seq<Photo>, id: PhotoId)
    requires forall i :: 0 <= i < |photos| ==> photos[i].id != id
    ensures Without(photos, id) == photos
  {
    if photos != [] {
      WithoutAbsent(photos[1..], id);
    }
  }

  /** Removing the same id twice removes nothing more. */
  lemma WithoutIdempotent(photos: seq<Photo>, id: PhotoId)
    ensures Without(Without(photos, id), id) == Without(photos, id)
  {
    var r := Without(photos, id);
    forall i | 0 <= i < |r| ensures r[i].id != id {
      WithoutMembers(photos, id, r[i]);
    }
    WithoutAbsent(r, id);
  }

  /** The abstract content of the generated PDF: header fields, photo placements and added pages. */
  datatype PdfDocument = PdfDocument(turma: string, students: string, placements: seq<Placement>, pagesAdded: nat)

  /** Where generatePDF starts the photos: the 20 mm margin and y = 90 below the header lines. */
  function PhotoArea(pageHeight: real): Geometry
  {
    Geometry(20.0, 90.0, pageHeight)
  }

  class Session {
    var selectedPhotos: seq<Photo>
    var generatedPdfBlob: Option<PdfDocument>
    var shareLink: Option<string>
    /** The class field and the student fields of the form, as typed. */
    var turmaInput: string
    var studentInputs: seq<string>

    ghost predicate Valid()
      reads this
    {
      |selectedPhotos| <= MaxPhotos && |studentInputs| <= MaxStudents
    }

    constructor ()
      ensures Valid()
      ensures selectedPhotos == [] && generatedPdfBlob == None && shareLink == None
      ensures turmaInput == [] && studentInputs == []
    {
      selectedPhotos := [];
      generatedPdfBlob := None;
      shareLink := None;
      turmaInput := [];
      studentInputs := [];
    }

    /** processFiles: examine the batch in order, appending each accepted photo; report one notice per examined file. */
    method ProcessFiles(files: seq<FileInput>) returns (notices: seq<Notice>)
      requires Valid()
      modifies this
      ensures Valid()
      ensures selectedPhotos == Process(old(selectedPhotos), files).photos
      ensures notices == Process(old(selectedPhotos), files).notices
      ensures generatedPdfBlob == old(generatedPdfBlob) && shareLink == old(shareLink)
      ensures turmaInput == old(turmaInput) && studentInputs == old(studentInputs)
    {
      ghost var target := Process(selectedPhotos, files);
      ProcessRespectsCap(selectedPhotos, files);
      notices := [];
      var i := 0;
      while i < |files|
        invariant 0 <= i <= |files|
        invariant Process(selectedPhotos, files[i..]).photos == target.photos
        invariant notices + Process(selectedPhotos, files[i..]).notices == target.notices
        invariant generatedPdfBlob == old(generatedPdfBlob) && shareLink == old(shareLink)
        invariant turmaInput == old(turmaInput) && studentInputs == old(studentInputs)
      {
        assert files[i..][1..] == files[i + 1..];
        if |selectedPhotos| >= MaxPhotos {
          notices := notices + [CapReached];
          break;
        }
        var file := files[i];
        ProcessStep(selectedPhotos, files[i..]);
        var notice;
        selectedPhotos, notice := Examine(selectedPhotos, file);
        assert (notices + [notice]) + Process(selectedPhotos, files[i + 1..]).notices
            == notices + ([notice] + Process(selectedPhotos, files[i + 1..]).notices);
        notices := notices + [notice];
        i := i + 1;
      }
    }

    /** One examined file of processFiles: the checks in the source's order, and the photo appended on success. */
    static method Examine(photos: seq<Photo>, file: FileInput) returns (next: seq<Photo>, notice: Notice)
      ensures next == AfterFile(photos, Classify(file))
      ensures notice == NoticeOf(Classify(file))
    {
      next := photos;
      if !AllowedType(file.mimeType) {
        notice := InvalidType;
      } else if file.size > MaxFileSize {
        notice := TooLarge;
      } else if file.decode.DecodeFailed? {
        notice := DecodeError;
      } else {
        next := photos + [Compress(file.name, file.decode)];
        notice := Added;
      }
    }

    /** removePhoto: drop every photo with this id. */
    method RemovePhoto(id: PhotoId)
      requires Valid()
      modifies this
      ensures Valid()
      ensures selectedPhotos == Without(old(selectedPhotos), id)
      ensures generatedPdfBlob == old(generatedPdfBlob) && shareLink == old(shareLink)
      ensures turmaInput == old(turmaInput) && studentInputs == old(studentInputs)
    {
      selectedPhotos := Without(selectedPhotos, id);
    }

    /** addStudentField: one more, empty, student field unless ten are already there. */
    method AddStudentField() returns (added: bool)
      requires Valid()
      modifies this
      ensures Valid()
      ensures added <==> |old(studentInputs)| < MaxStudents
      ensures studentInputs == if added then old(studentInputs) + [[]] else old(studentInputs)
      ensures selectedPhotos == old(selectedPhotos) && generatedPdfBlob == old(generatedPdfBlob)
      ensures shareLink == old(shareLink) && turmaInput == old(turmaInput)
    {
      added := |studentInputs| < MaxStudents;
      if added {
        studentInputs := studentInputs + [[]];
      }
    }

    /**
     * generatePDF on a page of the given height: nothing happens unless the
     * form is valid; otherwise the document gets the header fields and the
     * photo layout, and its download name is returned.
     */
    method GeneratePdf(date: Date, pageHeight: real) returns (fileName: Option<string>)
      requires Valid()
      modifies this
      ensures Valid()
      ensures !ValidateForm(turmaInput, studentInputs) ==> fileName == None && generatedPdfBlob == old(generatedPdfBlob)
      ensures ValidateForm(turmaInput, studentInputs) ==>
                && fileName == Some(FileName(date, turmaInput, studentInputs))
                && generatedPdfBlob.Some?
                && generatedPdfBlob.value.turma == Trim(turmaInput)
                && generatedPdfBlob.value.students == StudentNames(studentInputs)
                && IsLayout(|selectedPhotos|, PhotoArea(pageHeight),
                            generatedPdfBlob.value.placements, generatedPdfBlob.value.pagesAdded)
      ensures selectedPhotos == old(selectedPhotos) && shareLink == old(shareLink)
      ensures turmaInput == old(turmaInput) && studentInputs == old(studentInputs)
    {
      if !ValidateForm(turmaInput, studentInputs) {
        fileName := None;
        return;
      }
      var cells: seq<Placement> := [];
      var pagesAdded: nat := 0;
      if |selectedPhotos| > 0 {
        cells, pagesAdded := AddPhotosToPdf(|selectedPhotos|, PhotoArea(pageHeight));
      } else {
        NoPhotosNoLayout(PhotoArea(pageHeight));
      }
      generatedPdfBlob := Some(PdfDocument(Trim(turmaInput), StudentNames(studentInputs), cells, pagesAdded));
      fileName := Some(FileName(date, turmaInput, studentInputs));
    }

    /** clearForm: empty the form and the photo collection and forget the PDF and the share link. */
    method ClearForm()
      modifies this
      ensures Valid()
      ensures selectedPhotos == [] && generatedPdfBlob == None && shareLink == None
      ensures turmaInput == [] && studentInputs == []
    {
      turmaInput := [];
      studentInputs := [];
      selectedPhotos := [];
      generatedPdfBlob := None;
      shareLink := None;
    }
  }
}
