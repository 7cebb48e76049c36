/** The single-file upload: the component state (`error`, `uploadedFile`) and the `defaultFile`
    prop as a class, `handleUploadFile` and the `defaultFile` effect as methods, and the
    preview it shows as pure selections. */
module UploadSingleFile {
  import opened Wrappers
  import opened BrowserFile
  import ImageFile
  import UrlFileName

  /** The message set when more than one file is dropped ("only one file can be uploaded"). */
  const OnlyOneFile: string := "สามารถอัปโหลดได้เพียงไฟล์เดียวเท่านั้น"

  /** The `defaultFile` prop, seen through the accessor props `srcImage` and `altImage`; each
      accessor may give nothing. */
  datatype DefaultFile = DefaultFile(src: Option<string>, alt: Option<string>)

  /** The `{ src, alt, isImage }` object the preview shows. */
  datatype Preview = Preview(src: Source, alt: string, isImage: bool)

  /** `transformedInitialImage`: the default file's preview, if there is a default file. Its
      `isImage` asks `isImageFile` about the name at the end of the URL; a missing URL gives the
      placeholder name. */
  function InitialImage(d: Option<DefaultFile>): (p: Option<Preview>)
    ensures p.Some? <==> d.Some?
    ensures p.Some? ==> p.value.src == Url(d.value.src.GetOr("")) && p.value.alt == d.value.alt.GetOr("")
  {
    match d
    case None => None
    case Some(f) =>
      Some(Preview(Url(f.src.GetOr("")), f.alt.GetOr(""),
                   ImageFile.IsImageFile(UrlFileName.FileNameFromUrl(f.src))))
  }

  /** `transformedUploadedImage`: the uploaded file's preview, named after the file. */
  function UploadedImage(f: Option<File>): (p: Option<Preview>)
    ensures p.Some? <==> f.Some?
    ensures p.Some? ==> p.value.src == ObjectUrl(f.value) && p.value.alt == f.value.name
    ensures p.Some? ==> (p.value.isImage <==> "image/" <= f.value.mimeType)
  {
    match f
    case None => None
    case Some(file) => Some(Preview(ObjectUrl(file), file.name, HasImageType(file)))
  }

  /** `transformedImage`: the uploaded preview when there is one, otherwise the default one. */
  function ShownImage(d: Option<DefaultFile>, f: Option<File>): (p: Option<Preview>)
    ensures p.Some? <==> f.Some? || d.Some?
    ensures f.Some? ==> p.value.src == ObjectUrl(f.value) && p.value.alt == f.value.name
    ensures f.None? ==> p == InitialImage(d)
  {
    if f.Some? then UploadedImage(f) else InitialImage(d)
  }

  /** The drop zone is shown instead of the preview when nothing is shown, or when the default
      file has an empty URL and nothing was uploaded. */
  predicate ShowsDropzone(d: Option<DefaultFile>, f: Option<File>) {
    var shown := ShownImage(d, f);
    var initial := InitialImage(d);
    shown.None? || ((initial.None? || initial.value.src == Url("")) && UploadedImage(f).None?)
  }

  /** The drop zone appears exactly when nothing was uploaded and the default file is missing
      or has no URL. */
  lemma ShowsDropzoneExactly(d: Option<DefaultFile>, f: Option<File>)
    ensures ShowsDropzone(d, f) <==> f.None? && (d.None? || d.value.src.GetOr("") == "")
  {
  }

  /** A default file without a URL is never previewed as an image: its name is the placeholder. */
  lemma {:induction false} DefaultWithoutUrlIsNoImage(d: DefaultFile)
    requires d.src == None || d.src == Some("")
    ensures InitialImage(Some(d)).value.isImage == false
  {
    var name := UrlFileName.FileNameFromUrl(d.src);
    assert name == UrlFileName.NoName;
    ImageFile.BeyondAsciiIsNotImage(name);
  }

  /** The default file's preview is an image exactly when the same URL, shown as a row of the
      multi-file list, would be: both give a missing URL the placeholder name. */
  lemma {:induction false} InitialImageAgreesWithUrl(d: DefaultFile)
    ensures InitialImage(Some(d)).value.isImage
      == ImageFile.IsImageFile(UrlFileName.FileNameFromUrl(Some(d.src.GetOr(""))))
  {
    if d.src.None? {
      assert UrlFileName.FileNameFromUrl(d.src) == UrlFileName.FileNameFromUrl(Some(""));
    }
  }

  class UploadSingle {
    var error: string
    var uploadedFile: Option<File>
    /** The `defaultFile` prop. */
    var defaultFile: Option<DefaultFile>
    /** Whether the `onFileAccepted` prop is given. */
    const hasOnFileAccepted: bool

    constructor(defaultFile: Option<DefaultFile>, hasOnFileAccepted: bool)
      ensures error == "" && uploadedFile == None
      ensures this.defaultFile == defaultFile && this.hasOnFileAccepted == hasOnFileAccepted
    {
      error := "";
      uploadedFile := None;
      this.defaultFile := defaultFile;
      this.hasOnFileAccepted := hasOnFileAccepted;
    }

    /** The preview on screen. */
    function Shown(): Option<Preview>
      reads this
    {
      ShownImage(defaultFile, uploadedFile)
    }

    /** The `defaultFile` effect: a new default file discards the uploaded one. */
    method SetDefaultFile(d: Option<DefaultFile>)
      modifies this
      ensures defaultFile == d && uploadedFile == None && error == old(error)
      ensures Shown() == InitialImage(d)
    {
      defaultFile := d;
      uploadedFile := None;
    }

    /** `handleUploadFile(files)`: more than one file only sets the error message; otherwise the
        error is cleared, `files[0]` (nothing, for an empty drop) becomes the uploaded file and is
        passed to `onFileAccepted`. The calls of `onFileAccepted` are returned in order. */
    method HandleUploadFile(files: seq<File>) returns (accepted: seq<Option<File>>)
      modifies this
      ensures defaultFile == old(defaultFile)
      ensures |files| > 1 ==> error == OnlyOneFile && uploadedFile == old(uploadedFile) && accepted == []
      ensures |files| <= 1 ==>
        && error == ""
        && uploadedFile == (if files == [] then None else Some(files[0]))
        && accepted == (if hasOnFileAccepted then [uploadedFile] else [])
      ensures |files| == 1 ==>
        Shown() == Some(Preview(ObjectUrl(files[0]), files[0].name, HasImageType(files[0])))
    {
      if |files| > 1 {
        error := OnlyOneFile;
        return [];
      }
      error := "";
      var file := if files == [] then None else Some(files[0]);
      uploadedFile := file;
      accepted := if hasOnFileAccepted then [file] else [];
    }
  }
}
