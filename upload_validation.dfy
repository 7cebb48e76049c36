/** The checks `handleUploadFiles` runs on a dropped batch before accepting it: five error
    categories, filled in the order the handler fills them, and the verdict that the batch
    is rejected as soon as any category is non-empty. */
module UploadValidation {
  import opened Wrappers
  import opened BrowserFile
  import opened UploadEntries

  const TooLargeCode: string := "file-too-large"
  const InvalidTypeCode: string := "file-invalid-type"

  /** The two `DropzoneOptions` the handler reads. */
  datatype DropzoneOptions = DropzoneOptions(maxFiles: Option<int>, maxSize: Option<int>)

  /** A `FileRejection` from the drop zone: the file and the codes of its errors. */
  datatype Rejection = Rejection(file: File, errorCodes: seq<string>)

  /** One error message, tagged by category, carrying the values its text interpolates. */
  datatype Message =
    | DuplicateName(name: string)
    | TooManyFiles(maxFiles: int)
    | FileTooLarge(name: string, maxSize: int)
    | UnsupportedType(name: string)
    | TotalTooLarge(total: int, maxTotalSize: int)

  /** `errorCategories`: the five lists, in the order the handler declares them. */
  datatype ErrorCategories = ErrorCategories(
    duplicateFiles: seq<Message>,
    oversizedFiles: seq<Message>,
    unsupportedFiles: seq<Message>,
    maxFilesExceeded: seq<Message>,
    maxTotalSizeExceeded: seq<Message>)

  /** A number option is truthy when it is present and not zero. */
  predicate Truthy(n: Option<int>) {
    n.Some? && n.value != 0
  }

  /** `n || 0` for an optional number. */
  function OrZero(n: Option<int>): int {
    if Truthy(n) then n.value else 0
  }

  /** `[...initFiles.map(fileName), ...uploadedFiles.map(item => item.file.name)].filter(Boolean)`. */
  function ExistingNames(init: seq<RemoteFile>, up: seq<LocalEntry>): seq<string> {
    RemoteNames(init) + LocalNames(up)
  }

  function RemoteNames(init: seq<RemoteFile>): (names: seq<string>)
    ensures forall n :: n in names <==> n != "" && exists k :: 0 <= k < |init| && init[k].name == Some(n)
  {
    if init == [] then []
    else
      var rest := RemoteNames(init[1..]);
      assert forall k :: 0 <= k < |init[1..]| ==> init[1..][k] == init[k + 1];
      (if init[0].name.Some? && init[0].name.value != "" then [init[0].name.value] else []) + rest
  }

  function LocalNames(up: seq<LocalEntry>): (names: seq<string>)
    ensures forall n :: n in names <==> n != "" && exists k :: 0 <= k < |up| && up[k].file.name == n
  {
    if up == [] then []
    else
      var rest := LocalNames(up[1..]);
      assert forall k :: 0 <= k < |up[1..]| ==> up[1..][k] == up[k + 1];
      (if up[0].file.name != "" then [up[0].file.name] else []) + rest
  }

  /** The duplicate messages for a prefix of the batch, one per file whose name is taken. */
  function Duplicates(files: seq<File>, existing: seq<string>): (msgs: seq<Message>)
    ensures |msgs| <= |files|
  {
    if files == [] then []
    else
      var last := files[|files| - 1];
      Duplicates(files[..|files| - 1], existing)
        + (if last.name in existing then [DuplicateName(last.name)] else [])
  }

  /** The number of error codes equal to `code` in a prefix of a rejection's codes. */
  function CountCode(codes: seq<string>, code: string): nat {
    if codes == [] then 0
    else CountCode(codes[..|codes| - 1], code) + (if codes[|codes| - 1] == code then 1 else 0)
  }

  /** `n` copies of `m`. */
  function Repeat(m: Message, n: nat): (r: seq<Message>)
    ensures |r| == n && forall k :: 0 <= k < n ==> r[k] == m
  {
    seq(n, _ => m)
  }

  /** The `file-too-large` messages of a prefix of the rejections. */
  function Oversized(rejs: seq<Rejection>, maxSize: int): seq<Message> {
    if rejs == [] then []
    else
      var r := rejs[|rejs| - 1];
      Oversized(rejs[..|rejs| - 1], maxSize) + Repeat(FileTooLarge(r.file.name, maxSize), CountCode(r.errorCodes, TooLargeCode))
  }

  /** The `file-invalid-type` messages of a prefix of the rejections. */
  function Unsupported(rejs: seq<Rejection>): seq<Message> {
    if rejs == [] then []
    else
      var r := rejs[|rejs| - 1];
      Unsupported(rejs[..|rejs| - 1]) + Repeat(UnsupportedType(r.file.name), CountCode(r.errorCodes, InvalidTypeCode))
  }

  /** `reduce((acc, curr) => acc + curr.file.size, 0)` over the uploaded entries. */
  function LocalTotal(up: seq<LocalEntry>): int {
    if up == [] then 0 else LocalTotal(up[..|up| - 1]) + up[|up| - 1].file.size
  }

  /** `reduce((acc, curr) => acc + (fileSize(curr) || 0), 0)` over the remote entries. */
  function RemoteTotal(init: seq<RemoteFile>): int {
    if init == [] then 0 else RemoteTotal(init[..|init| - 1]) + OrZero(init[|init| - 1].size)
  }

  /** `reduce((acc, curr) => acc + curr.size, 0)` over the batch. */
  function BatchTotal(files: seq<File>): int {
    if files == [] then 0 else BatchTotal(files[..|files| - 1]) + files[|files| - 1].size
  }

  /** All five categories for one drop, as `handleUploadFiles` fills them. */
  function Validate(init: seq<RemoteFile>, up: seq<LocalEntry>, files: seq<File>, rejs: seq<Rejection>,
                    options: Option<DropzoneOptions>, maxTotalSize: Option<int>): ErrorCategories
  {
    var total := LocalTotal(up) + RemoteTotal(init) + BatchTotal(files);
    ErrorCategories(
      Duplicates(files, ExistingNames(init, up)),
      if options.Some? then Oversized(rejs, OrZero(options.value.maxSize)) else [],
      if options.Some? then Unsupported(rejs) else [],
      if options.Some? && Truthy(options.value.maxFiles) && |files| + |up| + |init| > options.value.maxFiles.value
      then [TooManyFiles(options.value.maxFiles.value)] else [],
      if Truthy(maxTotalSize) && total > maxTotalSize.value then [TotalTooLarge(total, maxTotalSize.value)] else [])
  }

  /** The batch is rejected when any category holds a message. */
  predicate HasErrors(c: ErrorCategories) {
    |c.duplicateFiles| > 0 || |c.oversizedFiles| > 0 || |c.unsupportedFiles| > 0
    || |c.maxFilesExceeded| > 0 || |c.maxTotalSizeExceeded| > 0
  }

  /** The checking part of `handleUploadFiles`: the `forEach` loops push messages into the
      five lists and the `reduce` calls sum the sizes. Nothing outside is changed. */
  method CollectErrors(init: seq<RemoteFile>, up: seq<LocalEntry>, fileList: seq<File>, rejectedFiles: seq<Rejection>,
                       dropzoneOptions: Option<DropzoneOptions>, maxTotalSize: Option<int>)
    returns (errorCategories: ErrorCategories)
    ensures errorCategories == Validate(init, up, fileList, rejectedFiles, dropzoneOptions, maxTotalSize)
  {
    var duplicateFiles := CollectDuplicates(fileList, ExistingNames(init, up));
    var oversizedFiles: seq<Message> := [];
    var unsupportedFiles: seq<Message> := [];
    var maxFilesExceeded: seq<Message> := [];
    if dropzoneOptions.Some? {
      var options := dropzoneOptions.value;
      if Truthy(options.maxFiles) && |fileList| + |up| + |init| > options.maxFiles.value {
        maxFilesExceeded := [TooManyFiles(options.maxFiles.value)];
      }
      oversizedFiles, unsupportedFiles := CollectRejections(rejectedFiles, OrZero(options.maxSize));
    }
    var maxTotalSizeExceeded: seq<Message> := [];
    if Truthy(maxTotalSize) {
      var localSize := SumLocal(up);
      var remoteSize := SumRemote(init);
      var existingTotalSize := localSize + remoteSize;
      var newFilesTotalSize := SumBatch(fileList);
      var totalSize := existingTotalSize + newFilesTotalSize;
      if totalSize > maxTotalSize.value {
        maxTotalSizeExceeded := [TotalTooLarge(totalSize, maxTotalSize.value)];
      }
    }
    errorCategories := ErrorCategories(duplicateFiles, oversizedFiles, unsupportedFiles, maxFilesExceeded, maxTotalSizeExceeded);
  }

  /** `fileList.filter(...)` then `forEach(... push ...)`: one message per taken name. */
  method CollectDuplicates(fileList: seq<File>, existingFileNames: seq<string>) returns (duplicateFiles: seq<Message>)
    ensures duplicateFiles == Duplicates(fileList, existingFileNames)
  {
    duplicateFiles := [];
    var i := 0;
    while i < |fileList|
      invariant 0 <= i <= |fileList|
      invariant duplicateFiles == Duplicates(fileList[..i], existingFileNames)
    {
      assert fileList[..i + 1][..i] == fileList[..i];
      if fileList[i].name in existingFileNames {
        duplicateFiles := duplicateFiles + [DuplicateName(fileList[i].name)];
      }
      i := i + 1;
    }
    assert fileList[..i] == fileList;
  }

  /** The nested `forEach` over the rejections and their errors. */
  method CollectRejections(rejectedFiles: seq<Rejection>, maxSize: int)
    returns (oversizedFiles: seq<Message>, unsupportedFiles: seq<Message>)
    ensures oversizedFiles == Oversized(rejectedFiles, maxSize)
    ensures unsupportedFiles == Unsupported(rejectedFiles)
  {
    oversizedFiles, unsupportedFiles := [], [];
    var r := 0;
    while r < |rejectedFiles|
      invariant 0 <= r <= |rejectedFiles|
      invariant oversizedFiles == Oversized(rejectedFiles[..r], maxSize)
      invariant unsupportedFiles == Unsupported(rejectedFiles[..r])
    {
      var rejection := rejectedFiles[r];
      assert rejectedFiles[..r + 1][..r] == rejectedFiles[..r];
      var e := 0;
      while e < |rejection.errorCodes|
        invariant 0 <= e <= |rejection.errorCodes|
        invariant oversizedFiles == Oversized(rejectedFiles[..r], maxSize)
          + Repeat(FileTooLarge(rejection.file.name, maxSize), CountCode(rejection.errorCodes[..e], TooLargeCode))
        invariant unsupportedFiles == Unsupported(rejectedFiles[..r])
          + Repeat(UnsupportedType(rejection.file.name), CountCode(rejection.errorCodes[..e], InvalidTypeCode))
      {
        assert rejection.errorCodes[..e + 1][..e] == rejection.errorCodes[..e];
        if rejection.errorCodes[e] == TooLargeCode {
          oversizedFiles := oversizedFiles + [FileTooLarge(rejection.file.name, maxSize)];
        }
        if rejection.errorCodes[e] == InvalidTypeCode {
          unsupportedFiles := unsupportedFiles + [UnsupportedType(rejection.file.name)];
        }
        e := e + 1;
      }
      assert rejection.errorCodes[..e] == rejection.errorCodes;
      r := r + 1;
    }
    assert rejectedFiles[..r] == rejectedFiles;
  }

  /** `uploadedFiles.reduce(...)` as a loop. */
  method SumLocal(up: seq<LocalEntry>) returns (acc: int)
    ensures acc == LocalTotal(up)
  {
    acc := 0;
    var i := 0;
    while i < |up|
      invariant 0 <= i <= |up| && acc == LocalTotal(up[..i])
    {
      assert up[..i + 1][..i] == up[..i];
      acc := acc + up[i].file.size;
      i := i + 1;
    }
    assert up[..i] == up;
  }

  /** `initFiles.reduce(...)` as a loop. */
  method SumRemote(init: seq<RemoteFile>) returns (acc: int)
    ensures acc == RemoteTotal(init)
  {
    acc := 0;
    var i := 0;
    while i < |init|
      invariant 0 <= i <= |init| && acc == RemoteTotal(init[..i])
    {
      assert init[..i + 1][..i] == init[..i];
      acc := acc + OrZero(init[i].size);
      i := i + 1;
    }
    assert init[..i] == init;
  }

  /** `fileList.reduce(...)` as a loop. */
  method SumBatch(files: seq<File>) returns (acc: int)
    ensures acc == BatchTotal(files)
  {
    acc := 0;
    var i := 0;
    while i < |files|
      invariant 0 <= i <= |files| && acc == BatchTotal(files[..i])
    {
      assert files[..i + 1][..i] == files[..i];
      acc := acc + files[i].size;
      i := i + 1;
    }
    assert files[..i] == files;
  }

  /** A name counts as existing exactly when it is non-empty and names a remote entry (through
      the `fileName` accessor) or an uploaded file. */
  lemma ExistingNamesExactly(init: seq<RemoteFile>, up: seq<LocalEntry>, n: string)
    ensures n in ExistingNames(init, up) <==>
      n != "" && ((exists k :: 0 <= k < |init| && init[k].name == Some(n))
                  || (exists k :: 0 <= k < |up| && up[k].file.name == n))
  {
  }

  /** The duplicate check treats the batch file by file, in drop order. */
  lemma {:induction false} DuplicatesAppend(a: seq<File>, b: seq<File>, existing: seq<string>)
    ensures Duplicates(a + b, existing) == Duplicates(a, existing) + Duplicates(b, existing)
    decreases |b|
  {
    if b == [] {
      assert a + b == a;
    } else {
      var b' := b[..|b| - 1];
      assert (a + b)[..|a + b| - 1] == a + b';
      DuplicatesAppend(a, b', existing);
    }
  }

  /** One message per file whose name is taken, and no other message. */
  lemma {:induction false} DuplicatesExactly(files: seq<File>, existing: seq<string>, m: Message)
    ensures m in Duplicates(files, existing) <==>
      exists k :: 0 <= k < |files| && files[k].name in existing && m == DuplicateName(files[k].name)
  {
    if files != [] {
      var init := files[..|files| - 1];
      DuplicatesExactly(init, existing, m);
      assert forall k :: 0 <= k < |init| ==> init[k] == files[k];
    }
  }

  /** The duplicate category is empty exactly when no file of the batch has a taken name. */
  lemma DuplicatesNoneIff(files: seq<File>, existing: seq<string>)
    ensures Duplicates(files, existing) == [] <==> forall k :: 0 <= k < |files| ==> files[k].name !in existing
  {
    if Duplicates(files, existing) == [] {
      forall k | 0 <= k < |files| ensures files[k].name !in existing {
        DuplicatesExactly(files, existing, DuplicateName(files[k].name));
      }
    } else {
      DuplicatesExactly(files, existing, Duplicates(files, existing)[0]);
    }
  }

  /** Every oversize message names a rejected file that carried the `file-too-large` code,
      with the `maxSize || 0` of the options. */
  lemma {:induction false} OversizedNamesRejected(rejs: seq<Rejection>, maxSize: int, m: Message)
    requires m in Oversized(rejs, maxSize)
    ensures exists k :: 0 <= k < |rejs| && TooLargeCode in rejs[k].errorCodes
                     && m == FileTooLarge(rejs[k].file.name, maxSize)
  {
    var n := |rejs| - 1;
    var last := rejs[n];
    if m in Oversized(rejs[..n], maxSize) {
      OversizedNamesRejected(rejs[..n], maxSize, m);
      var k :| 0 <= k < n && TooLargeCode in rejs[..n][k].errorCodes && m == FileTooLarge(rejs[..n][k].file.name, maxSize);
      assert rejs[..n][k] == rejs[k];
    } else {
      CountCodeMeansPresent(last.errorCodes, TooLargeCode);
    }
  }

  /** A code counted at least once occurs in the list. */
  lemma {:induction false} CountCodeMeansPresent(codes: seq<string>, code: string)
    ensures CountCode(codes, code) > 0 <==> code in codes
  {
    if codes != [] {
      var init := codes[..|codes| - 1];
      CountCodeMeansPresent(init, code);
      assert codes == init + [codes[|codes| - 1]];
    }
  }

  /** Without `dropzoneOptions`, neither the rejections nor the file limit are looked at. */
  lemma LimitChecksNeedOptions(init: seq<RemoteFile>, up: seq<LocalEntry>, files: seq<File>, rejs: seq<Rejection>, maxTotalSize: Option<int>)
    ensures var c := Validate(init, up, files, rejs, None, maxTotalSize);
      c.oversizedFiles == [] && c.unsupportedFiles == [] && c.maxFilesExceeded == []
  {
  }

  /** The file limit fires exactly when `maxFiles` is set, not zero, and strictly exceeded by
      the batch plus both lists. */
  lemma MaxFilesIsStrict(init: seq<RemoteFile>, up: seq<LocalEntry>, files: seq<File>, rejs: seq<Rejection>,
                         options: DropzoneOptions, maxTotalSize: Option<int>)
    ensures Validate(init, up, files, rejs, Some(options), maxTotalSize).maxFilesExceeded != [] <==>
      options.maxFiles.Some? && options.maxFiles.value != 0 && |files| + |up| + |init| > options.maxFiles.value
  {
  }

  /** The total-size cap is inclusive: a total equal to the cap is accepted. */
  lemma TotalCapIsInclusive(init: seq<RemoteFile>, up: seq<LocalEntry>, files: seq<File>, rejs: seq<Rejection>,
                            options: Option<DropzoneOptions>, cap: int)
    requires cap != 0
    ensures Validate(init, up, files, rejs, options, Some(cap)).maxTotalSizeExceeded == [] <==>
      LocalTotal(up) + RemoteTotal(init) + BatchTotal(files) <= cap
  {
  }

  /** With a cap of 1000 and nothing uploaded yet, files of 600 and 400 bytes pass and files
      of 600 and 401 bytes do not. */
  lemma TotalCapBoundary(a: File, b: File)
    requires a.size == 600
    ensures b.size == 400 ==> Validate([], [], [a, b], [], None, Some(1000)).maxTotalSizeExceeded == []
    ensures b.size == 401 ==> Validate([], [], [a, b], [], None, Some(1000)).maxTotalSizeExceeded
                                == [TotalTooLarge(1001, 1000)]
  {
    assert [a, b][..1] == [a] && [a][..0] == [];
    assert BatchTotal([a]) == 600;
    assert BatchTotal([a, b]) == 600 + b.size;
    assert LocalTotal([]) + RemoteTotal([]) == 0;
  }
}
