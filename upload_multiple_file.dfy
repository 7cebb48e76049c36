/** The multi-file upload list: the component state (`initFiles`, `uploadedFiles`, `errors`,
    `deleteFiles`) as a class, its handlers as methods, and the callbacks each handler fires
    returned as events in firing order. Every handler reads the state as it was when the
    handler started, as React state setters do not take effect inside the running handler. */
module UploadMultipleFile {
  import opened Wrappers
  import opened BrowserFile
  import opened UploadEntries
  import opened UploadValidation
  import opened UploadReconcile

  /** A call of one of the callback props, with its argument. */
  datatype Event =
    | SelectFiles(selected: seq<LocalEntry>)
    | ChangeOrderDefaultFiles(ordered: seq<RemoteFile>)
    | RemoveDefaultFiles(removed: seq<RemoteFile>)

  /** `onX && onX(arg)`: the call of an optional callback prop, made only when the prop is given. */
  function CallIf(given: bool, e: Event): (calls: seq<Event>)
    ensures given ==> calls == [e]
    ensures !given ==> calls == []
  {
    if given then [e] else []
  }

  /** `formatFileList`: file `i` of the batch gets order `base + i`. */
  function Numbered(files: seq<File>, base: int): (entries: seq<LocalEntry>)
    ensures |entries| == |files|
    ensures forall i :: 0 <= i < |files| ==> entries[i] == LocalEntry(base + i, files[i])
  {
    seq(|files|, i requires 0 <= i < |files| => LocalEntry(base + i, files[i]))
  }

  /** `initFiles.find(item => item[orderKey] === o)`. */
  function FindByOrder(init: seq<RemoteFile>, o: Option<int>): (r: Option<RemoteFile>)
    ensures r.Some? <==> exists k :: 0 <= k < |init| && init[k].order == o
    ensures r.Some? ==> exists k :: 0 <= k < |init| && init[k] == r.value && init[k].order == o
                          && forall j :: 0 <= j < k ==> init[j].order != o
  {
    if init == [] then None
    else if init[0].order == o then Some(init[0])
    else
      var r := FindByOrder(init[1..], o);
      assert forall k :: 0 <= k < |init[1..]| ==> init[1..][k] == init[k + 1];
      r
  }

  /** The displayed list has one row per entry. */
  lemma DisplayedLength(init: seq<RemoteFile>, up: seq<LocalEntry>)
    ensures |UploadEntries.TransformedImages(init, up)| == |init| + |up|
  {
    SortByOrderIsStableSort(Views(init, up));
    assert |SortByOrder(Views(init, up))| == |multiset(SortByOrder(Views(init, up)))|;
  }

  /** Appending local entries appends their rows. */
  lemma ViewsAppendLocal(init: seq<RemoteFile>, up: seq<LocalEntry>, more: seq<LocalEntry>)
    ensures Views(init, up + more) == Views(init, up) + LocalViews(more)
  {
    assert LocalViews(up + more) == LocalViews(up) + LocalViews(more);
  }

  /** The rows of a numbered batch: row `b` carries file `b`'s name and order `base + b`. */
  lemma {:induction false} NumberedRows(files: seq<File>, base: int)
    ensures |LocalViews(Numbered(files, base))| == |files|
    ensures forall b :: 0 <= b < |files| ==>
      LocalViews(Numbered(files, base))[b].fileName == Some(files[b].name)
      && LocalViews(Numbered(files, base))[b].order == Some(base + b)
  {
    var added := LocalViews(Numbered(files, base));
    forall b | 0 <= b < |files|
      ensures added[b].fileName == Some(files[b].name) && added[b].order == Some(base + b)
    {
      assert added[b] == LocalView(Numbered(files, base)[b]);
    }
  }

  /** Joining two lists with distinct names, no name shared between them, gives distinct names. */
  lemma {:induction false} AppendKeepsNamesDistinct(v: seq<DisplayEntry>, added: seq<DisplayEntry>)
    requires DistinctNames(v) && DistinctNames(added)
    requires forall a, b :: 0 <= a < |v| && 0 <= b < |added| ==> v[a].fileName != added[b].fileName
    ensures DistinctNames(v + added)
  {
    var w := v + added;
    forall a, b | 0 <= a < b < |w| ensures w[a].fileName != w[b].fileName {
      if b < |v| {
        assert w[a] == v[a] && w[b] == v[b];
      } else if a < |v| {
        assert w[a] == v[a] && w[b] == added[b - |v|];
      } else {
        assert w[a] == added[a - |v|] && w[b] == added[b - |v|];
      }
    }
  }

  /** Appending rows ordered n, n+1, ... to a list densely ordered 0 .. n-1 keeps it dense. */
  lemma {:induction false} AppendKeepsOrdersDense(v: seq<DisplayEntry>, added: seq<DisplayEntry>, n: int)
    requires 0 <= n && DenseOrders(v, n)
    requires forall b :: 0 <= b < |added| ==> added[b].order == Some(n + b)
    ensures DenseOrders(v + added, n + |added|)
  {
    var w := v + added;
    forall p | 0 <= p < |w| ensures w[p].order.Some? && 0 <= w[p].order.value < n + |added| {
      if p >= |v| {
        assert w[p] == added[p - |v|];
      } else {
        assert w[p] == v[p];
      }
    }
    forall p, q | 0 <= p < q < |w| ensures w[p].order != w[q].order {
      if q < |v| {
        assert w[p] == v[p] && w[q] == v[q];
      } else if p < |v| {
        assert w[p] == v[p] && w[q] == added[q - |v|];
      } else {
        assert w[p] == added[p - |v|] && w[q] == added[q - |v|];
      }
    }
    forall k | 0 <= k < n + |added| ensures HasOrder(w, k) {
      if k < n {
        assert HasOrder(v, k);
        var p :| 0 <= p < |v| && v[p].order == Some(k);
        assert w[p] == v[p];
      } else {
        assert w[|v| + (k - n)] == added[k - n];
      }
    }
  }

  /** A file name that passed the duplicate check names no displayed row. */
  lemma {:induction false} NewNameNamesNoRow(init: seq<RemoteFile>, up: seq<LocalEntry>, n: string)
    requires n != "" && n !in ExistingNames(init, up)
    ensures forall a :: 0 <= a < |Views(init, up)| ==> Views(init, up)[a].fileName != Some(n)
  {
    ViewNames(init, up);
    ExistingNamesExactly(init, up, n);
  }

  /** An accepted batch whose own names are distinct and non-empty keeps every displayed name
      distinct: the duplicate check has ruled out every name already present. */
  lemma {:induction false} AcceptedBatchKeepsNamesDistinct(init: seq<RemoteFile>, up: seq<LocalEntry>, files: seq<File>, base: int)
    requires DistinctNames(Views(init, up))
    requires Duplicates(files, ExistingNames(init, up)) == []
    requires forall i, j :: 0 <= i < j < |files| ==> files[i].name != files[j].name
    requires forall i :: 0 <= i < |files| ==> files[i].name != ""
    ensures DistinctNames(Views(init, up + Numbered(files, base)))
  {
    var v, added := Views(init, up), LocalViews(Numbered(files, base));
    ViewsAppendLocal(init, up, Numbered(files, base));
    DuplicatesNoneIff(files, ExistingNames(init, up));
    NumberedRows(files, base);
    forall a, b | 0 <= a < |v| && 0 <= b < |added| ensures v[a].fileName != added[b].fileName {
      NewNameNamesNoRow(init, up, files[b].name);
    }
    AppendKeepsNamesDistinct(v, added);
  }

  /** An accepted batch numbered from the current row count keeps the orders dense: the new
      rows take the positions |rows| .. |rows| + |batch| - 1. */
  lemma {:induction false} AcceptedBatchKeepsOrdersDense(init: seq<RemoteFile>, up: seq<LocalEntry>, files: seq<File>)
    requires DenseOrders(Views(init, up), |init| + |up|)
    ensures DenseOrders(Views(init, up + Numbered(files, |init| + |up|)), |init| + |up| + |files|)
  {
    var n := |init| + |up|;
    var v, added := Views(init, up), LocalViews(Numbered(files, n));
    NumberedRows(files, n);
    AppendKeepsOrdersDense(v, added, n);
    ViewsAppendLocal(init, up, Numbered(files, n));
  }

  /** The duplicate check compares the batch only with the names already present: a batch that
      holds the same new name twice passes it. */
  lemma SameNameTwicePasses(f: File, existing: seq<string>)
    requires f.name !in existing
    ensures Duplicates([f, f], existing) == []
  {
    DuplicatesNoneIff([f, f], existing);
  }

  /** Removing order 0 from three rows ordered 0, 1, 2 leaves the last two. */
  lemma DropFirstOfThree(v0: DisplayEntry, v1: DisplayEntry, v2: DisplayEntry)
    requires v0.order == Some(0) && v1.order == Some(1) && v2.order == Some(2)
    ensures WithoutOrder([v0, v1, v2], Some(0)) == [v1, v2]
  {
    var t := [v0, v1, v2];
    assert t[1..] == [v1, v2] && t[1..][1..] == [v2] && t[1..][1..][1..] == [];
  }

  /** Against two rows named `a`, the filter keeps both entries named `a` and drops `x`. */
  lemma KeepBothOfName(x: File, a: File)
    requires x.name != a.name
    ensures KeepLocal([LocalEntry(0, x), LocalEntry(1, a), LocalEntry(2, a)],
                      [LocalView(LocalEntry(1, a)), LocalView(LocalEntry(2, a))])
         == [LocalEntry(1, a), LocalEntry(2, a)]
  {
    var items := [LocalView(LocalEntry(1, a)), LocalView(LocalEntry(2, a))];
    var up := [LocalEntry(0, x), LocalEntry(1, a), LocalEntry(2, a)];
    assert !NameIn(Some(x.name), items);
    assert NameIn(Some(a.name), items) by { assert items[0].fileName == Some(a.name); }
    assert up[1..] == [LocalEntry(1, a), LocalEntry(2, a)] && up[2..] == [LocalEntry(2, a)] && up[3..] == [];
  }

  /** Two rows of the same name both renumber the first entry of that name: it gets order 0,
      then order 1, and the second entry keeps its order. */
  lemma RenumberSameNameTwice(a: File)
    ensures RenumberLocal([LocalEntry(1, a), LocalEntry(2, a)],
                          [LocalView(LocalEntry(1, a)), LocalView(LocalEntry(2, a))])
         == [LocalEntry(1, a), LocalEntry(2, a)]
  {
    var kept := [LocalEntry(1, a), LocalEntry(2, a)];
    var items := [LocalView(LocalEntry(1, a)), LocalView(LocalEntry(2, a))];
    assert items[..1][..0] == [] && items[..2] == items;
    assert RenumberLocal(kept, items[..1][..0]) == kept;
    assert FindLocal(kept, Some(a.name)) == 0;
    var r1 := RenumberLocal(kept, items[..1]);
    assert r1 == [LocalEntry(0, a), LocalEntry(2, a)];
    assert FindLocal(r1, Some(a.name)) == 0;
  }

  /** Reconciling `x(0), a(1), a(2)` against the two rows of `a` keeps the entries of `a` with
      their orders unchanged. */
  lemma RepeatedNameReconcile(x: File, a: File)
    requires x.name != a.name
    ensures Reconcile([], [LocalEntry(0, x), LocalEntry(1, a), LocalEntry(2, a)],
                      [LocalView(LocalEntry(1, a)), LocalView(LocalEntry(2, a))])
         == ([], [LocalEntry(1, a), LocalEntry(2, a)])
  {
    var items := [LocalView(LocalEntry(1, a)), LocalView(LocalEntry(2, a))];
    assert KeepRemote([], items) == [];
    KeepBothOfName(x, a);
    RenumberSameNameTwice(a);
  }

  /** Two rows ordered 1 and 2 do not have the dense orders 0 and 1. */
  lemma NoRowOrderedZero(a: File)
    ensures !DenseOrders(Views([], [LocalEntry(1, a), LocalEntry(2, a)]), 2)
  {
    var v := Views([], [LocalEntry(1, a), LocalEntry(2, a)]);
    assert v == [LocalView(LocalEntry(1, a)), LocalView(LocalEntry(2, a))];
    assert !HasOrder(v, 0);
  }

  /** What the distinct-names premise of the renumbering results rules out: with two local
      entries named `a`, removing the row ordered 0 gives orders 1 and 2. Both rows of `a` find
      the first entry of that name, so the second entry keeps its old order and no entry gets
      order 0. */
  lemma RepeatedNameLeavesGap(x: File, a: File)
    requires x.name != a.name
    ensures var up := [LocalEntry(0, x), LocalEntry(1, a), LocalEntry(2, a)];
      var allItems := WithoutOrder(UploadEntries.TransformedImages([], up), Some(0));
      && Reconcile([], up, allItems) == ([], [LocalEntry(1, a), LocalEntry(2, a)])
      && !DenseOrders(Views([], [LocalEntry(1, a), LocalEntry(2, a)]), 2)
  {
    var ex, e1, e2 := LocalEntry(0, x), LocalEntry(1, a), LocalEntry(2, a);
    ThreeSortedLocal(ex, e1, e2);
    DropFirstOfThree(LocalView(ex), LocalView(e1), LocalView(e2));
    RepeatedNameReconcile(x, a);
    NoRowOrderedZero(a);
  }

  /** The `forEach` of `handleUploadFiles` that pushes `{ file, order: count + index }` for each
      file of the batch. */
  method NumberBatch(fileList: seq<File>, count: int) returns (formatFileList: seq<LocalEntry>)
    ensures formatFileList == Numbered(fileList, count)
  {
    formatFileList := [];
    var index := 0;
    while index < |fileList|
      invariant 0 <= index <= |fileList|
      invariant |formatFileList| == index
      invariant forall k :: 0 <= k < index ==> formatFileList[k] == LocalEntry(count + k, fileList[k])
    {
      formatFileList := formatFileList + [LocalEntry(count + index, fileList[index])];
      index := index + 1;
    }
  }

  class UploadList {
    var initFiles: seq<RemoteFile>
    var uploadedFiles: seq<LocalEntry>
    /** `errors`; `None` is the empty object `{}`. */
    var errors: Option<ErrorCategories>
    var deleteFiles: seq<RemoteFile>
    const dropzoneOptions: Option<DropzoneOptions>
    const maxTotalSize: Option<int>
    /** Whether the optional props `onSelectFiles`, `onChangeOrderDefaultFiles` and
        `onRemoveDefaultFiles` are given. */
    const hasOnSelectFiles: bool
    const hasOnChangeOrderDefaultFiles: bool
    const hasOnRemoveDefaultFiles: bool

    /** The state once the `defaultFiles` effect has run after mounting. */
    constructor(defaultFiles: seq<RemoteFile>, dropzoneOptions: Option<DropzoneOptions>, maxTotalSize: Option<int>,
                hasOnSelectFiles: bool, hasOnChangeOrderDefaultFiles: bool, hasOnRemoveDefaultFiles: bool)
      ensures initFiles == defaultFiles && uploadedFiles == [] && deleteFiles == [] && errors == None
      ensures this.dropzoneOptions == dropzoneOptions && this.maxTotalSize == maxTotalSize
      ensures this.hasOnSelectFiles == hasOnSelectFiles
      ensures this.hasOnChangeOrderDefaultFiles == hasOnChangeOrderDefaultFiles
      ensures this.hasOnRemoveDefaultFiles == hasOnRemoveDefaultFiles
    {
      this.hasOnSelectFiles := hasOnSelectFiles;
      this.hasOnChangeOrderDefaultFiles := hasOnChangeOrderDefaultFiles;
      this.hasOnRemoveDefaultFiles := hasOnRemoveDefaultFiles;
      initFiles := defaultFiles;
      uploadedFiles := [];
      deleteFiles := [];
      errors := None;
      this.dropzoneOptions := dropzoneOptions;
      this.maxTotalSize := maxTotalSize;
    }

    /** `transformedImages`: the merged list as displayed. */
    function TransformedImages(): seq<DisplayEntry>
      reads this
    {
      UploadEntries.TransformedImages(initFiles, uploadedFiles)
    }

    /** The `defaultFiles` effect: a new list of remote entries replaces the old one and empties
        the local and deleted lists. */
    method ResetDefaults(defaultFiles: seq<RemoteFile>)
      modifies this
      ensures initFiles == defaultFiles && uploadedFiles == [] && deleteFiles == []
      ensures errors == old(errors)
    {
      initFiles := defaultFiles;
      uploadedFiles := [];
      deleteFiles := [];
    }

    /** `handleUploadFiles`: validate the batch; on any error store the five categories and stop,
        otherwise append the batch numbered after the displayed rows, clear the errors and call
        `onSelectFiles`, when given, with the whole local list. */
    method HandleUploadFiles(fileList: seq<File>, rejectedFiles: seq<Rejection>) returns (events: seq<Event>)
      modifies this
      ensures initFiles == old(initFiles) && deleteFiles == old(deleteFiles)
      ensures var c := Validate(old(initFiles), old(uploadedFiles), fileList, rejectedFiles, dropzoneOptions, maxTotalSize);
        HasErrors(c) ==> errors == Some(c) && events == [] && uploadedFiles == old(uploadedFiles)
      ensures var c := Validate(old(initFiles), old(uploadedFiles), fileList, rejectedFiles, dropzoneOptions, maxTotalSize);
        !HasErrors(c) ==>
          && uploadedFiles == old(uploadedFiles) + Numbered(fileList, |old(initFiles)| + |old(uploadedFiles)|)
          && errors == None && events == CallIf(hasOnSelectFiles, SelectFiles(uploadedFiles))
    {
      var errorCategories := CollectErrors(initFiles, uploadedFiles, fileList, rejectedFiles, dropzoneOptions, maxTotalSize);
      if HasErrors(errorCategories) {
        errors := Some(errorCategories);
        events := [];
      } else {
        events := AcceptBatch(fileList);
      }
    }

    /** The accepting half of `handleUploadFiles`: number the batch from the displayed count,
        append it, call `onSelectFiles` when given and clear the errors. */
    method AcceptBatch(fileList: seq<File>) returns (events: seq<Event>)
      modifies this
      ensures uploadedFiles == old(uploadedFiles) + Numbered(fileList, |old(initFiles)| + |old(uploadedFiles)|)
      ensures errors == None && events == CallIf(hasOnSelectFiles, SelectFiles(uploadedFiles))
      ensures initFiles == old(initFiles) && deleteFiles == old(deleteFiles)
    {
      var count := |TransformedImages()|;
      DisplayedLength(initFiles, uploadedFiles);
      var formatFileList := NumberBatch(fileList, count);
      var newFiles := uploadedFiles + formatFileList;
      uploadedFiles := newFiles;
      events := CallIf(hasOnSelectFiles, SelectFiles(newFiles));
      errors := None;
    }

    /** `updateFileOrders(allItems)`: keep the entries named in `allItems`, renumber them by
        their rows, store both lists and call `onChangeOrderDefaultFiles` then `onSelectFiles`,
        each only when given. */
    method UpdateFileOrders(allItems: seq<DisplayEntry>) returns (events: seq<Event>)
      modifies this
      ensures (initFiles, uploadedFiles) == Reconcile(old(initFiles), old(uploadedFiles), allItems)
      ensures events == CallIf(hasOnChangeOrderDefaultFiles, ChangeOrderDefaultFiles(initFiles))
                      + CallIf(hasOnSelectFiles, SelectFiles(uploadedFiles))
      ensures errors == old(errors) && deleteFiles == old(deleteFiles)
    {
      var filteredInitFiles, filteredUploadedFiles := RenumberOrders(initFiles, uploadedFiles, allItems);
      initFiles := filteredInitFiles;
      uploadedFiles := filteredUploadedFiles;
      events := [];
      if hasOnChangeOrderDefaultFiles {
        events := events + [ChangeOrderDefaultFiles(filteredInitFiles)];
      }
      if hasOnSelectFiles {
        events := events + [SelectFiles(filteredUploadedFiles)];
      }
    }

    /** `handleRemoveFiles(file)`: reconcile against the displayed rows without `file`'s order;
        for a remote row, call `onRemoveDefaultFiles`, when given, with `deleteFiles` plus the
        first remote entry, in the list as it was, that has that order. */
    method HandleRemoveFiles(file: DisplayEntry) returns (events: seq<Event>)
      modifies this
      ensures var allItems := WithoutOrder(UploadEntries.TransformedImages(old(initFiles), old(uploadedFiles)), file.order);
        && (initFiles, uploadedFiles) == Reconcile(old(initFiles), old(uploadedFiles), allItems)
        && errors == old(errors) && deleteFiles == old(deleteFiles)
        && var delFile := FindByOrder(old(initFiles), file.order);
           events == CallIf(hasOnChangeOrderDefaultFiles, ChangeOrderDefaultFiles(initFiles))
                     + CallIf(hasOnSelectFiles, SelectFiles(uploadedFiles))
                     + (if file.isDefaultFile && delFile.Some?
                        then CallIf(hasOnRemoveDefaultFiles, RemoveDefaultFiles(old(deleteFiles) + [delFile.value]))
                        else [])
    {
      var entryInitFiles := initFiles;
      var allItems := WithoutOrder(TransformedImages(), file.order);
      events := UpdateFileOrders(allItems);
      if file.isDefaultFile {
        var delFile := FindByOrder(entryInitFiles, file.order);
        if delFile.Some? {
          var delFileList := deleteFiles + [delFile.value];
          if hasOnRemoveDefaultFiles {
            events := events + [RemoveDefaultFiles(delFileList)];
          }
        }
      }
    }

    /** `handleDragEnd`: when the dragged row lands on another row, move it there with
        `arrayMove` and reconcile; dropping a row on itself does nothing. */
    method HandleDragEnd(activeId: Option<string>, overId: Option<string>) returns (events: seq<Event>)
      requires activeId != overId ==> NameIn(activeId, TransformedImages()) && NameIn(overId, TransformedImages())
      modifies this
      ensures activeId == overId ==>
        events == [] && initFiles == old(initFiles) && uploadedFiles == old(uploadedFiles)
      ensures activeId != overId ==>
        var t := UploadEntries.TransformedImages(old(initFiles), old(uploadedFiles));
        var newAllItems := ArrayMove(t, IndexOfName(t, activeId), IndexOfName(t, overId));
        && (initFiles, uploadedFiles) == Reconcile(old(initFiles), old(uploadedFiles), newAllItems)
        && events == CallIf(hasOnChangeOrderDefaultFiles, ChangeOrderDefaultFiles(initFiles))
                     + CallIf(hasOnSelectFiles, SelectFiles(uploadedFiles))
      ensures errors == old(errors) && deleteFiles == old(deleteFiles)
    {
      events := [];
      if activeId != overId {
        var t := TransformedImages();
        var oldIndex := IndexOfName(t, activeId);
        var newIndex := IndexOfName(t, overId);
        var newAllItems := ArrayMove(t, oldIndex, newIndex);
        events := UpdateFileOrders(newAllItems);
      }
    }
  }
}
