/** `updateFileOrders(allItems)` of the multi-file upload list: keep the entries whose name
    still appears in the target list, and give each kept entry the position of its row. */
module UploadReconcile {
  import opened Wrappers
  import opened BrowserFile
  import opened UploadEntries

  /** `allItems.some(item => item.fileName === n)`. */
  predicate NameIn(n: Option<string>, items: seq<DisplayEntry>) {
    exists i :: 0 <= i < |items| && items[i].fileName == n
  }

  /** `initFiles.filter(initItem => allItems.some(item => item.fileName === fileName(initItem)))`. */
  function KeepRemote(init: seq<RemoteFile>, items: seq<DisplayEntry>): (kept: seq<RemoteFile>)
    ensures |kept| <= |init|
    ensures forall x :: x in kept <==> x in init && NameIn(x.name, items)
  {
    if init == [] then []
    else
      var rest := KeepRemote(init[1..], items);
      assert forall x :: x in init <==> x == init[0] || x in init[1..];
      (if NameIn(init[0].name, items) then [init[0]] else []) + rest
  }

  /** `uploadedFiles.filter(initItem => allItems.some(item => item.fileName === initItem.file.name))`. */
  function KeepLocal(up: seq<LocalEntry>, items: seq<DisplayEntry>): (kept: seq<LocalEntry>)
    ensures |kept| <= |up|
    ensures forall x :: x in kept <==> x in up && NameIn(Some(x.file.name), items)
  {
    if up == [] then []
    else
      var rest := KeepLocal(up[1..], items);
      assert forall x :: x in up <==> x == up[0] || x in up[1..];
      (if NameIn(Some(up[0].file.name), items) then [up[0]] else []) + rest
  }

  /** `filter` works piece by piece: the kept remote entries keep their order and multiplicity. */
  lemma {:induction false} KeepRemoteAppend(a: seq<RemoteFile>, b: seq<RemoteFile>, items: seq<DisplayEntry>)
    ensures KeepRemote(a + b, items) == KeepRemote(a, items) + KeepRemote(b, items)
  {
    if a == [] {
      assert a + b == b;
    } else {
      assert (a + b)[1..] == a[1..] + b;
      KeepRemoteAppend(a[1..], b, items);
    }
  }

  /** `filter` works piece by piece: the kept local entries keep their order and multiplicity. */
  lemma {:induction false} KeepLocalAppend(a: seq<LocalEntry>, b: seq<LocalEntry>, items: seq<DisplayEntry>)
    ensures KeepLocal(a + b, items) == KeepLocal(a, items) + KeepLocal(b, items)
  {
    if a == [] {
      assert a + b == b;
    } else {
      assert (a + b)[1..] == a[1..] + b;
      KeepLocalAppend(a[1..], b, items);
    }
  }

  /** `findIndex(itemInit => fileName(itemInit) === n)`: the first entry with that name, or -1. */
  function FindRemote(fs: seq<RemoteFile>, n: Option<string>): (j: int)
    ensures -1 <= j < |fs|
    ensures j >= 0 ==> fs[j].name == n && forall k :: 0 <= k < j ==> fs[k].name != n
    ensures j == -1 ==> forall k :: 0 <= k < |fs| ==> fs[k].name != n
  {
    if fs == [] then -1
    else if fs[0].name == n then 0
    else
      var j := FindRemote(fs[1..], n);
      if j == -1 then -1 else j + 1
  }

  /** `findIndex(uploaded => uploaded.file.name === n)`: the first entry with that name, or -1. */
  function FindLocal(us: seq<LocalEntry>, n: Option<string>): (j: int)
    ensures -1 <= j < |us|
    ensures j >= 0 ==> Some(us[j].file.name) == n && forall k :: 0 <= k < j ==> Some(us[k].file.name) != n
    ensures j == -1 ==> forall k :: 0 <= k < |us| ==> Some(us[k].file.name) != n
  {
    if us == [] then -1
    else if Some(us[0].file.name) == n then 0
    else
      var j := FindLocal(us[1..], n);
      if j == -1 then -1 else j + 1
  }

  /** The last remote row of `items` named `n`, or -1. */
  function LastRemoteRow(items: seq<DisplayEntry>, n: Option<string>): (i: int)
    ensures -1 <= i < |items|
    ensures i >= 0 ==> items[i].isDefaultFile && items[i].fileName == n
    ensures forall k :: i < k < |items| ==> !(items[k].isDefaultFile && items[k].fileName == n)
  {
    if items == [] then -1
    else
      var m := |items| - 1;
      if items[m].isDefaultFile && items[m].fileName == n then m
      else LastRemoteRow(items[..m], n)
  }

  /** The last local row of `items` named `n`, or -1. */
  function LastLocalRow(items: seq<DisplayEntry>, n: Option<string>): (i: int)
    ensures -1 <= i < |items|
    ensures i >= 0 ==> !items[i].isDefaultFile && items[i].fileName == n
    ensures forall k :: i < k < |items| ==> !(!items[k].isDefaultFile && items[k].fileName == n)
  {
    if items == [] then -1
    else
      var m := |items| - 1;
      if !items[m].isDefaultFile && items[m].fileName == n then m
      else LastLocalRow(items[..m], n)
  }

  /** The remote entries after the `forEach` over `items` has overwritten orders: row `m`,
      when remote, sets the order of the first entry of its name to `m`. Only orders change. */
  function RenumberRemote(fs: seq<RemoteFile>, items: seq<DisplayEntry>): (r: seq<RemoteFile>)
    ensures |r| == |fs|
    ensures forall k :: 0 <= k < |fs| ==> r[k] == fs[k].(order := r[k].order)
  {
    if items == [] then fs
    else
      var m := |items| - 1;
      var prev := RenumberRemote(fs, items[..m]);
      if items[m].isDefaultFile then
        var j := FindRemote(prev, items[m].fileName);
        if j >= 0 then prev[j := prev[j].(order := Some(m))] else prev
      else prev
  }

  /** The local entries after the same `forEach`: row `m`, when local, sets the order of the
      first local entry of its name to `m`. Only orders change. */
  function RenumberLocal(us: seq<LocalEntry>, items: seq<DisplayEntry>): (r: seq<LocalEntry>)
    ensures |r| == |us|
    ensures forall k :: 0 <= k < |us| ==> r[k].file == us[k].file
  {
    if items == [] then us
    else
      var m := |items| - 1;
      var prev := RenumberLocal(us, items[..m]);
      if !items[m].isDefaultFile then
        var j := FindLocal(prev, items[m].fileName);
        if j >= 0 then prev[j := prev[j].(order := m)] else prev
      else prev
  }

  /** The remote and local lists `updateFileOrders(items)` stores. */
  function Reconcile(init: seq<RemoteFile>, up: seq<LocalEntry>, items: seq<DisplayEntry>): (seq<RemoteFile>, seq<LocalEntry>) {
    (RenumberRemote(KeepRemote(init, items), items), RenumberLocal(KeepLocal(up, items), items))
  }

  /** The loop of `updateFileOrders`: filter both lists, then walk `allItems` and overwrite the
      order of the first entry of each row's name, in place. */
  method RenumberOrders(init: seq<RemoteFile>, up: seq<LocalEntry>, allItems: seq<DisplayEntry>)
    returns (filteredInitFiles: seq<RemoteFile>, filteredUploadedFiles: seq<LocalEntry>)
    ensures (filteredInitFiles, filteredUploadedFiles) == Reconcile(init, up, allItems)
  {
    filteredInitFiles := KeepRemote(init, allItems);
    filteredUploadedFiles := KeepLocal(up, allItems);
    var index := 0;
    while index < |allItems|
      invariant 0 <= index <= |allItems|
      invariant filteredInitFiles == RenumberRemote(KeepRemote(init, allItems), allItems[..index])
      invariant filteredUploadedFiles == RenumberLocal(KeepLocal(up, allItems), allItems[..index])
    {
      var item := allItems[index];
      assert allItems[..index + 1][..index] == allItems[..index];
      if item.isDefaultFile {
        var initFileIndex := FindRemote(filteredInitFiles, item.fileName);
        if initFileIndex != -1 {
          filteredInitFiles := filteredInitFiles[initFileIndex := filteredInitFiles[initFileIndex].(order := Some(index))];
        }
      } else {
        var uploadedFileIndex := FindLocal(filteredUploadedFiles, item.fileName);
        if uploadedFileIndex != -1 {
          filteredUploadedFiles := filteredUploadedFiles[uploadedFileIndex := filteredUploadedFiles[uploadedFileIndex].(order := index)];
        }
      }
      index := index + 1;
    }
    assert allItems[..index] == allItems;
  }

  /** `findIndex(item => item.fileName === n)` over the rows: the first row of that name, or -1. */
  function IndexOfName(items: seq<DisplayEntry>, n: Option<string>): (i: int)
    ensures -1 <= i < |items|
    ensures i >= 0 ==> items[i].fileName == n && forall k :: 0 <= k < i ==> items[k].fileName != n
    ensures i == -1 ==> !NameIn(n, items)
  {
    if items == [] then -1
    else if items[0].fileName == n then 0
    else
      var i := IndexOfName(items[1..], n);
      if i == -1 then -1 else i + 1
  }

  lemma {:induction false} FindRemoteSameNames(a: seq<RemoteFile>, b: seq<RemoteFile>, n: Option<string>)
    requires |a| == |b| && forall k :: 0 <= k < |a| ==> a[k].name == b[k].name
    ensures FindRemote(a, n) == FindRemote(b, n)
  {
    if a != [] {
      FindRemoteSameNames(a[1..], b[1..], n);
    }
  }

  lemma {:induction false} FindLocalSameNames(a: seq<LocalEntry>, b: seq<LocalEntry>, n: Option<string>)
    requires |a| == |b| && forall k :: 0 <= k < |a| ==> a[k].file == b[k].file
    ensures FindLocal(a, n) == FindLocal(b, n)
  {
    if a != [] {
      FindLocalSameNames(a[1..], b[1..], n);
    }
  }

  /** One more row changes only the entry it names first, and only when it is remote. */
  lemma RenumberRemoteStep(fs: seq<RemoteFile>, items: seq<DisplayEntry>, j: nat)
    requires items != [] && j < |fs|
    ensures var m := |items| - 1;
      var prev := RenumberRemote(fs, items[..m]);
      RenumberRemote(fs, items)[j] ==
        if items[m].isDefaultFile && items[m].fileName == fs[j].name && FindRemote(fs, fs[j].name) == j
        then prev[j].(order := Some(m)) else prev[j]
  {
    var m := |items| - 1;
    var prev := RenumberRemote(fs, items[..m]);
    if items[m].isDefaultFile {
      FindRemoteSameNames(prev, fs, items[m].fileName);
      var k := FindRemote(fs, items[m].fileName);
      if k >= 0 && k != j {
        assert items[m].fileName != fs[j].name || FindRemote(fs, fs[j].name) != j;
      }
    }
  }

  /** What the renumbering does to one remote entry, whatever the rows: the first entry of each
      name takes the position of the last remote row of that name; every other entry, and an
      entry no remote row names, keeps its order. */
  lemma {:induction false} RenumberRemoteAt(fs: seq<RemoteFile>, items: seq<DisplayEntry>, j: nat)
    requires j < |fs|
    ensures var i := LastRemoteRow(items, fs[j].name);
      RenumberRemote(fs, items)[j] ==
        if FindRemote(fs, fs[j].name) == j && i >= 0 then fs[j].(order := Some(i)) else fs[j]
    decreases |items|
  {
    if items != [] {
      var m := |items| - 1;
      RenumberRemoteAt(fs, items[..m], j);
      RenumberRemoteStep(fs, items, j);
    }
  }

  /** One more row changes only the entry it names first, and only when it is local. */
  lemma RenumberLocalStep(us: seq<LocalEntry>, items: seq<DisplayEntry>, j: nat)
    requires items != [] && j < |us|
    ensures var m := |items| - 1;
      var prev := RenumberLocal(us, items[..m]);
      RenumberLocal(us, items)[j] ==
        if !items[m].isDefaultFile && items[m].fileName == Some(us[j].file.name) && FindLocal(us, Some(us[j].file.name)) == j
        then prev[j].(order := m) else prev[j]
  {
    var m := |items| - 1;
    var prev := RenumberLocal(us, items[..m]);
    if !items[m].isDefaultFile {
      FindLocalSameNames(prev, us, items[m].fileName);
      var k := FindLocal(us, items[m].fileName);
      if k >= 0 && k != j {
        assert items[m].fileName != Some(us[j].file.name) || FindLocal(us, Some(us[j].file.name)) != j;
      }
    }
  }

  /** The same for one local entry and the local rows. */
  lemma {:induction false} RenumberLocalAt(us: seq<LocalEntry>, items: seq<DisplayEntry>, j: nat)
    requires j < |us|
    ensures var i := LastLocalRow(items, Some(us[j].file.name));
      RenumberLocal(us, items)[j] ==
        if FindLocal(us, Some(us[j].file.name)) == j && i >= 0 then us[j].(order := i) else us[j]
    decreases |items|
  {
    if items != [] {
      var m := |items| - 1;
      RenumberLocalAt(us, items[..m], j);
      RenumberLocalStep(us, items, j);
    }
  }

  ghost predicate DistinctRemoteNames(fs: seq<RemoteFile>) {
    forall a, b :: 0 <= a < b < |fs| ==> fs[a].name != fs[b].name
  }

  ghost predicate DistinctLocalNames(us: seq<LocalEntry>) {
    forall a, b :: 0 <= a < b < |us| ==> us[a].file.name != us[b].file.name
  }

  /** No remote entry shares its name with a local entry. */
  ghost predicate DisjointNames(init: seq<RemoteFile>, up: seq<LocalEntry>) {
    forall a, b :: 0 <= a < |init| && 0 <= b < |up| ==> init[a].name != Some(up[b].file.name)
  }

  /** The name and order of each displayed row, before sorting. */
  lemma ViewNames(init: seq<RemoteFile>, up: seq<LocalEntry>)
    ensures |Views(init, up)| == |init| + |up|
    ensures forall a :: 0 <= a < |init| ==>
      Views(init, up)[a].fileName == init[a].name && Views(init, up)[a].order == init[a].order
    ensures forall b :: 0 <= b < |up| ==>
      Views(init, up)[|init| + b].fileName == Some(up[b].file.name) && Views(init, up)[|init| + b].order == Some(up[b].order)
  {
    var rv: seq<DisplayEntry>, lv: seq<DisplayEntry> := RemoteViews(init), LocalViews(up);
    assert Views(init, up) == rv + lv;
    forall a | 0 <= a < |init| ensures (rv + lv)[a].fileName == init[a].name && (rv + lv)[a].order == init[a].order {
      assert (rv + lv)[a] == rv[a] == RemoteView(init[a]);
    }
    forall b | 0 <= b < |up| ensures (rv + lv)[|init| + b].fileName == Some(up[b].file.name) && (rv + lv)[|init| + b].order == Some(up[b].order) {
      assert (rv + lv)[|init| + b] == lv[b] == LocalView(up[b]);
    }
  }

  /** The displayed rows have distinct names exactly when each list does and no name is in both. */
  lemma ViewsDistinctNames(init: seq<RemoteFile>, up: seq<LocalEntry>)
    ensures DistinctNames(Views(init, up)) <==>
      DistinctRemoteNames(init) && DistinctLocalNames(up) && DisjointNames(init, up)
  {
    ViewNames(init, up);
    if DistinctRemoteNames(init) && DistinctLocalNames(up) && DisjointNames(init, up) {
      DistinctViews(init, up);
    }
  }

  lemma DistinctViews(init: seq<RemoteFile>, up: seq<LocalEntry>)
    requires DistinctRemoteNames(init) && DistinctLocalNames(up) && DisjointNames(init, up)
    ensures DistinctNames(Views(init, up))
  {
    var v := Views(init, up);
    ViewNames(init, up);
    forall a, b | 0 <= a < b < |v| ensures v[a].fileName != v[b].fileName {
      if b < |init| {
      } else if a < |init| {
        assert v[b].fileName == Some(up[b - |init|].file.name);
      } else {
        assert v[a].fileName == Some(up[a - |init|].file.name);
        assert v[b].fileName == Some(up[b - |init|].file.name);
      }
    }
  }

  lemma {:induction false} KeepRemoteDistinct(init: seq<RemoteFile>, items: seq<DisplayEntry>)
    requires DistinctRemoteNames(init)
    ensures DistinctRemoteNames(KeepRemote(init, items))
  {
    if init != [] {
      KeepRemoteDistinct(init[1..], items);
      var rest := KeepRemote(init[1..], items);
      forall b | 0 <= b < |rest| ensures init[0].name != rest[b].name {
        assert rest[b] in init[1..];
        var k :| 0 <= k < |init[1..]| && init[1..][k] == rest[b];
        assert init[k + 1] == rest[b];
      }
    }
  }

  lemma {:induction false} KeepLocalDistinct(up: seq<LocalEntry>, items: seq<DisplayEntry>)
    requires DistinctLocalNames(up)
    ensures DistinctLocalNames(KeepLocal(up, items))
  {
    if up != [] {
      KeepLocalDistinct(up[1..], items);
      var rest := KeepLocal(up[1..], items);
      forall b | 0 <= b < |rest| ensures up[0].file.name != rest[b].file.name {
        assert rest[b] in up[1..];
        var k :| 0 <= k < |up[1..]| && up[1..][k] == rest[b];
        assert up[k + 1] == rest[b];
      }
    }
  }

  /** In a list with distinct names, two members with the same name are the same member. */
  lemma SameNameSameMember(s: seq<DisplayEntry>, x: DisplayEntry, y: DisplayEntry)
    requires DistinctNames(s) && x in s && y in s && x.fileName == y.fileName
    ensures x == y
  {
    var a :| 0 <= a < |s| && s[a] == x;
    var b :| 0 <= b < |s| && s[b] == y;
  }

  /** The rows the list is reconciled against: rows of the current list, with distinct names. */
  ghost predicate RowsOf(init: seq<RemoteFile>, up: seq<LocalEntry>, items: seq<DisplayEntry>) {
    DistinctNames(Views(init, up)) && DistinctNames(items)
    && forall i :: 0 <= i < |items| ==> items[i] in Views(init, up)
  }

  /** A remote entry named by some row is named by exactly one, and that row is remote. */
  lemma RemoteRowIsFirstRow(init: seq<RemoteFile>, up: seq<LocalEntry>, items: seq<DisplayEntry>, e: RemoteFile)
    requires RowsOf(init, up, items) && e in init && NameIn(e.name, items)
    ensures LastRemoteRow(items, e.name) == IndexOfName(items, e.name) >= 0
  {
    var v := Views(init, up);
    var i0 := IndexOfName(items, e.name);
    var p :| 0 <= p < |init| && init[p] == e;
    assert v[p] == RemoteView(e);
    SameNameSameMember(v, items[i0], RemoteView(e));
  }

  /** A local entry named by some row is named by exactly one, and that row is local. */
  lemma LocalRowIsFirstRow(init: seq<RemoteFile>, up: seq<LocalEntry>, items: seq<DisplayEntry>, e: LocalEntry)
    requires RowsOf(init, up, items) && e in up && NameIn(Some(e.file.name), items)
    ensures LastLocalRow(items, Some(e.file.name)) == IndexOfName(items, Some(e.file.name)) >= 0
  {
    var v := Views(init, up);
    var i0 := IndexOfName(items, Some(e.file.name));
    var p :| 0 <= p < |up| && up[p] == e;
    assert v[|init| + p] == LocalView(e);
    SameNameSameMember(v, items[i0], LocalView(e));
  }

  /** After reconciling, every kept remote entry's order is the position of its row. */
  lemma ReconciledRemoteOrder(init: seq<RemoteFile>, up: seq<LocalEntry>, items: seq<DisplayEntry>, j: nat)
    requires RowsOf(init, up, items) && j < |KeepRemote(init, items)|
    ensures var kept := KeepRemote(init, items);
      NameIn(kept[j].name, items) && kept[j] in init &&
      Reconcile(init, up, items).0[j] == kept[j].(order := Some(IndexOfName(items, kept[j].name)))
  {
    var kept := KeepRemote(init, items);
    assert kept[j] in kept;
    ViewsDistinctNames(init, up);
    KeepRemoteDistinct(init, items);
    assert FindRemote(kept, kept[j].name) == j;
    RemoteRowIsFirstRow(init, up, items, kept[j]);
    RenumberRemoteAt(kept, items, j);
  }

  /** After reconciling, every kept local entry's order is the position of its row. */
  lemma ReconciledLocalOrder(init: seq<RemoteFile>, up: seq<LocalEntry>, items: seq<DisplayEntry>, j: nat)
    requires RowsOf(init, up, items) && j < |KeepLocal(up, items)|
    ensures var kept := KeepLocal(up, items);
      NameIn(Some(kept[j].file.name), items) && kept[j] in up &&
      Reconcile(init, up, items).1[j] == kept[j].(order := IndexOfName(items, Some(kept[j].file.name)))
  {
    var kept := KeepLocal(up, items);
    assert kept[j] in kept;
    ViewsDistinctNames(init, up);
    KeepLocalDistinct(up, items);
    assert FindLocal(kept, Some(kept[j].file.name)) == j;
    LocalRowIsFirstRow(init, up, items, kept[j]);
    RenumberLocalAt(kept, items, j);
  }

  /** Some displayed row has order `k`. */
  ghost predicate HasOrder(s: seq<DisplayEntry>, k: int) {
    exists p :: 0 <= p < |s| && s[p].order == Some(k)
  }

  /** The orders of `s` are exactly 0 .. n-1, each used once. */
  ghost predicate DenseOrders(s: seq<DisplayEntry>, n: int) {
    (forall p :: 0 <= p < |s| ==> s[p].order.Some? && 0 <= s[p].order.value < n)
    && (forall p, q :: 0 <= p < q < |s| ==> s[p].order != s[q].order)
    && (forall k :: 0 <= k < n ==> HasOrder(s, k))
  }

  /** After reconciling, each displayed row is named by a target row and ordered by its position. */
  lemma ReconciledRowOrders(init: seq<RemoteFile>, up: seq<LocalEntry>, items: seq<DisplayEntry>)
    requires RowsOf(init, up, items)
    ensures var r := Reconcile(init, up, items); var v := Views(r.0, r.1);
      forall p :: 0 <= p < |v| ==>
        NameIn(v[p].fileName, items) && v[p].order == Some(IndexOfName(items, v[p].fileName))
  {
    var r := Reconcile(init, up, items);
    var v := Views(r.0, r.1);
    ViewNames(r.0, r.1);
    forall p | 0 <= p < |v|
      ensures NameIn(v[p].fileName, items) && v[p].order == Some(IndexOfName(items, v[p].fileName))
    {
      if p < |r.0| {
        ReconciledRemoteOrder(init, up, items, p);
      } else {
        ReconciledLocalOrder(init, up, items, p - |r.0|);
      }
    }
  }

  /** After reconciling, the displayed rows still have distinct names. */
  lemma ReconciledDistinct(init: seq<RemoteFile>, up: seq<LocalEntry>, items: seq<DisplayEntry>)
    requires RowsOf(init, up, items)
    ensures var r := Reconcile(init, up, items); DistinctNames(Views(r.0, r.1))
  {
    var r := Reconcile(init, up, items);
    var keptR, keptL := KeepRemote(init, items), KeepLocal(up, items);
    ViewsDistinctNames(init, up);
    KeepRemoteDistinct(init, items);
    KeepLocalDistinct(up, items);
    assert forall a :: 0 <= a < |r.0| ==> r.0[a].name == keptR[a].name;
    assert forall b :: 0 <= b < |r.1| ==> r.1[b].file == keptL[b].file;
    forall a, b | 0 <= a < |r.0| && 0 <= b < |r.1| ensures r.0[a].name != Some(r.1[b].file.name) {
      assert keptR[a] in keptR && keptL[b] in keptL;
      var x :| 0 <= x < |init| && init[x] == keptR[a];
      var y :| 0 <= y < |up| && up[y] == keptL[b];
    }
    DistinctViews(r.0, r.1);
  }

  /** With distinct names, row `k` is the first row of its own name. */
  lemma RowIsFirstOfName(items: seq<DisplayEntry>, k: nat)
    requires DistinctNames(items) && k < |items|
    ensures NameIn(items[k].fileName, items) && IndexOfName(items, items[k].fileName) == k
  {
  }

  /** A remote entry named by some row is kept, at some position. */
  lemma RemoteKeptAt(init: seq<RemoteFile>, items: seq<DisplayEntry>, p: nat) returns (j: nat)
    requires p < |init| && NameIn(init[p].name, items)
    ensures j < |KeepRemote(init, items)| && KeepRemote(init, items)[j] == init[p]
  {
    var kept := KeepRemote(init, items);
    assert init[p] in kept;
    j :| 0 <= j < |kept| && kept[j] == init[p];
  }

  /** A local entry named by some row is kept, at some position. */
  lemma LocalKeptAt(up: seq<LocalEntry>, items: seq<DisplayEntry>, p: nat) returns (j: nat)
    requires p < |up| && NameIn(Some(up[p].file.name), items)
    ensures j < |KeepLocal(up, items)| && KeepLocal(up, items)[j] == up[p]
  {
    var kept := KeepLocal(up, items);
    assert up[p] in kept;
    j :| 0 <= j < |kept| && kept[j] == up[p];
  }

  /** A remote entry named by row `k` ends up, kept, with order `k`. */
  lemma RemoteOrderAt(init: seq<RemoteFile>, up: seq<LocalEntry>, items: seq<DisplayEntry>, k: nat, p: nat) returns (j: nat)
    requires RowsOf(init, up, items) && k < |items| && p < |init| && items[k].fileName == init[p].name
    ensures j < |Reconcile(init, up, items).0| && Reconcile(init, up, items).0[j].order == Some(k)
  {
    RowIsFirstOfName(items, k);
    j := RemoteKeptAt(init, items, p);
    ReconciledRemoteOrder(init, up, items, j);
  }

  /** A local entry named by row `k` ends up, kept, with order `k`. */
  lemma LocalOrderAt(init: seq<RemoteFile>, up: seq<LocalEntry>, items: seq<DisplayEntry>, k: nat, p: nat) returns (j: nat)
    requires RowsOf(init, up, items) && k < |items| && p < |up| && items[k].fileName == Some(up[p].file.name)
    ensures j < |Reconcile(init, up, items).1| && Reconcile(init, up, items).1[j].order == k
  {
    RowIsFirstOfName(items, k);
    j := LocalKeptAt(up, items, p);
    ReconciledLocalOrder(init, up, items, j);
  }

  /** A remote entry's order is the order of its projection. */
  lemma RemoteOrderShown(rs: seq<RemoteFile>, ls: seq<LocalEntry>, j: nat, k: int)
    requires j < |rs| && rs[j].order == Some(k)
    ensures HasOrder(Views(rs, ls), k)
  {
    assert Views(rs, ls)[j] == RemoteViews(rs)[j];
  }

  /** A local entry's order is the order of its projection. */
  lemma LocalOrderShown(rs: seq<RemoteFile>, ls: seq<LocalEntry>, j: nat, k: int)
    requires j < |ls| && ls[j].order == k
    ensures HasOrder(Views(rs, ls), k)
  {
    assert Views(rs, ls)[|rs| + j] == LocalViews(ls)[j];
  }

  /** Target row `k` is the projection of some entry, remote or local, of its name. */
  lemma RowSource(init: seq<RemoteFile>, up: seq<LocalEntry>, items: seq<DisplayEntry>, k: nat) returns (p: nat)
    requires RowsOf(init, up, items) && k < |items|
    ensures p < |init| + |up|
    ensures p < |init| ==> items[k].fileName == init[p].name
    ensures p >= |init| ==> items[k].fileName == Some(up[p - |init|].file.name)
  {
    var v := Views(init, up);
    assert items[k] in v;
    p :| 0 <= p < |v| && v[p] == items[k];
    if p < |init| {
      assert v[p] == RemoteViews(init)[p];
    } else {
      assert v[p] == LocalViews(up)[p - |init|];
    }
  }

  /** Target row `k`, named after remote entry `p`, is the order of a displayed row afterwards. */
  lemma CoveredByRemote(init: seq<RemoteFile>, up: seq<LocalEntry>, items: seq<DisplayEntry>, k: nat, p: nat)
    requires RowsOf(init, up, items) && k < |items| && p < |init| && items[k].fileName == init[p].name
    ensures var r := Reconcile(init, up, items); HasOrder(Views(r.0, r.1), k)
  {
    var j := RemoteOrderAt(init, up, items, k, p);
    var r := Reconcile(init, up, items);
    RemoteOrderShown(r.0, r.1, j, k);
  }

  /** Target row `k`, named after local entry `p`, is the order of a displayed row afterwards. */
  lemma CoveredByLocal(init: seq<RemoteFile>, up: seq<LocalEntry>, items: seq<DisplayEntry>, k: nat, p: nat)
    requires RowsOf(init, up, items) && k < |items| && p < |up| && items[k].fileName == Some(up[p].file.name)
    ensures var r := Reconcile(init, up, items); HasOrder(Views(r.0, r.1), k)
  {
    var j := LocalOrderAt(init, up, items, k, p);
    var r := Reconcile(init, up, items);
    LocalOrderShown(r.0, r.1, j, k);
  }

  /** Target row `k` is the order of the entry it projects, afterwards. */
  lemma CoveredAt(init: seq<RemoteFile>, up: seq<LocalEntry>, items: seq<DisplayEntry>, k: nat)
    requires RowsOf(init, up, items) && k < |items|
    ensures var r := Reconcile(init, up, items); HasOrder(Views(r.0, r.1), k)
  {
    var p := RowSource(init, up, items, k);
    if p < |init| {
      CoveredByRemote(init, up, items, k, p);
    } else {
      CoveredByLocal(init, up, items, k, p - |init|);
    }
  }

  /** After reconciling, every target position is the order of some displayed row. */
  lemma ReconciledCoverage(init: seq<RemoteFile>, up: seq<LocalEntry>, items: seq<DisplayEntry>)
    requires RowsOf(init, up, items)
    ensures var r := Reconcile(init, up, items);
      forall k :: 0 <= k < |items| ==> HasOrder(Views(r.0, r.1), k)
  {
    var r := Reconcile(init, up, items);
    forall k | 0 <= k < |items| ensures HasOrder(Views(r.0, r.1), k) {
      CoveredAt(init, up, items, k);
    }
  }

  /** `updateFileOrders(items)`, given rows of the current list with distinct names, leaves
      entries whose orders are exactly the positions 0 .. |items|-1, one entry per row, each
      entry at the position of the row of its name, and names still distinct. */
  lemma ReconcileGivesDenseOrders(init: seq<RemoteFile>, up: seq<LocalEntry>, items: seq<DisplayEntry>)
    requires RowsOf(init, up, items)
    ensures var r := Reconcile(init, up, items); var v := Views(r.0, r.1);
      DistinctNames(v) && DenseOrders(v, |items|)
      && forall p :: 0 <= p < |v| ==> v[p].order == Some(IndexOfName(items, v[p].fileName))
  {
    var r := Reconcile(init, up, items);
    var v := Views(r.0, r.1);
    ReconciledRowOrders(init, up, items);
    ReconciledDistinct(init, up, items);
    ReconciledCoverage(init, up, items);
    forall p, q | 0 <= p < q < |v| ensures v[p].order != v[q].order {
      assert v[p].fileName != v[q].fileName;
    }
  }

  /** `transformedImages.filter(item => item.order !== o)`: the rows `handleRemoveFiles` keeps. */
  function WithoutOrder(s: seq<DisplayEntry>, o: Option<int>): (r: seq<DisplayEntry>)
    ensures |r| <= |s|
    ensures forall x :: x in r <==> x in s && x.order != o
  {
    if s == [] then []
    else
      assert forall x :: x in s <==> x == s[0] || x in s[1..];
      (if s[0].order != o then [s[0]] else []) + WithoutOrder(s[1..], o)
  }

  /** `filter` works piece by piece: the remaining rows keep their order and multiplicity. */
  lemma {:induction false} WithoutOrderAppend(a: seq<DisplayEntry>, b: seq<DisplayEntry>, o: Option<int>)
    ensures WithoutOrder(a + b, o) == WithoutOrder(a, o) + WithoutOrder(b, o)
  {
    if a == [] {
      assert a + b == b;
    } else {
      assert (a + b)[1..] == a[1..] + b;
      WithoutOrderAppend(a[1..], b, o);
    }
  }

  lemma {:induction false} WithoutOrderDistinct(s: seq<DisplayEntry>, o: Option<int>)
    requires DistinctNames(s)
    ensures DistinctNames(WithoutOrder(s, o))
  {
    if s != [] {
      WithoutOrderDistinct(s[1..], o);
      var rest := WithoutOrder(s[1..], o);
      forall b | 0 <= b < |rest| ensures s[0].fileName != rest[b].fileName {
        assert rest[b] in s[1..];
        var k :| 0 <= k < |s[1..]| && s[1..][k] == rest[b];
        assert s[k + 1] == rest[b];
      }
    }
  }

  /** The displayed list holds the same rows as the projections, so it has distinct names
      when they do. */
  lemma DisplayedRows(init: seq<RemoteFile>, up: seq<LocalEntry>)
    requires DistinctNames(Views(init, up))
    ensures multiset(TransformedImages(init, up)) == multiset(Views(init, up))
    ensures DistinctNames(TransformedImages(init, up))
  {
    DisplayedIsStableMerge(init, up);
    assert multiset(Views(init, up)) == multiset(RemoteViews(init)) + multiset(LocalViews(up));
    PermutationKeepsDistinctNames(Views(init, up), TransformedImages(init, up));
  }

  /** `handleRemoveFiles(file)` then `updateFileOrders`: when names are distinct, the remaining
      rows are numbered 0 .. n-1 with n the number of rows kept, names stay distinct, and no
      entry that had the removed order is left. */
  lemma RemoveRenumbers(init: seq<RemoteFile>, up: seq<LocalEntry>, o: Option<int>)
    requires DistinctNames(Views(init, up))
    ensures var items := WithoutOrder(TransformedImages(init, up), o);
      var r := Reconcile(init, up, items); var v := Views(r.0, r.1);
      && DistinctNames(v) && DenseOrders(v, |items|)
      && forall x, p :: x in Views(init, up) && x.order == o && 0 <= p < |v| ==> v[p].fileName != x.fileName
  {
    var t := TransformedImages(init, up);
    var items := WithoutOrder(t, o);
    DisplayedRows(init, up);
    WithoutOrderDistinct(t, o);
    forall i | 0 <= i < |items| ensures items[i] in Views(init, up) {
      assert items[i] in t;
      assert items[i] in multiset(t);
    }
    ReconcileGivesDenseOrders(init, up, items);
    var r := Reconcile(init, up, items);
    var v := Views(r.0, r.1);
    forall x, p | x in Views(init, up) && x.order == o && 0 <= p < |v| ensures v[p].fileName != x.fileName {
      var i := IndexOfName(items, v[p].fileName);
      ReconciledRowOrders(init, up, items);
      if v[p].fileName == x.fileName {
        SameNameSameMember(Views(init, up), items[i], x);
      }
    }
  }

  /** `handleDragEnd` then `updateFileOrders`: when names are distinct, the rows are numbered
      0 .. n-1 in their new places, and the dragged entry takes the order `to`. */
  lemma DragRenumbers(init: seq<RemoteFile>, up: seq<LocalEntry>, from: nat, to: nat)
    requires DistinctNames(Views(init, up))
    requires from < |TransformedImages(init, up)| && to < |TransformedImages(init, up)|
    ensures var t := TransformedImages(init, up); var items := ArrayMove(t, from, to);
      var r := Reconcile(init, up, items); var v := Views(r.0, r.1);
      && |items| == |t|
      && DistinctNames(v) && DenseOrders(v, |t|)
      && forall p :: 0 <= p < |v| && v[p].fileName == t[from].fileName ==> v[p].order == Some(to)
  {
    var t := TransformedImages(init, up);
    var items := ArrayMove(t, from, to);
    DisplayedRows(init, up);
    ArrayMovePermutes(t, from, to);
    PermutationKeepsDistinctNames(t, items);
    forall i | 0 <= i < |items| ensures items[i] in Views(init, up) {
      assert items[i] in multiset(items);
    }
    ReconcileGivesDenseOrders(init, up, items);
    assert IndexOfName(items, t[from].fileName) == to;
  }

  /** Rows that are a permutation of the current rows, when those have distinct names. */
  lemma PermutedRows(init: seq<RemoteFile>, up: seq<LocalEntry>, items: seq<DisplayEntry>)
    requires DistinctNames(Views(init, up)) && multiset(items) == multiset(Views(init, up))
    ensures RowsOf(init, up, items)
  {
    PermutationKeepsDistinctNames(Views(init, up), items);
    forall i | 0 <= i < |items| ensures items[i] in Views(init, up) {
      assert items[i] in multiset(items);
    }
  }

  lemma {:induction false} KeepAllLocal(us: seq<LocalEntry>, items: seq<DisplayEntry>)
    requires forall k :: 0 <= k < |us| ==> NameIn(Some(us[k].file.name), items)
    ensures KeepLocal(us, items) == us
  {
    if us != [] {
      KeepAllLocal(us[1..], items);
      assert NameIn(Some(us[0].file.name), items);
    }
  }

  lemma ThreeSortedLocal(a: LocalEntry, b: LocalEntry, c: LocalEntry)
    requires a.order == 0 && b.order == 1 && c.order == 2
    ensures TransformedImages([], [a, b, c]) == [LocalView(a), LocalView(b), LocalView(c)]
  {
    var va, vb, vc := LocalView(a), LocalView(b), LocalView(c);
    var v := Views([], [a, b, c]);
    assert LocalViews([a, b, c]) == [va, vb, vc];
    assert RemoteViews([]) == [];
    assert v == [va, vb, vc];
    assert v[1..] == [vb, vc] && v[2..] == [vc] && v[3..] == [];
    assert SortByOrder(v[2..]) == Insert(vc, []) == [vc];
    assert SortByOrder(v[1..]) == Insert(vb, [vc]) == [vb, vc];
    assert SortByOrder(v) == Insert(va, [vb, vc]) == [va, vb, vc];
  }

  lemma LocalRows(a: LocalEntry, b: LocalEntry, c: LocalEntry)
    requires a.file.name != b.file.name && b.file.name != c.file.name && a.file.name != c.file.name
    ensures RowsOf([], [a, b, c], [LocalView(b), LocalView(c), LocalView(a)])
  {
    ThreeLocalViews(a, b, c);
    DistinctViews([], [a, b, c]);
    ThreeLocalRotated(a, b, c);
    PermutedRows([], [a, b, c], [LocalView(b), LocalView(c), LocalView(a)]);
  }

  lemma ThreeLocalViews(a: LocalEntry, b: LocalEntry, c: LocalEntry)
    ensures Views([], [a, b, c]) == [LocalView(a), LocalView(b), LocalView(c)]
  {
    assert LocalViews([a, b, c]) == [LocalView(a), LocalView(b), LocalView(c)];
    assert RemoteViews([]) == [];
  }

  lemma ThreeLocalRotated(a: LocalEntry, b: LocalEntry, c: LocalEntry)
    ensures multiset([LocalView(b), LocalView(c), LocalView(a)]) == multiset(Views([], [a, b, c]))
  {
    var va, vb, vc := LocalView(a), LocalView(b), LocalView(c);
    ThreeLocalViews(a, b, c);
    ArrayMoveFirstToLast(va, vb, vc);
    ArrayMovePermutes([va, vb, vc], 0, 2);
  }

  lemma LocalKept(a: LocalEntry, b: LocalEntry, c: LocalEntry)
    ensures KeepLocal([a, b, c], [LocalView(b), LocalView(c), LocalView(a)]) == [a, b, c]
  {
    var va, vb, vc := LocalView(a), LocalView(b), LocalView(c);
    var items := [vb, vc, va];
    assert items[2].fileName == Some(a.file.name) && items[0].fileName == Some(b.file.name) && items[1].fileName == Some(c.file.name);
    KeepAllLocal([a, b, c], items);
  }

  /** In the rows B, C, A each name's first row is its position. */
  lemma RotatedIndices(a: LocalEntry, b: LocalEntry, c: LocalEntry)
    requires a.file.name != b.file.name && b.file.name != c.file.name && a.file.name != c.file.name
    ensures var items := [LocalView(b), LocalView(c), LocalView(a)];
      && IndexOfName(items, Some(a.file.name)) == 2
      && IndexOfName(items, Some(b.file.name)) == 0
      && IndexOfName(items, Some(c.file.name)) == 1
  {
    var items := [LocalView(b), LocalView(c), LocalView(a)];
    assert DistinctNames(items);
    RowIsFirstOfName(items, 0);
    RowIsFirstOfName(items, 1);
    RowIsFirstOfName(items, 2);
  }

  /** Reconciling A, B, C against the rows B, C, A gives entry `j` its new order. */
  lemma RotatedOrderAt(a: LocalEntry, b: LocalEntry, c: LocalEntry, j: nat)
    requires a.file.name != b.file.name && b.file.name != c.file.name && a.file.name != c.file.name
    requires j < 3
    ensures var r := Reconcile([], [a, b, c], [LocalView(b), LocalView(c), LocalView(a)]);
      |r.1| == 3 && r.1[j] == [a.(order := 2), b.(order := 0), c.(order := 1)][j]
  {
    var items := [LocalView(b), LocalView(c), LocalView(a)];
    LocalRows(a, b, c);
    LocalKept(a, b, c);
    RotatedIndices(a, b, c);
    ReconciledLocalOrder([], [a, b, c], items, j);
  }

  /** Reconciling A, B, C against the rows B, C, A renumbers them 2, 0, 1. */
  lemma RotatedReconcile(a: LocalEntry, b: LocalEntry, c: LocalEntry)
    requires a.file.name != b.file.name && b.file.name != c.file.name && a.file.name != c.file.name
    ensures Reconcile([], [a, b, c], [LocalView(b), LocalView(c), LocalView(a)])
         == ([], [a.(order := 2), b.(order := 0), c.(order := 1)])
  {
    var items := [LocalView(b), LocalView(c), LocalView(a)];
    var r := Reconcile([], [a, b, c], items);
    RotatedOrderAt(a, b, c, 0);
    RotatedOrderAt(a, b, c, 1);
    RotatedOrderAt(a, b, c, 2);
    assert |KeepRemote([], items)| == 0;
    assert |r.0| == 0;
    var want := [a.(order := 2), b.(order := 0), c.(order := 1)];
    assert forall j :: 0 <= j < 3 ==> r.1[j] == want[j];
    assert r.0 == [] && r.1 == want;
  }

  /** Three uploaded files A, B, C at orders 0, 1, 2 are displayed in that order; dragging A
      onto C's place gives B = 0, C = 1, A = 2. */
  lemma DragFirstToLastExample(a: LocalEntry, b: LocalEntry, c: LocalEntry)
    requires a.order == 0 && b.order == 1 && c.order == 2
    requires a.file.name != b.file.name && b.file.name != c.file.name && a.file.name != c.file.name
    ensures TransformedImages([], [a, b, c]) == [LocalView(a), LocalView(b), LocalView(c)]
    ensures Reconcile([], [a, b, c], ArrayMove([LocalView(a), LocalView(b), LocalView(c)], 0, 2))
         == ([], [a.(order := 2), b.(order := 0), c.(order := 1)])
  {
    ThreeSortedLocal(a, b, c);
    ArrayMoveFirstToLast(LocalView(a), LocalView(b), LocalView(c));
    RotatedReconcile(a, b, c);
  }
}
