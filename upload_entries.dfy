/** The two populations of the multi-file upload list (`initFiles`, `uploadedFiles`), their
    projection into one display shape, the stable sort that merges them, and `arrayMove`. */
module UploadEntries {
  import opened Wrappers
  import opened BrowserFile
  import ImageFile
  import UrlFileName

  /** A remote entry from `defaultFiles`. The accessor props `srcImage`, `fileName` and
      `fileSize`, and the field named by `orderKey`, are its four fields; each may be missing. */
  datatype RemoteFile = RemoteFile(order: Option<int>, src: Option<string>, name: Option<string>, size: Option<int>)

  /** A local entry `{ order, file }`. */
  datatype LocalEntry = LocalEntry(order: int, file: File)

  /** `TransformedImagesType`: one row of the displayed list. Its `isImage` flag is fixed by
      its `src` for both kinds of row, so it is the predicate `IsImage` rather than a field. */
  datatype DisplayEntry = DisplayEntry(
    isDefaultFile: bool,
    order: Option<int>,
    src: Source,
    fileName: Option<string>,
    fileSize: Option<int>)
  {
    /** `isImage`: a remote row asks `isImageFile` about the file name at the end of its URL;
        a local row asks whether its file's MIME type starts with `image/`. */
    predicate IsImage() {
      match src
      case Url(url) => ImageFile.IsImageFile(UrlFileName.FileNameFromUrl(Some(url)))
      case ObjectUrl(file) => HasImageType(file)
    }
  }

  /** The projection of a remote entry (`transformedDefaultImages`); a missing `srcImage`
      becomes the empty URL. */
  function RemoteView(r: RemoteFile): DisplayEntry {
    DisplayEntry(true, r.order, Url(r.src.GetOr("")), r.name, r.size)
  }

  /** The projection of a local entry (`transformedSelectImages`). */
  function LocalView(l: LocalEntry): DisplayEntry {
    DisplayEntry(false, Some(l.order), ObjectUrl(l.file), Some(l.file.name), Some(l.file.size))
  }

  /** A remote row is an image when the file name at the end of its URL (or of `''`) is. */
  lemma RemoteViewIsImage(r: RemoteFile)
    ensures RemoteView(r).IsImage() <==> ImageFile.IsImageFile(UrlFileName.FileNameFromUrl(Some(r.src.GetOr(""))))
  {
  }

  /** A remote row without a URL is never shown as an image: its name is the placeholder. */
  lemma {:induction false} RemoteViewWithoutUrlIsNoImage(r: RemoteFile)
    requires r.src == None
    ensures !RemoteView(r).IsImage()
  {
    var name := UrlFileName.FileNameFromUrl(Some(r.src.GetOr("")));
    assert name == UrlFileName.NoName;
    ImageFile.BeyondAsciiIsNotImage(name);
  }

  /** A local row is an image exactly when its file's MIME type starts with `image/`. */
  lemma LocalViewIsImage(l: LocalEntry)
    ensures LocalView(l).IsImage() <==> "image/" <= l.file.mimeType
  {
  }

  function RemoteViews(init: seq<RemoteFile>): (vs: seq<DisplayEntry>)
    ensures |vs| == |init|
    ensures forall i :: 0 <= i < |init| ==> vs[i] == RemoteView(init[i])
  {
    seq(|init|, i requires 0 <= i < |init| => RemoteView(init[i]))
  }

  function LocalViews(up: seq<LocalEntry>): (vs: seq<DisplayEntry>)
    ensures |vs| == |up|
    ensures forall i :: 0 <= i < |up| ==> vs[i] == LocalView(up[i])
  {
    seq(|up|, i requires 0 <= i < |up| => LocalView(up[i]))
  }

  /** `[...transformedDefaultImages, ...transformedSelectImages]`, before sorting. */
  function Views(init: seq<RemoteFile>, up: seq<LocalEntry>): seq<DisplayEntry> {
    RemoteViews(init) + LocalViews(up)
  }

  /** The sort key `a.order ?? 0`. */
  function Key(d: DisplayEntry): int {
    d.order.GetOr(0)
  }

  ghost predicate SortedByKey(s: seq<DisplayEntry>) {
    forall i, j :: 0 <= i < j < |s| ==> Key(s[i]) <= Key(s[j])
  }

  /** The entries of `s` whose key is `k`, in their order in `s`. */
  function WithKey(s: seq<DisplayEntry>, k: int): seq<DisplayEntry> {
    if s == [] then []
    else (if Key(s[0]) == k then [s[0]] else []) + WithKey(s[1..], k)
  }

  /** Places `x` before the first entry whose key is not smaller. */
  function Insert(x: DisplayEntry, s: seq<DisplayEntry>): seq<DisplayEntry> {
    if s == [] || Key(x) <= Key(s[0]) then [x] + s
    else [s[0]] + Insert(x, s[1..])
  }

  /** `Array.prototype.sort` with the comparator `(a.order ?? 0) - (b.order ?? 0)`; the
      language guarantees that sort to be stable. */
  function SortByOrder(s: seq<DisplayEntry>): seq<DisplayEntry> {
    if s == [] then [] else Insert(s[0], SortByOrder(s[1..]))
  }

  /** `transformedImages`: both projections, merged and sorted by order. */
  function TransformedImages(init: seq<RemoteFile>, up: seq<LocalEntry>): seq<DisplayEntry> {
    SortByOrder(Views(init, up))
  }

  lemma {:induction false} WithKeyAppend(a: seq<DisplayEntry>, b: seq<DisplayEntry>, k: int)
    ensures WithKey(a + b, k) == WithKey(a, k) + WithKey(b, k)
  {
    if a == [] {
      assert a + b == b;
    } else {
      var head := if Key(a[0]) == k then [a[0]] else [];
      assert (a + b)[0] == a[0] && (a + b)[1..] == a[1..] + b;
      assert WithKey(a + b, k) == head + WithKey(a[1..] + b, k);
      WithKeyAppend(a[1..], b, k);
      assert WithKey(a, k) == head + WithKey(a[1..], k);
    }
  }

  /** Inserting adds `x` and loses nothing. */
  lemma {:induction false} InsertPermutes(x: DisplayEntry, s: seq<DisplayEntry>)
    ensures multiset(Insert(x, s)) == multiset(s) + multiset{x}
  {
    if s != [] && Key(x) > Key(s[0]) {
      InsertPermutes(x, s[1..]);
      assert s == [s[0]] + s[1..];
    }
  }

  /** A lower bound of `x` and of every entry of `s` bounds every entry after the insertion. */
  lemma InsertBounded(x: DisplayEntry, s: seq<DisplayEntry>, b: int)
    requires Key(x) >= b && forall i :: 0 <= i < |s| ==> Key(s[i]) >= b
    ensures forall i :: 0 <= i < |Insert(x, s)| ==> Key(Insert(x, s)[i]) >= b
  {
    var r := Insert(x, s);
    forall i | 0 <= i < |r| ensures Key(r[i]) >= b {
      InsertPermutes(x, s);
      assert r[i] in multiset(r);
      assert r[i] == x || r[i] in s;
    }
  }

  /** An entry no larger than any of a sorted list stays sorted in front of it. */
  lemma SortedCons(h: DisplayEntry, t: seq<DisplayEntry>)
    requires SortedByKey(t) && forall i :: 0 <= i < |t| ==> Key(h) <= Key(t[i])
    ensures SortedByKey([h] + t)
  {
    var r := [h] + t;
    forall i, j | 0 <= i < j < |r| ensures Key(r[i]) <= Key(r[j]) {
      assert r[j] == t[j - 1];
      if i > 0 {
        assert r[i] == t[i - 1];
      }
    }
  }

  lemma {:induction false} InsertSorted(x: DisplayEntry, s: seq<DisplayEntry>)
    requires SortedByKey(s)
    ensures SortedByKey(Insert(x, s))
    ensures multiset(Insert(x, s)) == multiset(s) + multiset{x}
  {
    InsertPermutes(x, s);
    if s == [] || Key(x) <= Key(s[0]) {
      SortedCons(x, s);
    } else {
      var tail := s[1..];
      assert SortedByKey(tail);
      InsertSorted(x, tail);
      InsertBounded(x, tail, Key(s[0]));
      SortedCons(s[0], Insert(x, tail));
    }
  }

  /** Inserting `x` adds it in front of the entries of its own key and nowhere else. */
  lemma {:induction false} InsertWithKey(x: DisplayEntry, s: seq<DisplayEntry>, k: int)
    ensures WithKey(Insert(x, s), k) == (if Key(x) == k then [x] else []) + WithKey(s, k)
    decreases |s|
  {
    var mine := if Key(x) == k then [x] else [];
    if s == [] || Key(x) <= Key(s[0]) {
      var r := [x] + s;
      assert r[0] == x && r[1..] == s;
      assert WithKey(r, k) == mine + WithKey(s, k);
    } else {
      var rest := Insert(x, s[1..]);
      InsertWithKey(x, s[1..], k);
      var r := [s[0]] + rest;
      assert r[0] == s[0] && r[1..] == rest;
      var head := if Key(s[0]) == k then [s[0]] else [];
      assert WithKey(r, k) == head + (mine + WithKey(s[1..], k));
      assert WithKey(s, k) == head + WithKey(s[1..], k);
      assert head == [] || mine == [];
    }
  }

  /** The sort orders the entries by key and keeps every entry. */
  lemma {:induction false} SortByOrderSorts(s: seq<DisplayEntry>)
    ensures SortedByKey(SortByOrder(s))
    ensures multiset(SortByOrder(s)) == multiset(s)
  {
    if s != [] {
      var t := SortByOrder(s[1..]);
      SortByOrderSorts(s[1..]);
      InsertSorted(s[0], t);
      assert s == [s[0]] + s[1..];
    }
  }

  /** The sort keeps the entries of each key in their order. */
  lemma {:induction false} SortByOrderKeepsKeyOrder(s: seq<DisplayEntry>, k: int)
    ensures WithKey(SortByOrder(s), k) == WithKey(s, k)
  {
    if s != [] {
      var t := SortByOrder(s[1..]);
      SortByOrderKeepsKeyOrder(s[1..], k);
      InsertWithKey(s[0], t, k);
    }
  }

  /** The sort of the display list is a stable sort: the result is sorted by key, holds the
      same entries, and entries with equal keys keep their relative order. */
  lemma SortByOrderIsStableSort(s: seq<DisplayEntry>)
    ensures SortedByKey(SortByOrder(s))
    ensures multiset(SortByOrder(s)) == multiset(s)
    ensures forall k :: WithKey(SortByOrder(s), k) == WithKey(s, k)
  {
    SortByOrderSorts(s);
    forall k ensures WithKey(SortByOrder(s), k) == WithKey(s, k) {
      SortByOrderKeepsKeyOrder(s, k);
    }
  }

  /** The displayed list: sorted ascending by order (missing counting as 0), the remote and
      local projections and nothing else, and on equal orders every remote projection before
      every local one, each group in its own order. */
  lemma DisplayedIsStableMerge(init: seq<RemoteFile>, up: seq<LocalEntry>)
    ensures var d := TransformedImages(init, up);
      && SortedByKey(d)
      && multiset(d) == multiset(RemoteViews(init)) + multiset(LocalViews(up))
      && forall k :: WithKey(d, k) == WithKey(RemoteViews(init), k) + WithKey(LocalViews(up), k)
  {
    SortByOrderIsStableSort(Views(init, up));
    forall k ensures WithKey(Views(init, up), k) == WithKey(RemoteViews(init), k) + WithKey(LocalViews(up), k) {
      WithKeyAppend(RemoteViews(init), LocalViews(up), k);
    }
  }

  /** `arrayMove(items, from, to)` of `@dnd-kit/sortable`: take the entry at `from` out and
      insert it at `to`. */
  function ArrayMove<T>(s: seq<T>, from: nat, to: nat): (r: seq<T>)
    requires from < |s| && to < |s|
  {
    var rest := s[..from] + s[from + 1..];
    rest[..to] + [s[from]] + rest[to..]
  }

  /** The moved entry lands at `to`, and the result is a permutation of the input. */
  lemma ArrayMovePermutes<T>(s: seq<T>, from: nat, to: nat)
    requires from < |s| && to < |s|
    ensures |ArrayMove(s, from, to)| == |s|
    ensures ArrayMove(s, from, to)[to] == s[from]
    ensures multiset(ArrayMove(s, from, to)) == multiset(s)
  {
    var rest := s[..from] + s[from + 1..];
    assert s == s[..from] + [s[from]] + s[from + 1..];
    assert multiset(s) == multiset(s[..from]) + multiset{s[from]} + multiset(s[from + 1..]);
    assert multiset(rest) == multiset(s[..from]) + multiset(s[from + 1..]);
    assert rest == rest[..to] + rest[to..];
    assert multiset(rest) == multiset(rest[..to]) + multiset(rest[to..]);
    var r := ArrayMove(s, from, to);
    assert r == rest[..to] + [s[from]] + rest[to..];
    assert multiset(r) == multiset(rest[..to]) + multiset{s[from]} + multiset(rest[to..]);
    assert multiset(r) == multiset(rest) + multiset{s[from]};
  }

  /** Moving the first of three entries to the end: `[A, B, C]` becomes `[B, C, A]`. */
  lemma ArrayMoveFirstToLast<T>(a: T, b: T, c: T)
    ensures ArrayMove([a, b, c], 0, 2) == [b, c, a]
  {
  }

  /** No two display rows share a file name. */
  ghost predicate DistinctNames(s: seq<DisplayEntry>) {
    forall i, j :: 0 <= i < j < |s| ==> s[i].fileName != s[j].fileName
  }

  /** An entry occurring twice in `s` occurs at two positions. */
  lemma {:induction false} TwiceAtTwoPositions<T>(s: seq<T>, x: T)
    requires multiset(s)[x] >= 2
    ensures exists a, b :: 0 <= a < b < |s| && s[a] == x && s[b] == x
  {
    assert s == [s[0]] + s[1..];
    if s[0] == x {
      assert x in multiset(s[1..]);
      var b :| 0 <= b < |s[1..]| && s[1..][b] == x;
      assert s[0] == x && s[b + 1] == x;
    } else {
      TwiceAtTwoPositions(s[1..], x);
      var a, b :| 0 <= a < b < |s[1..]| && s[1..][a] == x && s[1..][b] == x;
      assert s[a + 1] == x && s[b + 1] == x;
    }
  }

  /** A permutation of a list with distinct file names has distinct file names. */
  lemma PermutationKeepsDistinctNames(s: seq<DisplayEntry>, t: seq<DisplayEntry>)
    requires multiset(s) == multiset(t) && DistinctNames(s)
    ensures DistinctNames(t)
  {
    forall i, j | 0 <= i < j < |t| ensures t[i].fileName != t[j].fileName {
      if t[i] == t[j] {
        assert t == t[..j] + t[j..];
        assert t[i] in t[..j] && t[j] in t[j..];
        assert multiset(t)[t[i]] == multiset(t[..j])[t[i]] + multiset(t[j..])[t[i]];
        TwiceAtTwoPositions(s, t[i]);
      } else {
        assert t[i] in multiset(s) && t[j] in multiset(s);
        DistinctMembersDiffer(s, t[i], t[j]);
      }
    }
  }

  /** In a list with distinct file names, different entries have different names. */
  lemma DistinctMembersDiffer(s: seq<DisplayEntry>, x: DisplayEntry, y: DisplayEntry)
    requires DistinctNames(s) && x in s && y in s && x != y
    ensures x.fileName != y.fileName
  {
    var a :| 0 <= a < |s| && s[a] == x;
    var b :| 0 <= b < |s| && s[b] == y;
    if a > b {
      assert s[b].fileName != s[a].fileName;
    }
  }
}
