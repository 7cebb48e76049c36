# Upload list, upload helpers, loading keys, sidebar lookup and icon grouping of a Next.js kit

This project models, in Dafny, the logic of a Next.js + HeroUI starter kit. Every model is proved against a specification.

- **Multi-file upload component** (`upload-multiple-file`). It keeps:
  - `initFiles`: the remote, default entries;
  - `uploadedFiles`: the local `{ order, file }` entries.

  It shows both as one list sorted by order. A dropped batch is validated against five error categories and is accepted or rejected as a whole. The component reconciles membership and order against a target list of rows; removing a row and dragging a row both go through this step.
- **Upload helpers**: `isImageFile`, `convertToBytes`, `getIconFileName` (with Node's posix `path.extname`), and `fileNameFromUrl`.
- **Single-file upload component** (`upload-singer-file`). It accepts one dropped file, rejects more than one, and prefers the uploaded file to the default one in its preview.
- **Loading-screen key list**: the `useLoadingScreen` hook (`start`, `stop`) over the `loading-screen` reducer (`initialState`, `updateState`, `resetState`).
- **`handleActivePath` of the sidebar menu**: a two-level search over the menu items in which the last match wins.
- **Data steps of the icon bundler**:
  - `organizeIconsList`, which groups icon names by prefix without repeats;
  - `removeMetaData`;
  - the rewrite of Tabler stroke widths.

Code that updates state in place is modelled imperatively:

- **Classes:**
  - the React state of the two components (`UploadMultipleFile.UploadList`, `UploadSingleFile.UploadSingle`);
  - the store the hook dispatches to (`UseLoadingScreen.LoadingScreenStore`);
  - a parsed icon set (`IconsBundle.IconSetContent`).
- **Loop methods:** the `forEach`/`map` loops. Each loop method is proved equal to a specification function, and the source's promises are proved as lemmas about that function.
- **Handlers:** each handler reads the state as it was when the handler started, because a React setter does not take effect inside the running handler. It assigns the new state at the end.
- **Callbacks:** the prop callbacks a handler fires are returned as a sequence of `Event`s, in firing order.

Modules, one per source file:

- **Shared modules:**
  - `Wrappers`: `Option`.
  - `Strings`: JavaScript `split`, `pop`, ASCII `toLowerCase`, `includes` and global `replace`.
  - `BrowserFile`: the browser `File`, and an opaque object URL.
- **Upload helpers:** `ImageFile`, `SizeUnits`, `FileIcons` and `UrlFileName`.
- **Multi-file upload:**
  - `UploadEntries`: the rows, their projections, the stable sort and `arrayMove`.
  - `UploadValidation`: the five error categories.
  - `UploadReconcile`: `updateFileOrders`.
  - `UploadMultipleFile`: the component state and handlers.
- **Other components:**
  - `UploadSingleFile`;
  - `LoadingScreenReducer` and `UseLoadingScreen`;
  - `SidebarMenu`;
  - `IconsBundle`.

The multi-file component keeps a `deleteFiles` state (`index.tsx:74`). The effect on `defaultFiles` resets it to `[]` (`index.tsx:81`). `handleRemoveFiles` reads it to build the list it passes to `onRemoveDefaultFiles` (`index.tsx:238`), but nothing ever appends to it. So `onRemoveDefaultFiles` receives the current (always empty) `deleteFiles` plus the removed entry, and `deleteFiles` stays as it was. The model does the same.

Each prop callback is optional. The source calls it as `onX && onX(...)` (`index.tsx:192`, `index.tsx:227-228`, `index.tsx:239`), so a callback fires only when its prop is given. `UploadList` records which of the three callbacks were given, and each handler returns an event only for those.

The duplicate-name check compares the dropped names only with the names already in the list (`index.tsx:124-129`). Two dropped files with the same new name both pass. With such repeated names, reconciling can leave the orders with a gap: after removing the first of `[x, a, a]`, the two `a` rows keep the orders 1 and 2. So the results about dense orders assume distinct names, and `UploadMultipleFile.RepeatedNameLeavesGap` shows what happens without them.

## Model

| member | source | states |
|---|---|---|
| ImageFile.IsImageFile | src/utils/upload-files/isImageFile.ts:1-24 | True exactly when the lower-cased text after the last `.` is one of the seven image extensions, or the text contains `image/` |
| ImageFile.MimePatternImpliesImage | src/utils/upload-files/isImageFile.ts:3-21 | Whenever the MIME regex matches, the `image/` substring test also holds, so the regex branch adds nothing |
| ImageFile.UpperCaseBareExtension | src/utils/upload-files/isImageFile.ts:6-11 | A name without `.` is compared whole after lowercasing: `PNG` is an image |
| ImageFile.QueryStringDefeatsExtension | src/utils/upload-files/isImageFile.ts:6-23 | An extension followed by a query string (`a.jpg?w=1`) is no image unless the text contains `image/` |
| ImageFile.EmptyIsNotImage | src/utils/upload-files/isImageFile.ts:6-23 | The empty string is not an image |
| ImageFile.BeyondAsciiIsNotImage | src/utils/upload-files/isImageFile.ts:6-23 | A name made only of characters above `z`, such as the Thai placeholder name, is not an image |
| SizeUnits.ConvertToBytes | src/utils/upload-files/convertToBytes.ts:3-17 | `Bytes` keeps the size; a non-negative size gives a non-negative result; a positive size in a larger unit gives more bytes |
| SizeUnits.ConvertIsPowerOf1024 | src/utils/upload-files/convertToBytes.ts:4-16 | KB, MB, GB and TB multiply by 1024 to the power 1, 2, 3 and 4 |
| SizeUnits.NextUnitIs1024Times | src/utils/upload-files/convertToBytes.ts:5-12 | Each unit gives exactly 1024 times what the next smaller unit gives for the same size |
| SizeUnits.ConvertIsMonotone | src/utils/upload-files/convertToBytes.ts:3-16 | For every unit the result is monotone in the size |
| FileIcons.Extname | src/utils/upload-files/getIconFileName.ts:4 | `path.extname` gives `""` or a `.` followed by text without `.`; it never contains `/` |
| FileIcons.GetIconFileName | src/utils/upload-files/getIconFileName.ts:3-17 | The result is always one of the four icon names |
| FileIcons.ExtnameOfDottedName | src/utils/upload-files/getIconFileName.ts:4 | Only the text after the last dot of the base name is the extension |
| FileIcons.DotFileHasNoExtension | src/utils/upload-files/getIconFileName.ts:4 | A dotfile such as `.pdf` has an empty extension |
| FileIcons.NoExtensionGivesDefault | src/utils/upload-files/getIconFileName.ts:14-15 | A name without `.` gets the default document icon |
| FileIcons.DottedNameIcon | src/utils/upload-files/getIconFileName.ts:4-16 | For any `stem.ext` with a plain stem and no `.` in `ext`, the icon depends only on the lower-cased `ext` |
| FileIcons.PdfInAnyCase | src/utils/upload-files/getIconFileName.ts:4-7 | Matching is case-insensitive: `name.pdf`, `name.PDF`, `name.Pdf` and every other casing get the PDF icon |
| FileIcons.WordInAnyCase | src/utils/upload-files/getIconFileName.ts:4-10 | `.doc` and `.docx`, in any casing, get the Word icon |
| FileIcons.OldExcelGivesDefault | src/utils/upload-files/getIconFileName.ts:11-15 | `.xls`, in any casing, is not matched and gets the default icon |
| FileIcons.NewExcelGivesExcel | src/utils/upload-files/getIconFileName.ts:4-12 | `.xlsx`, in any casing, gets the Excel icon |
| UrlFileName.FileNameFromUrl | src/utils/upload-files/fileNameFormUrl.ts:1-9 | `null`, `undefined` and `''` give the placeholder; otherwise the result has no `/` or `?` and is no longer than the URL |
| UrlFileName.ResultIsInLastSegment | src/utils/upload-files/fileNameFormUrl.ts:5-8 | The segment is the longest suffix of the URL without `/`: either the whole URL or the text after its last `/`. The result is the longest prefix of that segment without `?`: either the whole segment or the text before its first `?` |
| UrlFileName.NameBetweenSlashAndQuery | src/utils/upload-files/fileNameFormUrl.ts:5-8 | For `dir/name?query`, with no `/` or `?` in `name` and no `/` in `query`, the result is exactly `name` |
| UrlFileName.TrailingSlashGivesEmpty | src/utils/upload-files/fileNameFormUrl.ts:5-8 | A URL ending in `/` gives the empty name |
| UrlFileName.BareNameUnchanged | src/utils/upload-files/fileNameFormUrl.ts:2-8 | A non-empty text without `/` and `?` is returned unchanged |
| UrlFileName.FileNameIdempotent | src/utils/upload-files/fileNameFormUrl.ts:2-8 | Applying the function to its own non-empty result gives the same name |
| UploadEntries.RemoteViewIsImage | src/components/upload-multiple-file/index.tsx:84-93 | A remote row is an image exactly when the file name at the end of its URL (`''` when missing) is |
| UploadEntries.RemoteViewWithoutUrlIsNoImage | src/components/upload-multiple-file/index.tsx:88-90 | A remote entry without a URL is shown as no image |
| UploadEntries.LocalViewIsImage | src/components/upload-multiple-file/index.tsx:95-104 | A local row is an image exactly when its MIME type starts with `image/` |
| UploadEntries.RemoteViews | src/components/upload-multiple-file/index.tsx:84-93 | One row per remote entry, in order, each the remote projection of its entry |
| UploadEntries.LocalViews | src/components/upload-multiple-file/index.tsx:95-104 | One row per local entry, in order, each the local projection of its entry |
| UploadEntries.SortByOrderIsStableSort | src/components/upload-multiple-file/index.tsx:107-109 | The sort gives a sequence sorted by `order ?? 0`, a permutation of its input, keeping the input order among rows with equal keys |
| UploadEntries.DisplayedIsStableMerge | src/components/upload-multiple-file/index.tsx:106-111 | The displayed list is sorted and holds exactly the remote and local rows; among equal orders, remote rows precede local rows, each in their own order |
| UploadEntries.ArrayMovePermutes | src/components/upload-multiple-file/index.tsx:264 | `arrayMove` keeps the length and the multiset of rows and puts the moved row at the target index |
| UploadEntries.ArrayMoveFirstToLast | src/components/upload-multiple-file/index.tsx:264 | Moving the first of three rows to index 2 gives `[B, C, A]` |
| UploadEntries.PermutationKeepsDistinctNames | src/components/upload-multiple-file/index.tsx:262-264 | Reordering rows keeps their names distinct |
| UploadValidation.RemoteNames | src/components/upload-multiple-file/index.tsx:124-127 | The non-empty display names of the remote entries, and no other names |
| UploadValidation.LocalNames | src/components/upload-multiple-file/index.tsx:126-127 | The non-empty file names of the local entries, and no other names |
| UploadValidation.ExistingNamesExactly | src/components/upload-multiple-file/index.tsx:124-127 | A name is existing exactly when it is non-empty and is a remote display name or a local file name |
| UploadValidation.Duplicates | src/components/upload-multiple-file/index.tsx:129-134 | At most one duplicate message per dropped file |
| UploadValidation.DuplicatesExactly | src/components/upload-multiple-file/index.tsx:129-134 | The duplicate messages are exactly the messages for the dropped files whose name is existing |
| UploadValidation.DuplicatesNoneIff | src/components/upload-multiple-file/index.tsx:129-134 | No duplicate message exactly when no dropped name is existing |
| UploadValidation.DuplicatesAppend | src/components/upload-multiple-file/index.tsx:129-133 | The duplicate messages of two batches are those of each, in drop order |
| UploadValidation.CollectErrors | src/components/upload-multiple-file/index.tsx:115-171 | The loops and sums fill the five categories exactly as the specification function `Validate` says |
| UploadValidation.CollectDuplicates | src/components/upload-multiple-file/index.tsx:129-134 | The `forEach` gives the duplicate messages |
| UploadValidation.CollectRejections | src/components/upload-multiple-file/index.tsx:144-155 | The nested `forEach` gives one oversized message per `file-too-large` code and one unsupported message per `file-invalid-type` code, in order |
| UploadValidation.SumLocal | src/components/upload-multiple-file/index.tsx:161 | The `reduce` gives the total size of the local files |
| UploadValidation.SumRemote | src/components/upload-multiple-file/index.tsx:162 | The `reduce` gives the total of the remote sizes, counting a missing or zero size as 0 |
| UploadValidation.SumBatch | src/components/upload-multiple-file/index.tsx:163 | The `reduce` gives the total size of the dropped files |
| UploadValidation.OversizedNamesRejected | src/components/upload-multiple-file/index.tsx:146-150 | Every oversized message names a rejected file that has a `file-too-large` error |
| UploadValidation.CountCodeMeansPresent | src/components/upload-multiple-file/index.tsx:145-153 | A rejection contributes a message for a code exactly when the code is among its errors |
| UploadValidation.LimitChecksNeedOptions | src/components/upload-multiple-file/index.tsx:136-156 | Without `dropzoneOptions` there are no max-files, oversized or unsupported messages |
| UploadValidation.MaxFilesIsStrict | src/components/upload-multiple-file/index.tsx:137-142 | The max-files message appears exactly when `maxFiles` is set, non-zero, and dropped + local + remote exceeds it strictly |
| UploadValidation.TotalCapIsInclusive | src/components/upload-multiple-file/index.tsx:159-171 | With a non-zero cap, the total-size message is absent exactly when local + remote + dropped sizes are at most the cap |
| UploadValidation.TotalCapBoundary | src/components/upload-multiple-file/index.tsx:159-171 | Sizes 600 + 400 under a cap of 1000 pass; 600 + 401 give one message carrying the total 1001 |
| UploadReconcile.KeepRemote | src/components/upload-multiple-file/index.tsx:198 | Keeps exactly the remote entries whose name is the name of some target row |
| UploadReconcile.KeepLocal | src/components/upload-multiple-file/index.tsx:199-201 | Keeps exactly the local entries whose file name is the name of some target row |
| UploadReconcile.KeepRemoteAppend | src/components/upload-multiple-file/index.tsx:198 | Filtering a concatenation of remote entries filters each part, so the kept entries stay in their order |
| UploadReconcile.KeepLocalAppend | src/components/upload-multiple-file/index.tsx:199-201 | Filtering a concatenation of local entries filters each part, so the kept entries stay in their order |
| UploadReconcile.FindRemote | src/components/upload-multiple-file/index.tsx:206 | `findIndex`: the first remote entry with the name, or -1 when there is none |
| UploadReconcile.FindLocal | src/components/upload-multiple-file/index.tsx:215 | `findIndex`: the first local entry with the file name, or -1 when there is none |
| UploadReconcile.RenumberRemote | src/components/upload-multiple-file/index.tsx:203-212 | Renumbering changes only the orders of the remote entries |
| UploadReconcile.RenumberLocal | src/components/upload-multiple-file/index.tsx:213-222 | Renumbering changes only the orders of the local entries |
| UploadReconcile.RenumberRemoteAt | src/components/upload-multiple-file/index.tsx:203-212 | A remote entry gets, as its order, the index of the last remote row with its name, if it is the first entry with that name; otherwise it is unchanged |
| UploadReconcile.RenumberLocalAt | src/components/upload-multiple-file/index.tsx:213-222 | A local entry gets, as its order, the index of the last local row with its name, if it is the first entry with that name; otherwise it is unchanged |
| UploadReconcile.RenumberOrders | src/components/upload-multiple-file/index.tsx:197-224 | The filter and the in-place overwriting loop give exactly `Reconcile` |
| UploadReconcile.ViewsDistinctNames | src/components/upload-multiple-file/index.tsx:84-104 | The rows have distinct names exactly when the remote names, the local names, and the two groups against each other are distinct |
| UploadReconcile.ReconcileGivesDenseOrders | src/components/upload-multiple-file/index.tsx:197-228 | For target rows drawn from the displayed rows with distinct names, the rows after reconciling keep distinct names, each row's order is its index in the target, and the orders are exactly 0 .. n-1 |
| UploadReconcile.ReconciledCoverage | src/components/upload-multiple-file/index.tsx:197-228 | Every target index is the order of some row after reconciling |
| UploadReconcile.WithoutOrder | src/components/upload-multiple-file/index.tsx:232 | Keeps exactly the rows whose order differs from the removed row's |
| UploadReconcile.WithoutOrderAppend | src/components/upload-multiple-file/index.tsx:232 | Filtering a concatenation filters each part, so the kept rows stay in their order |
| UploadReconcile.DisplayedRows | src/components/upload-multiple-file/index.tsx:106-111 | Sorting keeps the rows and their distinct names |
| UploadReconcile.RemoveRenumbers | src/components/upload-multiple-file/index.tsx:231-233 | After a removal the remaining rows have distinct names and dense orders 0 .. n-1, and no row is left with the removed order's names |
| UploadReconcile.DragRenumbers | src/components/upload-multiple-file/index.tsx:258-268 | After a drag the rows keep distinct names and dense orders, and the moved row's order is its target index |
| UploadReconcile.DragFirstToLastExample | src/components/upload-multiple-file/index.tsx:258-268 | Three local files A, B, C with A dragged to index 2 end as B = 0, C = 1, A = 2 |
| UploadMultipleFile.Numbered | src/components/upload-multiple-file/index.tsx:185-188 | Dropped file i gets order base + i, in drop order |
| UploadMultipleFile.NumberBatch | src/components/upload-multiple-file/index.tsx:185-188 | The `forEach` loop builds exactly the numbered batch: file i of the drop, with order count + i |
| UploadMultipleFile.FindByOrder | src/components/upload-multiple-file/index.tsx:236 | `find`: the first remote entry with the order, present exactly when some entry has it |
| UploadMultipleFile.DisplayedLength | src/components/upload-multiple-file/index.tsx:106-111 | The displayed list has one row per remote and per local entry |
| UploadMultipleFile.AcceptedBatchKeepsNamesDistinct | src/components/upload-multiple-file/index.tsx:124-191 | A batch that passes the duplicate check, with distinct non-empty names, keeps the displayed names distinct |
| UploadMultipleFile.AcceptedBatchKeepsOrdersDense | src/components/upload-multiple-file/index.tsx:185-191 | When the displayed orders are dense 0 .. n-1, an accepted batch extends them to 0 .. n + k - 1 |
| UploadMultipleFile.SameNameTwicePasses | src/components/upload-multiple-file/index.tsx:124-129 | Two dropped files with the same new name give no duplicate message: the check does not compare the batch with itself |
| UploadMultipleFile.RepeatedNameLeavesGap | src/components/upload-multiple-file/index.tsx:197-233 | Removing `x` from `x, a, a` keeps both `a` rows with orders 1 and 2, so the orders are not 0 .. n-1 |
| UploadMultipleFile.UploadList.constructor | src/components/upload-multiple-file/index.tsx:71-82 | After mounting, the remote entries are the default files and everything else is empty; it records which of the optional callbacks were given |
| UploadMultipleFile.UploadList.ResetDefaults | src/components/upload-multiple-file/index.tsx:78-82 | A new `defaultFiles` replaces the remote entries and empties the local and deleted lists |
| UploadMultipleFile.UploadList.HandleUploadFiles | src/components/upload-multiple-file/index.tsx:113-195 | A batch with any error only stores all five categories: nothing else changes and no callback fires. Otherwise the batch is appended with orders from the displayed count on, the errors are cleared, and `onSelectFiles`, when given, gets the new list |
| UploadMultipleFile.UploadList.AcceptBatch | src/components/upload-multiple-file/index.tsx:184-194 | The local entries gain the batch numbered from the number of displayed rows, the errors are cleared, and `onSelectFiles`, when given, gets the new list |
| UploadMultipleFile.UploadList.UpdateFileOrders | src/components/upload-multiple-file/index.tsx:197-229 | The entries become `Reconcile` of the target. `onChangeOrderDefaultFiles` gets the new remote entries and `onSelectFiles` the new local entries, each only when given, in that order |
| UploadMultipleFile.UploadList.HandleRemoveFiles | src/components/upload-multiple-file/index.tsx:231-242 | Reconciles against the displayed rows without the removed order. For a remote row with a matching remote entry, `onRemoveDefaultFiles`, when given, also gets `deleteFiles` plus the first such entry, after the callbacks of the reconciliation |
| UploadMultipleFile.UploadList.HandleDragEnd | src/components/upload-multiple-file/index.tsx:258-268 | Equal ids change nothing. Otherwise it reconciles against the displayed rows with the dragged row moved to the index of the row it was dropped on, firing the given callbacks as `UpdateFileOrders` does |
| UploadSingleFile.InitialImage | src/components/upload-singer-file/index.tsx:38-47 | A preview exactly when there is a default file, with its URL and alt, each `''` when missing |
| UploadSingleFile.UploadedImage | src/components/upload-singer-file/index.tsx:49-58 | A preview exactly when a file was uploaded; its alt is the file name, and it is an image exactly when the MIME type starts with `image/` |
| UploadSingleFile.ShownImage | src/components/upload-singer-file/index.tsx:60-62 | The uploaded preview when there is one, otherwise the default preview, otherwise none |
| UploadSingleFile.ShowsDropzoneExactly | src/components/upload-singer-file/index.tsx:79 | The drop zone is shown exactly when nothing was uploaded and the default file is missing or has no URL |
| UploadSingleFile.DefaultWithoutUrlIsNoImage | src/components/upload-singer-file/index.tsx:43 | A default file without a URL is not previewed as an image |
| UploadSingleFile.InitialImageAgreesWithUrl | src/components/upload-singer-file/index.tsx:43 | The default preview's image test agrees with the one the multi-file list makes for the same URL |
| UploadSingleFile.UploadSingle.SetDefaultFile | src/components/upload-singer-file/index.tsx:34-36 | A new default file discards the uploaded file, so the default preview is shown |
| UploadSingleFile.UploadSingle.HandleUploadFile | src/components/upload-singer-file/index.tsx:64-74 | More than one file only sets the error and calls nothing. Otherwise the error is cleared, `files[0]` is stored and passed to `onFileAccepted`; one file becomes the shown preview |
| LoadingScreenReducer.UpdateState | src/store/reducers/loading-screen/index.ts:15-18 | A field present in the payload is overwritten; an absent one leaves the state as it was |
| LoadingScreenReducer.ResetState | src/store/reducers/loading-screen/index.ts:7-19 | Any state resets to the initial state with an empty list |
| LoadingScreenReducer.EmptyUpdateIsIdentity | src/store/reducers/loading-screen/index.ts:15-18 | An empty payload leaves the state unchanged |
| LoadingScreenReducer.UpdateStateIdempotent | src/store/reducers/loading-screen/index.ts:15-18 | Applying the same payload twice equals applying it once |
| LoadingScreenReducer.LaterUpdateWins | src/store/reducers/loading-screen/index.ts:15-18 | Of two list updates the later one wins |
| UseLoadingScreen.Started | src/hooks/useLoadingScreen.ts:12-21 | The key is in the result; the result holds exactly the old keys and the key; a present key leaves the list unchanged, and an absent key is appended once at the end |
| UseLoadingScreen.Stopped | src/hooks/useLoadingScreen.ts:23-25 | The result holds exactly the other keys and is no longer than the list |
| UseLoadingScreen.StoppedCounts | src/hooks/useLoadingScreen.ts:23-25 | Stopping removes every occurrence of the key and keeps every other key as often as before |
| UseLoadingScreen.StopAbsentUnchanged | src/hooks/useLoadingScreen.ts:23-25 | Stopping an absent key leaves the list unchanged |
| UseLoadingScreen.StartKeepsNoDuplicates | src/hooks/useLoadingScreen.ts:12-21 | Starting never introduces a duplicate key |
| UseLoadingScreen.StartIdempotent | src/hooks/useLoadingScreen.ts:12-21 | Starting a key twice equals starting it once |
| UseLoadingScreen.StartThenStopRestores | src/hooks/useLoadingScreen.ts:12-31 | For an absent key, starting then stopping restores the list |
| UseLoadingScreen.LoadingScreenStore.Start | src/hooks/useLoadingScreen.ts:12-21 | The list becomes the started list; an update is dispatched only when the key was absent |
| UseLoadingScreen.LoadingScreenStore.Stop | src/hooks/useLoadingScreen.ts:23-31 | The list becomes the stopped list, and the update is dispatched even for an absent key |
| UseLoadingScreen.LoadingScreenStore.Reset | src/store/reducers/loading-screen/index.ts:19 | The store returns to the initial state |
| SidebarMenu.ChildMatchesExactly | src/layouts/partial/sidebar-menu.tsx:231-235 | A key is assigned by the children exactly when some direct child has that key and links to the path |
| SidebarMenu.Contribution | src/layouts/partial/sidebar-menu.tsx:228-240 | A `Nest` item with sub-items assigns nothing; an item without sub-items assigns its own key, once, exactly when its link matches, whatever its type |
| SidebarMenu.ParentContribution | src/layouts/partial/sidebar-menu.tsx:230-235 | Another item with sub-items assigns exactly the keys of its matching direct children |
| SidebarMenu.HandleActivePath | src/layouts/partial/sidebar-menu.tsx:223-244 | The nested loops return `ActiveKey`: the last assignment over all items, or `undefined` |
| SidebarMenu.LastAssigner | src/layouts/partial/sidebar-menu.tsx:227-241 | Reference definition: the position of an item that assigns, after which no item assigns, or -1 |
| SidebarMenu.ActiveKeyIsLastMatch | src/layouts/partial/sidebar-menu.tsx:225-243 | The result is the last key assigned by the last item that assigns, and `undefined` exactly when there is no such item |
| SidebarMenu.NoAssignmentIffUndefined | src/layouts/partial/sidebar-menu.tsx:225-243 | The result is `undefined` exactly when no item assigns |
| SidebarMenu.LaterMatchWins | src/layouts/partial/sidebar-menu.tsx:225-241 | A later matching item overwrites the result; a non-matching one leaves it |
| SidebarMenu.NestItemSkipped | src/layouts/partial/sidebar-menu.tsx:228-229 | A `Nest` item with sub-items never changes the result |
| SidebarMenu.GrandchildrenIgnored | src/layouts/partial/sidebar-menu.tsx:230-235 | Only direct children are searched: children that differ only in their own sub-items match the same way |
| SidebarMenu.ParentLinkIgnored | src/layouts/partial/sidebar-menu.tsx:230-235 | An item with sub-items is not selected through its own matching link |
| SidebarMenu.SelectedKey | src/layouts/partial/sidebar-menu.tsx:268 | The selected key is the active key when there is one |
| SidebarMenu.NoMatchSelectsUndefined | src/layouts/partial/sidebar-menu.tsx:243-268 | With no match the selected key is the string `undefined` |
| IconsBundle.AddIcon | src/iconify-bundle/bundle-icons-react.js:169-174 | One icon adds its prefix as a key and leaves every other prefix's list as it was |
| IconsBundle.OrganizeIconsList | src/iconify-bundle/bundle-icons-react.js:162-177 | The `forEach` loop builds exactly `Organized` |
| IconsBundle.OrganizedIsFirstOccurrences | src/iconify-bundle/bundle-icons-react.js:162-177 | A prefix is a key exactly when some parsed icon has it, and its list is the first occurrence of each of its names, in the order met |
| IconsBundle.OrganizedHasNoDuplicates | src/iconify-bundle/bundle-icons-react.js:172-174 | No prefix's list holds a name twice |
| IconsBundle.OrganizedMembership | src/iconify-bundle/bundle-icons-react.js:164-176 | A name is listed under a prefix exactly when some icon string parses to that pair, so unparsable strings leave no trace |
| IconsBundle.Dedup | src/iconify-bundle/bundle-icons-react.js:172-174 | The reference deduplication keeps exactly the elements of its input |
| IconsBundle.IconSetContent.RemoveMetaData | src/iconify-bundle/bundle-icons-react.js:153-158 | Deletes exactly `info`, `chars`, `categories`, `themes`, `prefixes` and `suffixes`; every other key keeps its value |
| IconsBundle.IconSetContent.ThinTablerStrokes | src/iconify-bundle/bundle-icons-react.js:77-83 | A set whose prefix is not `tabler`, or that has no `icons`, is unchanged. Otherwise only the icon bodies change, each with every `stroke-width="2"` replaced |
| IconsBundle.ThinIcon | src/iconify-bundle/bundle-icons-react.js:80 | The body is replaced by its rewritten text; every other attribute of the icon is kept |
| IconsBundle.ThinnerKeepsOtherBodies | src/iconify-bundle/bundle-icons-react.js:80 | A body without `stroke-width="2"` is unchanged |
| IconsBundle.ThinnerRewritesAttribute | src/iconify-bundle/bundle-icons-react.js:80 | When a body holds `stroke-width="2"` once, with no earlier occurrence overlapping it, that attribute becomes `stroke-width="1.5"` and the text around it is kept |

## Left out

- JSX rendering and styling are not modelled. That covers:
  - the drop zones, the lightbox, the sortable items and the dnd-kit sensors;
  - the error list markup;
  - the rest of the sidebar, including `renderItem`, `renderNestItem` and the `delete item.href` there.
- `URL.createObjectURL` is a browser call. An object URL is modelled as an opaque value naming its file.
- `formatFileSize` is not part of this model. Error messages are tags carrying the values their text interpolates. The Thai message texts are kept only as constants: the single-file error and the placeholder file name.
- Sizes and `convertToBytes` work on JavaScript floating-point numbers; here they are unbounded integers.
- Lowercasing is ASCII only. Unicode case mapping is not modelled.
- The icon bundler's I/O and foreign tools are not modelled: files, `require.resolve`, `getIcons`, `minifyIconSet`, SVG import and cleanup, and the bundle text. `stringToIcon` is a function parameter.
- IconsBundle.OrganizeIconsList: the result is a map, so the order in which prefixes were first added, which `Object.create(null)` preserves, is not modelled. The order of names under each prefix is modelled.
- IconsBundle.IconSetContent.ThinTablerStrokes:
  - It requires, for a Tabler set with `icons`, that every icon is an object with a string `body`. The source throws a `TypeError` otherwise, and that failure is not modelled.
  - The outer `for...in` over the set's keys, which acts only at the key `prefix`, is modelled as a single test.
  - JSON numbers are integers.
- UploadEntries.ArrayMove requires both indices to be valid. `findIndex` returning -1 and a drop outside any row are not modelled.
- UploadMultipleFile.UploadList.HandleDragEnd: for the same reason, it requires both ids to name displayed rows when they differ. A row without a file name has the id `order?.toString()` (`index.tsx:340`, `index.tsx:348`), which `findIndex` over file names does not find. A drag of such a row gives the index -1, which `arrayMove` then treats as counting from the end. That case is not modelled.
- UploadEntries.DisplayEntry: `isImage` is the predicate `IsImage` on the row, not a stored field. It is determined by the row's source, so no information is lost.
- The loading-screen store is read and dispatched to directly. Redux wiring, `useDispatch` and the global `store` are not modelled.
- The `isOpen` and `startingIndex` lightbox state of both components is not modelled. It plays no part in the logic.
