# react-files-input: the file-item state engine, in Dafny

This project models the part of the react-files-input upload widget that
keeps track of file items. An item is added, claimed by the coordinator,
uploaded or deleted through a callback the host supplies, and settled as a
success or a failure. It may then be retried, deleted or removed. The
repository holds three variants of this engine, and each is modelled as the
source writes it:

- **`lib` store** (`lib_reducer.dfy`, module `LibReducer`). A pure reducer
  over `{maxFiles, items}`. It keeps names unique and the list within
  capacity. Every completion is keyed by name, so one for an absent name
  changes nothing.
- **`lib` coordinator** (`lib_uploader.dfy`, module `LibUploader`). The effect
  that scans the items after each change. It claims each idle item
  (`started`) and calls `onFileUpload` or `onFileDelete` for it. A settled
  callback turns into one completion action. The module also holds the
  payloads the component actually dispatches, which the reducer cannot read
  (see Findings).
- **`src` store** (`src_reducer.dfy`, module `SrcReducer`). The older reducer,
  in which each item owns an `AbortController`. `clear` and `remove` abort
  controllers in a loop, so they are methods over a small `AbortController`
  class. `add` allocates a controller. The other cases are functions.
- **`src` coordinator** (`src_uploader.dfy`, module `SrcUploader`). Its scan
  passes each item's own controller to `onFileUpload`. Its drop and
  file-input handlers dispatch one `add` per file, so a batch can be partly
  admitted. `handleFileDelete` dispatches `remove` by name, which is
  `SrcReducer.Reduce` on `Remove`.
- **`useUploader` hook** (`use_uploader.dfy`, module `UseUploader`). Its list
  updaters (`setItem`, `deleteItem`, the batch filter) are pure functions.
  The hook itself is the class `Uploader`, whose `inFlight` list holds the
  callbacks started and not yet settled. Each asynchronous operation is a
  start method followed, later, by a settle method.
- **Drop zone** (`drop_zone.dfy`, module `DropZone`). The MIME allow-list,
  the drag cursor, the input's `disabled`/`multiple` and the default
  capacity. Both components write these rules identically, so they are
  defined once.
- **File row** (`file_view.dfy`, module `FileView`). The `lib` row's icon,
  text and retry/delete gating.

`common.dfy` holds the shared vocabulary: files as `{name, type}`, statuses,
intents, and the outcome of a callback. A rejection is reduced to its string
form or one of the two nullish values. `seqs.dfy` holds the sequence
functions (`Map`, `MapIf`, `Without`, `Prefix`, `Distinct`) and their
lemmas.

The variants differ from one another in three places, and each is modelled as
its own code has it:

- **Duplicate names in one batch.** The hook's `uploadFile` filters only
  against names already held, so both copies are admitted
  (`UseUploader.InBatchDuplicateAdmitted`). The `src` per-file `add` admits
  only the first (`SrcUploader.RepeatedNameAdmittedOnce`).
- **Retry and the old message.** The hook's `retryFile` keeps the message
  (`UseUploader.RetryKeepsMessage`). The `lib` reducer's `reload` drops it
  (`LibReducer.ReloadItem`).
- **A nullish upload rejection.** The `lib` coordinator's `.catch` calls
  `toString()` on it and dispatches nothing (Findings, row 2). The hook's
  `String(e)` settles it as an error (`UseUploader.UploadSettles`).

## Model

| member | source | states |
|---|---|---|
| Common.StringOf | lib/file-uploader/useUploader.ts:36-40 | `String(e)` is total: a thrown value gives its text, and `undefined`/`null` give their own names |
| Common.RawMessage | src/file-uploader/FileUploader.tsx:77-83 | a rejection stored as is in `message` is absent exactly when it is nullish, and otherwise is its text |
| DropZone.IsFileAllowed | lib/file-uploader/FileUploader.tsx:141-147 | an empty allow-list admits every type; otherwise a type is admitted iff it is listed (identical at src/file-uploader/FileUploader.tsx:105-111) |
| DropZone.AnyAllowed | lib/file-uploader/FileUploader.tsx:155 | `files.some(isFileAllowed)`: true iff some dragged type is admitted |
| DropZone.DragCursor | lib/file-uploader/FileUploader.tsx:149-162 | default iff nothing is dragged; allowed iff something is dragged, some dragged type is admitted and there is room; disallowed otherwise |
| DropZone.DefaultMaxFiles | lib/file-uploader/FileUploader.tsx:51 | the capacity when the host passes none: 1 |
| DropZone.InputDisabled | lib/file-uploader/FileUploader.tsx:222 | the file input is disabled iff the list holds at least `maxFiles` items (identical at src/file-uploader/FileUploader.tsx:194) |
| DropZone.InputMultiple | lib/file-uploader/FileUploader.tsx:221 | the file input takes several files iff `maxFiles > 1` (identical at src/file-uploader/FileUploader.tsx:193) |
| DropZone.CursorAgreesWithInput | src/file-uploader/FileUploader.tsx:113-129 | with one capacity for both (see Left out), the cursor never shows allowed while the input is disabled; any drag over a full list shows disallowed; with no allow-list any drag with room shows allowed |
| DropZone.DefaultIsSingleFile | lib/file-uploader/FileUploader.tsx:48-59 | with the default capacity of 1 the input takes a single file and is disabled iff one item is held |
| FileView.IconsShown | lib/file-uploader/File.tsx:23-25 | exactly one icon shows, and it is the one of the item's status |
| FileView.StatusText | lib/file-uploader/File.tsx:36 | the message when present, else "Uploading..." for an upload and "Deleting..." for a delete |
| FileView.ShowsRetry | lib/file-uploader/File.tsx:41 | the retry control shows iff the item is a failed upload |
| FileView.ShowsDelete | lib/file-uploader/File.tsx:49 | the delete control shows iff the item is not loading |
| FileView.ControlGating | lib/file-uploader/File.tsx:41-56 | retry iff a failed upload; delete iff not loading; so a loading row offers no control, a failed delete never offers retry, and retry always comes with delete |
| LibReducer.ClearItems | lib/file-uploader/FileUploaderReducer.ts:44-46 | `clear` empties the list and keeps the capacity |
| LibReducer.Resize | lib/file-uploader/FileUploaderReducer.ts:47-53 | `setMaxSize(n)` sets the capacity to n and keeps the first min(n, length) items in order; a valid store stays valid |
| LibReducer.AddUpload | lib/file-uploader/FileUploaderReducer.ts:54-71 | `upload` leaves the state unchanged when full or when the name is held; otherwise it appends exactly one fresh loading upload at the end; validity (capacity, unique names) is preserved |
| LibReducer.ReloadItem | lib/file-uploader/FileUploaderReducer.ts:72-88 | `reload` resets every item whose file has the name to a fresh, unclaimed loading upload with no message; others and the length are unchanged |
| LibReducer.Start | lib/file-uploader/FileUploaderReducer.ts:89-101 | `started` sets `pending` on the named item only; names, length and all other fields are unchanged |
| LibReducer.FinishUpload | lib/file-uploader/FileUploaderReducer.ts:102-118 | `finished-upload` records action upload, the status and message, finished and not pending on the named item only |
| LibReducer.MarkDelete | lib/file-uploader/FileUploaderReducer.ts:119-135 | `delete` resets the named item to a fresh loading delete of its own file with no message; others unchanged |
| LibReducer.FinishDelete | lib/file-uploader/FileUploaderReducer.ts:136-155 | a success keeps exactly the items with other names; any other status records action delete, status, message and finished on the matching item, length unchanged |
| LibReducer.Reduce | lib/file-uploader/FileUploaderReducer.ts:39-159 | every action maps a valid store (within capacity, names unique, each item named after its file) to a valid store |
| LibReducer.InertActions | lib/file-uploader/FileUploaderReducer.ts:89-157 | a keyed action for a name no item holds (a stale completion) and an unknown action return the state unchanged |
| LibReducer.UnsettledLoadingPreserved | lib/file-uploader/FileUploaderReducer.ts:39-159 | every action keeps each unsettled item loading: new and reset items are loading, and only a completion, which marks the item finished, writes another status |
| LibReducer.DeleteSuccessRemovesOne | lib/file-uploader/FileUploaderReducer.ts:139-141 | with unique names a successful delete completion removes that one item and keeps the rest in order |
| LibReducer.RetryScenario | lib/file-uploader/FileUploaderReducer.ts:72-118 | fail with "boom", reload, then succeed with "ok": the item is a failed upload, then a fresh upload with no message, then a settled success carrying "ok" |
| LibReducer.DeleteBeforeStartScenario | lib/file-uploader/FileUploaderReducer.ts:119-141 | a delete issued before the upload is claimed turns the item into a fresh delete, and its success removes it |
| LibUploader.Scan | lib/file-uploader/FileUploader.tsx:78-121 | the effect's loop performs exactly the ordered claims and callback calls of the scan specification |
| LibUploader.ScanInvokesIdleItems | lib/file-uploader/FileUploader.tsx:79-103 | the callbacks called are those of the idle items, in order: `onFileUpload` for an upload item, `onFileDelete` for a delete item; claimed or settled items are skipped |
| LibUploader.ScanPairsIdleItems | lib/file-uploader/FileUploader.tsx:79-103 | the scan claims the idle items and no others, in order, each claim followed at once by the callback call matching that item's action; the log is exactly two steps per idle item |
| LibUploader.ClaimPrecedesInvoke | lib/file-uploader/FileUploader.tsx:81-103 | every callback call comes directly after the `started` of the same item |
| LibUploader.ClaimsMarkPending | lib/file-uploader/FileUploaderReducer.ts:89-101 | applying a sequence of claims sets `pending` on exactly the named items and changes nothing else |
| LibUploader.ScanClaimsIdle | lib/file-uploader/FileUploader.tsx:79-102 | every idle item's name is claimed by the scan |
| LibUploader.QuietScan | lib/file-uploader/FileUploader.tsx:80 | a scan over items that are all claimed or settled does nothing |
| LibUploader.ScanClaimsEveryIdleItem | lib/file-uploader/FileUploader.tsx:78-121 | once a scan's claims are applied the next scan starts nothing, so each idle item gets at most one operation |
| LibUploader.UploadSettlement | lib/file-uploader/FileUploader.tsx:84-99 | intended upload completion: success with the resolved message, or error with the rejection's string form |
| LibUploader.UploadSettlementAsWritten | lib/file-uploader/FileUploader.tsx:92-98 | as written, nothing is dispatched exactly when the rejection is nullish; otherwise the same completion as the intended one |
| LibUploader.DeleteSettlement | lib/file-uploader/FileUploader.tsx:103-118 | delete completion: success with no message, or error with the raw rejection as the message |
| LibUploader.UploadSettlementIsFinal | lib/file-uploader/FileUploader.tsx:84-99 | an upload completion leaves its item settled, unclaimed, not loading, an upload, and skipped by every later scan |
| LibUploader.DeleteSettlementOutcome | lib/file-uploader/FileUploader.tsx:103-118 | a delete success removes that one item in order; a failure leaves a settled failed delete that later scans skip |
| LibUploader.NullishRejectionStrandsItem | lib/file-uploader/FileUploader.tsx:92-98 | as written, an upload rejected with `undefined`/`null` dispatches nothing; its claimed, loading item is skipped by every scan and offers neither retry nor delete |
| LibUploader.InFlightOffersNoControl | lib/file-uploader/File.tsx:41-56 | in such a store a claimed, unsettled item's row offers neither retry nor delete, so no `reload` or `delete` can be issued for it while its callback runs |
| LibUploader.NullishRejectionSettles | lib/file-uploader/FileUploader.tsx:92-98 | with `String(e)`, the same rejection settles the item as a failed upload that offers retry and delete |
| LibUploader.KeyReadByReducer | lib/file-uploader/FileUploaderReducer.ts:56 | the reducer's `action.file.name` yields a key iff the payload carries a `file` |
| LibUploader.ReduceAsWritten | lib/file-uploader/FileUploaderReducer.ts:39-159 | the reducer on the payload objects themselves, throwing where JavaScript evaluates `action.file.name` on a payload with no `file`: `upload` throws iff there is room (:55-62); the `map`/`filter` cases throw iff the list is not empty; other tags return a state; a `file`-less payload on an empty list never adds an item |
| LibUploader.DispatchedPayloadsUnreadable | lib/file-uploader/FileUploader.tsx:169-187 | the drop/input payload throws exactly when there is room; the claim, completion, delete and reload payloads throw exactly when the list is not empty |
| LibUploader.AsWrittenNeverAdds | lib/file-uploader/FileUploader.tsx:169-179 | from the empty list the component mounts with, every sequence of the payloads it dispatches (none carries `file`) either throws or leaves the list empty: no file ever becomes an item |
| LibUploader.DropBatch | lib/file-uploader/FileUploader.tsx:169-179 | corrected drop: the held items stay first, the capacity is unchanged, and at most one item is added per file |
| LibUploader.DropBatchKeepsValid | lib/file-uploader/FileUploaderReducer.ts:54-71 | a corrected drop keeps the store valid |
| LibUploader.DropBatchBounded | lib/file-uploader/FileUploaderReducer.ts:55 | a drop never exceeds the capacity, and a full store refuses the whole drop |
| LibUploader.DropBatchAdmitsAll | lib/file-uploader/FileUploaderReducer.ts:54-71 | with room for all and names distinct and new, every dropped file becomes a fresh upload item, in drop order |
| SrcReducer.AbortController.constructor | src/file-uploader/FileUploaderReducer.ts:65 | a new controller has not fired |
| SrcReducer.AbortController.Abort | src/file-uploader/FileUploaderReducer.ts:39 | after `abort()` the controller has fired |
| SrcReducer.ClearItems | src/file-uploader/FileUploaderReducer.ts:36-43 | `clear` aborts the controllers of exactly the in-flight items (pending and not finished), leaves the others as they were, and empties the list |
| SrcReducer.RemoveItems | src/file-uploader/FileUploaderReducer.ts:70-83 | `remove` keeps, in order, exactly the items with other names and aborts exactly the controllers of the named items, whatever their status; a valid store stays valid and the kept controllers stay unfired |
| SrcReducer.AddFile | src/file-uploader/FileUploaderReducer.ts:51-69 | `add` is refused unchanged when full or on a held name; otherwise it appends one loading, unclaimed item holding a new controller that has not fired |
| SrcReducer.Resize | src/file-uploader/FileUploaderReducer.ts:44-50 | `setMaxSize(n)` sets the capacity and keeps the first min(n, length) items |
| SrcReducer.Start | src/file-uploader/FileUploaderReducer.ts:84-96 | `started` sets `pending` on the named item only |
| SrcReducer.Finish | src/file-uploader/FileUploaderReducer.ts:97-112 | `finished` records status, message, finished and not pending on the named item only |
| SrcReducer.Reduce | src/file-uploader/FileUploaderReducer.ts:31-116 | each case's new state and aborts: `clear` aborts exactly the in-flight controllers and empties the list, `add` refuses or appends one new item with a new unfired controller, `remove` keeps the other items in order and aborts exactly the named items' controllers, the rest as their functions; every action keeps a valid store (capacity, unique names, one controller per item) valid and keeps held controllers unfired; only `clear` and `remove` abort anything, so `setMaxSize` truncates without aborting |
| SrcReducer.KeptSurviveRemoval | src/file-uploader/FileUploaderReducer.ts:70-83 | the items a removal keeps own distinct controllers, none of them one the removal aborted |
| SrcReducer.RemoveDropsOne | src/file-uploader/FileUploaderReducer.ts:70-83 | with unique names, removing the name at position k drops that item alone and aborts exactly its controller |
| SrcReducer.InFlightControllersAt | src/file-uploader/FileUploaderReducer.ts:36-42 | with one controller per item, `clear` aborts an item's controller iff that item is in flight |
| SrcReducer.InFlightControllersHeld | src/file-uploader/FileUploaderReducer.ts:36-42 | `clear` aborts only controllers held by the list |
| SrcReducer.StaleCompletionHitsNewItem | src/file-uploader/FileUploaderReducer.ts:97-112 | completions are keyed by name only: after an in-flight item is removed and a same-named file is re-added and claimed, the old upload's completion settles the new item |
| SrcUploader.Scan | src/file-uploader/FileUploader.tsx:63-86 | the effect's loop performs exactly the ordered claims and upload calls of the scan specification |
| SrcUploader.ScanPairsIdleItems | src/file-uploader/FileUploader.tsx:65-68 | the scan claims the idle items in order, and each claim is followed at once by the upload call for that item with its own controller |
| SrcUploader.ClaimsMarkPending | src/file-uploader/FileUploaderReducer.ts:84-96 | applying a sequence of claims sets `pending` on exactly the named items and changes nothing else |
| SrcUploader.QuietScan | src/file-uploader/FileUploader.tsx:66 | a scan over items that are all claimed or settled does nothing |
| SrcUploader.ScanThenQuiet | src/file-uploader/FileUploader.tsx:63-86 | once a scan's claims are applied the next scan starts nothing: one upload per idle item |
| SrcUploader.Settlement | src/file-uploader/FileUploader.tsx:69-84 | completion: success with the resolved message, or error with the raw rejection as the message |
| SrcUploader.SettlementLands | src/file-uploader/FileUploader.tsx:69-84 | a completion settles the named item for good (not loading, skipped by later scans); for a name no longer held it changes nothing |
| SrcUploader.AddNext | src/file-uploader/FileUploader.tsx:140-142 | one `add` of the batch extends the list exactly as the greedy admission decides for that file |
| SrcUploader.DropFiles | src/file-uploader/FileUploader.tsx:136-153 | one `add` per file in order: the held items stay first, then exactly the files admitted greedily (room left and name unused at their turn), each as a new loading item with a new unfired controller; validity is kept |
| SrcUploader.AdmittedWithinCapacity | src/file-uploader/FileUploader.tsx:136-143 | a batch never takes the list past its capacity |
| SrcUploader.AdmittedNamesUnique | src/file-uploader/FileUploader.tsx:136-143 | admitted files come from the batch, and names stay unique whatever the batch repeats |
| SrcUploader.PartialAdmission | src/file-uploader/FileUploader.tsx:136-143 | two new files with room for one: the first is admitted, where the hook refuses the whole batch |
| SrcUploader.RepeatedNameAdmittedOnce | src/file-uploader/FileUploader.tsx:140-142 | a batch repeating a name admits it once |
| UseUploader.Merge | lib/file-uploader/useUploader.ts:21 | `{ ...item, ...props }`: each key the patch sets wins, each key it leaves out keeps the item's value, and name and file never change |
| UseUploader.UploadResult | lib/file-uploader/useUploader.ts:32-40 | the settled upload's patch leaves the action alone and sets a non-loading status and a message: success with the resolved value, or error with `String(e)` |
| UseUploader.DeleteStart | lib/file-uploader/useUploader.ts:48 | the patch before `onFileDelete`: action delete, status loading, message left alone |
| UseUploader.DeleteFailure | lib/file-uploader/useUploader.ts:53-56 | the patch of a failed delete: status error and `String(e)`, the action (delete) left alone |
| UseUploader.RetryStart | lib/file-uploader/useUploader.ts:88-91 | the retry patch: action upload, status loading, and no message key, so the message is kept |
| UseUploader.SetItem | lib/file-uploader/useUploader.ts:20-22 | `setItem` merges the patch into the items with that name only; length and names are unchanged |
| UseUploader.DeleteItem | lib/file-uploader/useUploader.ts:24-26 | `deleteItem` keeps exactly the items with other names |
| UseUploader.DeleteItemRemovesOne | lib/file-uploader/useUploader.ts:24-26 | with unique names, deleting the name at position k drops that item alone and keeps the rest in order |
| UseUploader.NewFiles | lib/file-uploader/useUploader.ts:64-65 | the batch filter keeps no file whose name is held and never grows the batch |
| UseUploader.NewFilesSingle | lib/file-uploader/useUploader.ts:65 | the filter keeps one file iff its name is not held |
| UseUploader.NewFilesAppend | lib/file-uploader/useUploader.ts:65 | the filter works file by file: filtering a concatenation is concatenating the filtered parts, so order and repetitions of the batch are kept |
| UseUploader.NewFilesMembers | lib/file-uploader/useUploader.ts:64-65 | the filter keeps exactly the batch files whose name is not held |
| UseUploader.NewFilesDistinct | lib/file-uploader/useUploader.ts:65 | filtering a batch with distinct names keeps them distinct |
| UseUploader.AdmissionKeepsNamesUnique | lib/file-uploader/useUploader.ts:62-84 | admitting a batch with distinct names into a list with unique names keeps names unique |
| UseUploader.InBatchDuplicateAdmitted | lib/file-uploader/useUploader.ts:64-65 | a batch holding one name twice is admitted twice, leaving duplicate names |
| UseUploader.DeleteLifecycle | lib/file-uploader/useUploader.ts:46-60 | `deleteFile` marks the item as a loading delete; a failure leaves a failed delete with the rejection's text; a success removes that item alone |
| UseUploader.LateSettlementIsInert | lib/file-uploader/useUploader.ts:20-26 | a merge or delete for a name no longer held changes nothing |
| UseUploader.UploadSettles | lib/file-uploader/useUploader.ts:28-44 | every settled upload leaves its item out of loading with a message: the resolved value, or `String(e)`, nullish rejections included |
| UseUploader.RetryKeepsMessage | lib/file-uploader/useUploader.ts:86-95 | retry sets action upload and status loading and keeps the old message |
| UseUploader.BatchScenarios | lib/file-uploader/useUploader.ts:62-84 | two new names pass the filter; a second batch repeating a held name keeps only the new one |
| UseUploader.Uploader.constructor | lib/file-uploader/useUploader.ts:101-103 | the hook starts with an empty list and nothing in flight |
| UseUploader.Uploader.StartUploading | lib/file-uploader/useUploader.ts:28-31 | starting an upload calls `onFileUpload` once and leaves the list alone |
| UseUploader.Uploader.UploadFile | lib/file-uploader/useUploader.ts:62-84 | if the filtered batch does not fit, the list is unchanged and nothing starts; otherwise the filtered files are appended in order as loading uploads and one upload starts per file, in order |
| UseUploader.Uploader.SettleUpload | lib/file-uploader/useUploader.ts:31-41 | a settled upload leaves the in-flight list and merges its result into the items named after its file |
| UseUploader.Uploader.DeleteFile | lib/file-uploader/useUploader.ts:46-50 | `deleteFile` first marks the item as a loading delete, then calls `onFileDelete` |
| UseUploader.Uploader.SettleDelete | lib/file-uploader/useUploader.ts:49-57 | a delete success removes the items named after the file; a failure merges status error and the rejection's text, the action staying delete |
| UseUploader.Uploader.RetryFile | lib/file-uploader/useUploader.ts:86-95 | `retryFile` merges a loading upload, keeping the message, and starts a new upload |
| UseUploader.Uploader.SetMaxFiles | lib/file-uploader/useUploader.ts:97-99 | a new capacity cuts the list to its first `maxFiles` items, so the list stays within capacity |

## Left out

- React plumbing: `useReducer`, `useEffect` scheduling, `useMemo`, `useCallback`, `useId`, `useRef` and rerender timing. Each effect is an explicit method call or a function application.
- The effects that only dispatch: `setMaxSize` on a new `maxFiles` (lib/file-uploader/FileUploader.tsx:74-76, src/file-uploader/FileUploader.tsx:55-57) and `clear` on unmount (lib :123-128, src :88-93). They are the reducer cases they dispatch.
- Concurrency and timing. A callback is a start step plus a separate settle step with an opaque outcome. Interleavings are not enumerated; the lemmas are about any single order of steps.
- Native form sync through `DataTransfer` (lib/file-uploader/FileUploader.tsx:130-139, src/file-uploader/FileUploader.tsx:95-103): DOM I/O.
- `onDragLeave`, which only resets the cursor to default.
- DropZone.CursorAgreesWithInput: the cursor reads the store's `maxFiles` (lib/file-uploader/FileUploader.tsx:155, src/file-uploader/FileUploader.tsx:121) while `disabled` reads the `maxFiles` prop (lib :222, src :194). The two differ between a prop change and the `setMaxSize` effect (lib :74-76); the lemma assumes they agree.
- JSX, CSS classes, icons, the `accept` attribute, and `src/file-uploader/File.tsx`, which is presentation with no gating logic.
- The demo pages under `src/` and the build configuration.
- File contents and sizes: a file is its name and MIME type.
- Rejection values: a rejection is either a value with a string form or `undefined`/`null`. How an `Error` object renders when stored raw in `message` is not modelled.
- Negative `setMaxSize` sizes: sizes are natural numbers, since `slice` with a negative end means something else.
- `AbortController` internals: a controller is an object with one flag that `abort()` sets. Nothing about its signal listeners is modelled. A class is used rather than a set of aborted names, because a removed name can be re-added, and only a new object can say that the new item's controller has not fired.
- The hook's `setItems` updaters are applied at once. React's queueing of updater functions is not modelled.
- UseUploader.Patch: only the keys the hook passes (`action`, `status`, `message`).
- LibReducer.FinishDelete: on success the contract states membership both ways, not order. Order is proved for a store with unique names by `LibReducer.DeleteSuccessRemovesOne`.
- UseUploader.DeleteItem: the contract states membership both ways, not order. Order is proved for unique names by `UseUploader.DeleteItemRemovesOne`.
- UseUploader.Uploader.Valid: only capacity. The hook does not keep names unique (see `UseUploader.InBatchDuplicateAdmitted`).

## Findings

| source | as written | input that shows it | evidently intended | confidence | as-written member | corrected member |
|---|---|---|---|---|---|---|
| lib/file-uploader/FileUploader.tsx:173 | the drop and input handlers dispatch `{type: 'upload', files}`, which has no `file`; with room in the list the reducer's `upload` case reads `action.file.name` (lib/file-uploader/FileUploaderReducer.ts:56 inside `some`, which on the empty list runs no callback, then :62), which throws. The other keyed payloads (`started`, completions, `delete`, `reload`) carry `name` instead of `file` and would throw on any non-empty list, but the list never becomes non-empty | default `maxFiles` 1, empty list, drop one file `f`: the `upload` case passes :55 and :56 and evaluates `undefined.name` at :62, so no item is ever added | each dropped file is offered to the store by name, one `upload` per file, and the completions find their item by name | high, not executed | LibUploader.AsWrittenNeverAdds | LibUploader.DropBatchAdmitsAll |
| lib/file-uploader/FileUploader.tsx:97 | the upload `.catch` handler calls `message.toString()` on the rejection value | `onFileUpload` returns `Promise.reject()` (reason `undefined`): the handler throws, no `finished-upload` is dispatched, and the claimed item stays loading with no retry or delete control | the item settles as a failed upload with the rejection's string form, as `String(e)` gives | high, not executed | LibUploader.NullishRejectionStrandsItem | LibUploader.NullishRejectionSettles |
