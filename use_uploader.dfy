/**
 * The stateful variant of the item store (lib/file-uploader/useUploader.ts):
 * a hook that owns the item list, admits a batch of files all at once or not
 * at all, and runs each upload, delete and retry as a start step followed,
 * later, by a settle step.
 *
 * The list updaters passed to `setItems` are pure functions here; the hook
 * itself is the class `Uploader`, whose `inFlight` list holds the callbacks
 * started and not yet settled.
 */
module UseUploader {
  import opened Common
  import Seqs

  /** `FileUploaderItem`. */
  datatype Item = Item(name: string, file: FileRef, action: Intent, status: Status, message: Option<string>)

  /**
   * `Partial<FileUploaderItem>` with the keys the hook passes; `None` is a
   * key left out, which keeps the item's own value.
   */
  datatype Patch = Patch(action: Option<Intent>, status: Option<Status>, message: Option<string>)

  /** A host callback that was called and has not settled yet. */
  datatype Op = UploadOp(file: FileRef) | DeleteOp(file: FileRef)

  function NameOf(it: Item): string { it.name }

  function Names(items: seq<Item>): seq<string> { Seqs.Map(items, NameOf) }

  function FileNameOf(f: FileRef): string { f.name }

  /** `{ ...item, ...props }`. */
  function Merge(it: Item, p: Patch): (r: Item)
    ensures r.name == it.name && r.file == it.file
    ensures r.action == if p.action.Some? then p.action.value else it.action
    ensures r.status == if p.status.Some? then p.status.value else it.status
    ensures r.message == if p.message.Some? then p.message else it.message
  {
    it.(action := if p.action.Some? then p.action.value else it.action,
        status := if p.status.Some? then p.status.value else it.status,
        message := if p.message.Some? then p.message else it.message)
  }

  /** `setItem`'s updater: merge `p` into the items with this name only. */
  function SetItem(items: seq<Item>, name: string, p: Patch): (r: seq<Item>)
    ensures |r| == |items|
    ensures forall i :: 0 <= i < |items| ==>
      r[i] == if items[i].name == name then Merge(items[i], p) else items[i]
    ensures Names(r) == Names(items)
  {
    Seqs.MapIf(items, (it: Item) => it.name == name, (it: Item) => Merge(it, p))
  }

  /** `deleteItem`'s updater: drop the items with this name. */
  function DeleteItem(items: seq<Item>, name: string): (r: seq<Item>)
    ensures |r| <= |items|
    ensures forall i :: 0 <= i < |r| ==> r[i] in items && r[i].name != name
    ensures forall i :: 0 <= i < |items| && items[i].name != name ==> items[i] in r
  {
    Seqs.WithoutMembers(items, NameOf, name);
    Seqs.Without(items, NameOf, name)
  }

  /**
   * With unique names, deleting the name held at position `k` drops that
   * item alone and keeps the others in their order.
   */
  lemma {:induction false} DeleteItemRemovesOne(items: seq<Item>, k: nat)
    requires Seqs.Distinct(Names(items)) && k < |items|
    ensures DeleteItem(items, items[k].name) == items[..k] + items[k + 1..]
  {
    Seqs.WithoutAt(items, NameOf, k);
  }

  /** `files.filter(file => !currentNames.includes(file.name))`. */
  function NewFiles(currentNames: seq<string>, files: seq<FileRef>): (r: seq<FileRef>)
    ensures |r| <= |files|
    ensures forall i :: 0 <= i < |r| ==> r[i].name !in currentNames
  {
    if files == [] then []
    else (if files[0].name in currentNames then [] else [files[0]]) + NewFiles(currentNames, files[1..])
  }

  /** The filter on one file: kept iff its name is not held. */
  lemma {:induction false} NewFilesSingle(currentNames: seq<string>, f: FileRef)
    ensures NewFiles(currentNames, [f]) == if f.name in currentNames then [] else [f]
  {
    assert [f][1..] == [];
  }

  /**
   * The filter works file by file and keeps the batch's order and
   * repetitions: filtering two batches one after the other is filtering
   * their concatenation.
   */
  lemma {:induction false} NewFilesAppend(currentNames: seq<string>, a: seq<FileRef>, b: seq<FileRef>)
    ensures NewFiles(currentNames, a + b) == NewFiles(currentNames, a) + NewFiles(currentNames, b)
    decreases |a|
  {
    if a == [] {
      assert a + b == b;
    } else {
      assert (a + b)[0] == a[0] && (a + b)[1..] == a[1..] + b;
      NewFilesAppend(currentNames, a[1..], b);
    }
  }

  /** The item a newly admitted file becomes. */
  function Queued(f: FileRef): Item { Item(f.name, f, Upload, Loading, None) }

  function StartUpload(f: FileRef): Op { UploadOp(f) }

  /** What `startUploading` merges once `onFileUpload` settles. */
  function UploadResult(outcome: Outcome<string>): (p: Patch)
    ensures p.action.None? && p.status.Some? && p.status.value != Loading && p.message.Some?
    ensures outcome.Resolved? <==> p.status == Some(Success)
    ensures p.message.value == if outcome.Resolved? then outcome.value else StringOf(outcome.reason)
  {
    match outcome
    case Resolved(message) => Patch(None, Some(Success), Some(message))
    case Rejected(e) => Patch(None, Some(Error), Some(StringOf(e)))
  }

  /** What `deleteFile` merges before calling `onFileDelete`. */
  const DeleteStart := Patch(Some(Delete), Some(Loading), None)

  /** What `deleteFile` merges when `onFileDelete` rejects. */
  function DeleteFailure(e: Rejection): (p: Patch)
    ensures p.action.None? && p.status == Some(Error) && p.message == Some(StringOf(e))
  {
    Patch(None, Some(Error), Some(StringOf(e)))
  }

  /** What `retryFile` merges: no message key, so the old message stays. */
  const RetryStart := Patch(Some(Upload), Some(Loading), None)

  /**
   * The admitted files of one batch are appended in order as loading
   * uploads; with names unique in the batch, names stay unique.
   */
  lemma {:induction false} AdmissionKeepsNamesUnique(items: seq<Item>, files: seq<FileRef>)
    requires Seqs.Distinct(Names(items))
    requires Seqs.Distinct(Seqs.Map(files, FileNameOf))
    ensures Seqs.Distinct(Names(items + Seqs.Map(NewFiles(Names(items), files), Queued)))
  {
    var nf := NewFiles(Names(items), files);
    var added := Seqs.Map(nf, Queued);
    NewFilesDistinct(Names(items), files);
    Seqs.MapAppend(items, added, NameOf);
    assert Names(added) == Seqs.Map(nf, FileNameOf);
    Seqs.DistinctConcat(Names(items), Names(added));
  }

  /**
   * The filter keeps exactly the files whose name is not held: each kept
   * file is one of the batch, and each batch file with a new name is kept.
   */
  lemma {:induction false} NewFilesMembers(currentNames: seq<string>, files: seq<FileRef>)
    ensures forall i :: 0 <= i < |NewFiles(currentNames, files)| ==> NewFiles(currentNames, files)[i] in files
    ensures forall i :: 0 <= i < |files| && files[i].name !in currentNames ==> files[i] in NewFiles(currentNames, files)
  {
    if files != [] {
      NewFilesMembers(currentNames, files[1..]);
      var w := NewFiles(currentNames, files[1..]);
      var r := NewFiles(currentNames, files);
      forall i | 0 <= i < |r| ensures r[i] in files {
        if files[0].name in currentNames || i > 0 {
          var j := if files[0].name in currentNames then i else i - 1;
          assert r[i] == w[j];
          assert w[j] in files[1..];
        }
      }
      forall i | 0 <= i < |files| && files[i].name !in currentNames ensures files[i] in r {
        if i > 0 {
          assert files[i] == files[1..][i - 1];
        }
      }
    }
  }

  /** The names of the kept files are names of the batch. */
  lemma {:induction false} NewFilesNamesSubset(currentNames: seq<string>, files: seq<FileRef>)
    ensures forall x | x in Seqs.Map(NewFiles(currentNames, files), FileNameOf) :: x in Seqs.Map(files, FileNameOf)
  {
    if files != [] {
      NewFilesNamesSubset(currentNames, files[1..]);
      Seqs.MapTail(files, FileNameOf);
      Seqs.MapAppend(if files[0].name in currentNames then [] else [files[0]],
                     NewFiles(currentNames, files[1..]), FileNameOf);
      assert Seqs.Map(files, FileNameOf)[0] == files[0].name;
    }
  }

  /** Filtering a batch keeps its names distinct when they were. */
  lemma {:induction false} NewFilesDistinct(currentNames: seq<string>, files: seq<FileRef>)
    requires Seqs.Distinct(Seqs.Map(files, FileNameOf))
    ensures Seqs.Distinct(Seqs.Map(NewFiles(currentNames, files), FileNameOf))
  {
    if files != [] {
      var tail := NewFiles(currentNames, files[1..]);
      Seqs.MapTail(files, FileNameOf);
      NewFilesDistinct(currentNames, files[1..]);
      if files[0].name !in currentNames {
        NewFilesNamesSubset(currentNames, files[1..]);
        Seqs.MapAppend([files[0]], tail, FileNameOf);
        Seqs.DistinctCons(files[0].name, Seqs.Map(tail, FileNameOf));
        assert Seqs.Map([files[0]], FileNameOf) == [files[0].name];
      }
    }
  }

  /**
   * A batch holding the same name twice is admitted twice: the filter only
   * looks at names already present, so the list ends up with a duplicate.
   */
  lemma {:induction false} InBatchDuplicateAdmitted(f: FileRef)
    ensures NewFiles([], [f, f]) == [f, f]
    ensures !Seqs.Distinct(Names(Seqs.Map(NewFiles([], [f, f]), Queued)))
  {
    assert [f, f][1..] == [f] && [f][1..] == [];
    assert NewFiles([], [f]) == [f] + NewFiles([], []);
    assert NewFiles([], [f, f]) == [f, f];
    var added := Seqs.Map([f, f], Queued);
    assert Names(added)[0] == f.name == Names(added)[1];
  }

  /**
   * The failure path of a delete: after the start patch and the failure
   * patch, the item is a failed delete carrying the rejection's text; the
   * success path removes it alone.
   */
  lemma {:induction false} DeleteLifecycle(items: seq<Item>, k: nat, e: Rejection)
    requires Seqs.Distinct(Names(items)) && k < |items|
    ensures var n := items[k].name;
            var started := SetItem(items, n, DeleteStart);
            && started[k].action == Delete && started[k].status == Loading
            && SetItem(started, n, DeleteFailure(e))[k]
               == items[k].(action := Delete, status := Error, message := Some(StringOf(e)))
            && DeleteItem(started, n) == items[..k] + items[k + 1..]
  {
    var n := items[k].name;
    var started := SetItem(items, n, DeleteStart);
    DeleteItemRemovesOne(started, k);
    forall i | 0 <= i < |items| && i != k ensures started[i] == items[i] {
      assert Names(items)[i] == items[i].name && Names(items)[k] == n;
    }
    assert started[..k] == items[..k];
    assert started[k + 1..] == items[k + 1..];
  }

  /**
   * A settlement arriving for a name the list no longer holds (deleted or
   * cut by a smaller capacity meanwhile) changes nothing.
   */
  lemma {:induction false} LateSettlementIsInert(items: seq<Item>, name: string, p: Patch)
    requires name !in Names(items)
    ensures SetItem(items, name, p) == items
    ensures DeleteItem(items, name) == items
  {
    Seqs.WithoutAbsent(items, NameOf, name);
    forall i | 0 <= i < |items| ensures items[i].name != name {
      assert Names(items)[i] == items[i].name;
    }
  }

  /**
   * Every settled upload leaves its item out of the loading state with a
   * message: the resolved value, or the rejection's string form, nullish
   * rejections included.
   */
  lemma {:induction false} UploadSettles(items: seq<Item>, k: nat, outcome: Outcome<string>)
    requires k < |items|
    ensures var it := SetItem(items, items[k].name, UploadResult(outcome))[k];
            && it.status != Loading && it.message.Some?
            && it == items[k].(status := if outcome.Resolved? then Success else Error,
                               message := Some(if outcome.Resolved? then outcome.value
                                               else StringOf(outcome.reason)))
  {
  }

  /**
   * A retry resets the named item to a loading upload and, unlike the
   * reducer's `reload`, keeps whatever message it had.
   */
  lemma {:induction false} RetryKeepsMessage(items: seq<Item>, k: nat)
    requires k < |items|
    ensures SetItem(items, items[k].name, RetryStart)[k]
            == items[k].(action := Upload, status := Loading)
  {
  }

  /**
   * The filter passes two new names whole, and keeps only the new name of a
   * second batch that repeats a held one.
   */
  lemma {:induction false} BatchScenarios(a: FileRef, b: FileRef, c: FileRef)
    requires a.name != b.name && b.name != c.name && a.name != c.name
    ensures |NewFiles([], [a, b])| == 2
    ensures NewFiles([a.name, b.name], [b, c]) == [c]
  {
  }

  /** The hook instance. */
  class Uploader {
    var items: seq<Item>
    var maxFiles: nat
    var inFlight: seq<Op>

    /** The list never holds more items than the capacity. */
    ghost predicate Valid()
      reads this
    {
      |items| <= maxFiles
    }

    /** Mounting: an empty list. */
    constructor (maxFiles: nat)
      ensures Valid()
      ensures this.maxFiles == maxFiles && items == [] && inFlight == []
    {
      this.maxFiles := maxFiles;
      items := [];
      inFlight := [];
    }

    /** The first half of `startUploading`: `onFileUpload(file)` is called. */
    method StartUploading(file: FileRef)
      modifies this
      ensures items == old(items) && maxFiles == old(maxFiles)
      ensures inFlight == old(inFlight) + [UploadOp(file)]
    {
      inFlight := inFlight + [UploadOp(file)];
    }

    /**
     * `uploadFile`: files whose name is already present are dropped; if the
     * rest does not fit, nothing is admitted and nothing started; otherwise
     * the rest is appended in order and one upload started per file.
     */
    method UploadFile(files: seq<FileRef>)
      requires Valid()
      modifies this
      ensures Valid() && maxFiles == old(maxFiles)
      ensures var nf := NewFiles(Names(old(items)), files);
              if |old(items)| + |nf| > maxFiles
              then items == old(items) && inFlight == old(inFlight)
              else items == old(items) + Seqs.Map(nf, Queued)
                   && inFlight == old(inFlight) + Seqs.Map(nf, StartUpload)
    {
      var newFiles := NewFiles(Names(items), files);
      if |items| + |newFiles| > maxFiles {
        items := items[..];
        return;
      }
      items := items + Seqs.Map(newFiles, Queued);
      ghost var queued, started := items, inFlight;
      for i := 0 to |newFiles|
        invariant items == queued && maxFiles == old(maxFiles)
        invariant inFlight == started + Seqs.Map(newFiles[..i], StartUpload)
      {
        Seqs.MapPrefixStep(newFiles, StartUpload, i);
        StartUploading(newFiles[i]);
      }
      assert newFiles[..|newFiles|] == newFiles;
    }

    /**
     * The second half of `startUploading`: the upload at position `k` of the
     * in-flight list settles, and its outcome is merged into the items named
     * after its file.
     */
    method SettleUpload(k: nat, outcome: Outcome<string>)
      requires Valid() && k < |inFlight| && inFlight[k].UploadOp?
      modifies this
      ensures Valid() && maxFiles == old(maxFiles)
      ensures inFlight == old(inFlight[..k] + inFlight[k + 1..])
      ensures items == SetItem(old(items), old(inFlight[k].file.name), UploadResult(outcome))
    {
      var file := inFlight[k].file;
      inFlight := inFlight[..k] + inFlight[k + 1..];
      items := SetItem(items, file.name, UploadResult(outcome));
    }

    /**
     * The first half of `deleteFile`: the item is marked as a loading delete
     * and `onFileDelete(file)` is called.
     */
    method DeleteFile(file: FileRef)
      requires Valid()
      modifies this
      ensures Valid() && maxFiles == old(maxFiles)
      ensures items == SetItem(old(items), file.name, DeleteStart)
      ensures inFlight == old(inFlight) + [DeleteOp(file)]
    {
      items := SetItem(items, file.name, DeleteStart);
      inFlight := inFlight + [DeleteOp(file)];
    }

    /**
     * The second half of `deleteFile`: on success the items named after the
     * file are removed; on failure they are marked failed with the
     * rejection's text.
     */
    method SettleDelete(k: nat, outcome: Outcome<()>)
      requires Valid() && k < |inFlight| && inFlight[k].DeleteOp?
      modifies this
      ensures Valid() && maxFiles == old(maxFiles)
      ensures inFlight == old(inFlight[..k] + inFlight[k + 1..])
      ensures outcome.Resolved? ==> items == DeleteItem(old(items), old(inFlight[k].file.name))
      ensures outcome.Rejected? ==>
                items == SetItem(old(items), old(inFlight[k].file.name), DeleteFailure(outcome.reason))
    {
      var file := inFlight[k].file;
      inFlight := inFlight[..k] + inFlight[k + 1..];
      if outcome.Resolved? {
        items := DeleteItem(items, file.name);
      } else {
        items := SetItem(items, file.name, DeleteFailure(outcome.reason));
      }
    }

    /**
     * `retryFile`: the item is marked as a loading upload, message kept, and
     * a new upload is started.
     */
    method RetryFile(file: FileRef)
      requires Valid()
      modifies this
      ensures Valid() && maxFiles == old(maxFiles)
      ensures items == SetItem(old(items), file.name, RetryStart)
      ensures inFlight == old(inFlight) + [UploadOp(file)]
    {
      items := SetItem(items, file.name, RetryStart);
      StartUploading(file);
    }

    /** The effect on a new `maxFiles`: the list is cut to the new capacity. */
    method SetMaxFiles(n: nat)
      modifies this
      ensures Valid() && maxFiles == n
      ensures items == Seqs.Prefix(old(items), n) && inFlight == old(inFlight)
    {
      maxFiles := n;
      items := Seqs.Prefix(items, n);
    }
  }
}
