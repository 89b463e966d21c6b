/**
 * The coordinator of the `lib` component (lib/file-uploader/FileUploader.tsx):
 * the effect that scans the items after each change, claims every idle item
 * and calls the host's upload or delete callback for it, and the completion
 * events dispatched when a callback settles.
 *
 * A scan is modelled as the ordered list of what it does: the claims it
 * dispatches and the callbacks it invokes. A callback's settlement is a
 * separate step that turns an `Outcome` into one reducer action.
 */
module LibUploader {
  import opened Common
  import Seqs
  import LibReducer
  import FileView

  type Item = LibReducer.Item

  /** One step of a scan, in the order the effect performs them. */
  datatype Effect =
    | Claim(name: string)                         // dispatch({type: 'started', name})
    | InvokeUpload(name: string, file: FileRef)   // onFileUpload(item.file), settled under item.name
    | InvokeDelete(name: string, file: FileRef)   // onFileDelete(item.file), settled under item.name

  /** Not yet claimed and not yet settled: the scan works on it. */
  predicate Idle(it: Item) { !it.pending && !it.finished }

  /** The two independent `if`s of the loop body for one item. */
  function ItemEffects(it: Item): seq<Effect>
  {
    if !Idle(it) then []
    else
      (if it.action == Upload then [Claim(it.name), InvokeUpload(it.name, it.file)] else [])
      + (if it.action == Delete then [Claim(it.name), InvokeDelete(it.name, it.file)] else [])
  }

  /** Everything one scan over `items` does, in order. */
  function ScanLog(items: seq<Item>): seq<Effect>
    decreases |items|
  {
    if items == [] then [] else ScanLog(items[..|items| - 1]) + ItemEffects(items[|items| - 1])
  }

  /** The scanning effect: `for (const item of state.items) { ... }`. */
  method Scan(items: seq<Item>) returns (log: seq<Effect>)
    ensures log == ScanLog(items)
  {
    log := [];
    for i := 0 to |items|
      invariant log == ScanLog(items[..i])
    {
      assert items[..i + 1][..i] == items[..i];
      var item := items[i];
      if item.pending || item.finished {
        continue;
      }
      if item.action == Upload {
        log := log + [Claim(item.name), InvokeUpload(item.name, item.file)];
      }
      if item.action == Delete {
        log := log + [Claim(item.name), InvokeDelete(item.name, item.file)];
      }
    }
    assert items[..|items|] == items;
  }

  /** The idle items, in order. */
  function IdleItems(items: seq<Item>): seq<Item>
    decreases |items|
  {
    if items == [] then []
    else IdleItems(items[..|items| - 1]) + (if Idle(items[|items| - 1]) then [items[|items| - 1]] else [])
  }

  /** The callback call an idle item gets: the one matching its action. */
  function InvocationFor(it: Item): Effect
  {
    if it.action == Upload then InvokeUpload(it.name, it.file) else InvokeDelete(it.name, it.file)
  }

  /** The callback calls of a log, without the claims. */
  function Invocations(log: seq<Effect>): seq<Effect>
  {
    if log == [] then [] else (if log[0].Claim? then [] else [log[0]]) + Invocations(log[1..])
  }

  /** The names claimed in a log, in order. */
  function Claims(log: seq<Effect>): seq<string>
  {
    if log == [] then [] else (if log[0].Claim? then [log[0].name] else []) + Claims(log[1..])
  }

  lemma {:induction false} InvocationsAppend(a: seq<Effect>, b: seq<Effect>)
    ensures Invocations(a + b) == Invocations(a) + Invocations(b)
  {
    if a == [] {
      assert a + b == b;
    } else {
      assert (a + b)[1..] == a[1..] + b;
      InvocationsAppend(a[1..], b);
    }
  }

  lemma {:induction false} ClaimsAppend(a: seq<Effect>, b: seq<Effect>)
    ensures Claims(a + b) == Claims(a) + Claims(b)
  {
    if a == [] {
      assert a + b == b;
    } else {
      assert (a + b)[1..] == a[1..] + b;
      ClaimsAppend(a[1..], b);
    }
  }

  /** One item's callback call: the one matching its action, if it is idle. */
  lemma {:induction false} ItemInvocations(it: Item)
    ensures Invocations(ItemEffects(it)) == if Idle(it) then [InvocationFor(it)] else []
  {
    if Idle(it) {
      assert ItemEffects(it) == [Claim(it.name), InvocationFor(it)];
      InvocationsAppend([Claim(it.name)], [InvocationFor(it)]);
    }
  }

  /**
   * A scan calls back exactly for the idle items, in their order, with the
   * upload callback for an upload item and the delete callback for a delete
   * item; claimed or settled items are skipped.
   */
  lemma {:induction false} ScanInvokesIdleItems(items: seq<Item>)
    ensures Invocations(ScanLog(items)) == Seqs.Map(IdleItems(items), InvocationFor)
    decreases |items|
  {
    if items != [] {
      var init, last := items[..|items| - 1], items[|items| - 1];
      ScanInvokesIdleItems(init);
      InvocationsAppend(ScanLog(init), ItemEffects(last));
      ItemInvocations(last);
      Seqs.MapAppend(IdleItems(init), if Idle(last) then [last] else [], InvocationFor);
    }
  }

  /**
   * A scan claims the idle items and no other, in order, each claim followed
   * at once by the callback call matching that item's action.
   */
  lemma {:induction false} ScanPairsIdleItems(items: seq<Item>)
    ensures var idle := IdleItems(items);
            && |ScanLog(items)| == 2 * |idle|
            && forall j :: 0 <= j < |idle| ==>
                 && ScanLog(items)[2 * j] == Claim(idle[j].name)
                 && ScanLog(items)[2 * j + 1] == InvocationFor(idle[j])
    decreases |items|
  {
    if items != [] {
      var init, last := items[..|items| - 1], items[|items| - 1];
      ScanPairsIdleItems(init);
      assert ItemEffects(last) == if Idle(last) then [Claim(last.name), InvocationFor(last)] else [];
      var idle, prev := IdleItems(items), IdleItems(init);
      forall j | 0 <= j < |idle|
        ensures && ScanLog(items)[2 * j] == Claim(idle[j].name)
                && ScanLog(items)[2 * j + 1] == InvocationFor(idle[j])
      {
        if j < |prev| {
          assert idle[j] == prev[j];
          assert ScanLog(items)[2 * j] == ScanLog(init)[2 * j];
          assert ScanLog(items)[2 * j + 1] == ScanLog(init)[2 * j + 1];
        }
      }
    }
  }

  /** Each callback call in a scan comes right after the claim of its item. */
  lemma {:induction false} ClaimPrecedesInvoke(items: seq<Item>, k: nat)
    requires k < |ScanLog(items)| && !ScanLog(items)[k].Claim?
    ensures k > 0 && ScanLog(items)[k - 1] == Claim(ScanLog(items)[k].name)
    decreases |items|
  {
    var init := items[..|items| - 1];
    if k < |ScanLog(init)| {
      ClaimPrecedesInvoke(init, k);
    }
  }

  /** `dispatch` of the claims of a scan, applied in order. */
  function ApplyClaims(s: LibReducer.State, names: seq<string>): LibReducer.State
    decreases |names|
  {
    if names == [] then s else ApplyClaims(LibReducer.Reduce(s, LibReducer.Started(names[0])), names[1..])
  }

  /** Claims set `pending` on exactly the items they name, and change nothing else. */
  lemma {:induction false} ClaimsMarkPending(s: LibReducer.State, names: seq<string>)
    ensures var r := ApplyClaims(s, names);
            && r.maxFiles == s.maxFiles && |r.items| == |s.items|
            && forall i :: 0 <= i < |s.items| ==>
                 r.items[i] == s.items[i].(pending := s.items[i].pending || s.items[i].name in names)
    decreases |names|
  {
    if names != [] {
      ClaimsMarkPending(LibReducer.Reduce(s, LibReducer.Started(names[0])), names[1..]);
    }
  }

  /** Every idle item's name is among the claims of a scan. */
  lemma {:induction false} ScanClaimsIdle(items: seq<Item>)
    ensures forall i :: 0 <= i < |items| && Idle(items[i]) ==> items[i].name in Claims(ScanLog(items))
    decreases |items|
  {
    if items != [] {
      var init, last := items[..|items| - 1], items[|items| - 1];
      ScanClaimsIdle(init);
      ClaimsAppend(ScanLog(init), ItemEffects(last));
      ClaimsAppend([Claim(last.name)], [InvocationFor(last)]);
      assert forall i :: 0 <= i < |init| ==> init[i] == items[i];
    }
  }

  /** A scan over items none of which is idle does nothing. */
  lemma {:induction false} QuietScan(items: seq<Item>)
    requires forall i :: 0 <= i < |items| ==> !Idle(items[i])
    ensures ScanLog(items) == []
    decreases |items|
  {
    if items != [] {
      QuietScan(items[..|items| - 1]);
    }
  }

  /**
   * At most one operation per idle occurrence: once the claims of a scan are
   * applied, the next scan launches nothing.
   */
  lemma {:induction false} ScanClaimsEveryIdleItem(s: LibReducer.State)
    ensures ScanLog(ApplyClaims(s, Claims(ScanLog(s.items))).items) == []
  {
    var names := Claims(ScanLog(s.items));
    var r := ApplyClaims(s, names);
    ScanClaimsIdle(s.items);
    ClaimsMarkPending(s, names);
    QuietScan(r.items);
  }

  /**
   * The completion an upload dispatches when `onFileUpload` settles: success
   * with the resolved message, or error with the rejection's text.
   */
  function UploadSettlement(name: string, outcome: Outcome<string>): (a: LibReducer.Action)
    ensures a.FinishedUpload? && a.name == name
    ensures outcome.Resolved? ==> a.status == Success && a.message == Some(outcome.value)
    ensures outcome.Rejected? ==> a.status == Error && a.message == Some(StringOf(outcome.reason))
  {
    match outcome
    case Resolved(message) => LibReducer.FinishedUpload(name, Success, Some(message))
    case Rejected(e) => LibReducer.FinishedUpload(name, Error, Some(StringOf(e)))
  }

  /**
   * The upload completion as the code builds it: the `.catch` handler calls
   * `message.toString()`, which throws on a nullish rejection, so nothing is
   * dispatched at all.
   */
  function UploadSettlementAsWritten(name: string, outcome: Outcome<string>): (a: Option<LibReducer.Action>)
    ensures a.None? <==> outcome.Rejected? && !outcome.reason.Thrown?
    ensures a.Some? ==> a.value == UploadSettlement(name, outcome)
  {
    match outcome
    case Resolved(message) => Some(LibReducer.FinishedUpload(name, Success, Some(message)))
    case Rejected(e) => if e.Thrown? then Some(LibReducer.FinishedUpload(name, Error, Some(e.text))) else None
  }

  /**
   * The completion a delete dispatches when `onFileDelete` settles: success
   * with no message, or error with the rejection value stored as is.
   */
  function DeleteSettlement(name: string, outcome: Outcome<()>): (a: LibReducer.Action)
    ensures a.FinishedDelete? && a.name == name
    ensures outcome.Resolved? ==> a.status == Success && a.message == None
    ensures outcome.Rejected? ==> a.status == Error && a.message == RawMessage(outcome.reason)
  {
    match outcome
    case Resolved(_) => LibReducer.FinishedDelete(name, Success, None)
    case Rejected(e) => LibReducer.FinishedDelete(name, Error, RawMessage(e))
  }

  /**
   * An upload completion settles its item for good: it is no longer pending,
   * it is finished with a non-loading status, and no later scan touches it.
   */
  lemma {:induction false} UploadSettlementIsFinal(s: LibReducer.State, k: nat, outcome: Outcome<string>)
    requires k < |s.items|
    ensures var r := LibReducer.Reduce(s, UploadSettlement(s.items[k].name, outcome));
            && |r.items| == |s.items|
            && r.items[k].finished && !r.items[k].pending && r.items[k].status != Loading
            && r.items[k].action == Upload
            && ItemEffects(r.items[k]) == []
  {
  }

  /**
   * A delete completion either removes the item or leaves it failed as a
   * delete, settled, and skipped by every later scan.
   */
  lemma {:induction false} DeleteSettlementOutcome(s: LibReducer.State, k: nat, outcome: Outcome<()>)
    requires LibReducer.Valid(s) && k < |s.items|
    ensures var r := LibReducer.Reduce(s, DeleteSettlement(s.items[k].name, outcome));
            && (outcome.Resolved? ==> r.items == s.items[..k] + s.items[k + 1..])
            && (outcome.Rejected? ==>
                  && |r.items| == |s.items|
                  && r.items[k].action == Delete && r.items[k].status == Error
                  && r.items[k].finished && !r.items[k].pending
                  && ItemEffects(r.items[k]) == [])
  {
    if outcome.Resolved? {
      LibReducer.DeleteSuccessRemovesOne(s, k, None);
    }
  }

  /**
   * As written, a claimed upload whose callback rejects with `undefined` or
   * `null` is stranded: no completion is dispatched, every later scan skips
   * the item, and its row, still loading, offers neither retry nor delete.
   */
  lemma {:induction false} NullishRejectionStrandsItem(it: Item, reason: Rejection)
    requires it.pending && !it.finished && it.status == Loading && it.action == Upload
    requires !reason.Thrown?
    ensures UploadSettlementAsWritten(it.name, Rejected(reason)).None?
    ensures ItemEffects(it) == []
    ensures !FileView.ShowsRetry(it.status, it.action) && !FileView.ShowsDelete(it.status)
  {
    FileView.ControlGating(it.status, it.action);
  }

  /**
   * In a store whose unsettled items are loading, which every store the
   * reducer builds from the empty one is, a claimed item whose callback has
   * not settled offers neither retry nor delete: no second operation can be
   * requested from its row while the first runs.
   */
  lemma {:induction false} InFlightOffersNoControl(s: LibReducer.State, k: nat)
    requires LibReducer.UnsettledLoading(s) && k < |s.items|
    requires s.items[k].pending && !s.items[k].finished
    ensures !FileView.ShowsRetry(s.items[k].status, s.items[k].action)
    ensures !FileView.ShowsDelete(s.items[k].status)
  {
    FileView.ControlGating(s.items[k].status, s.items[k].action);
  }

  /**
   * With the completion built from `String(e)` instead, the same rejection
   * settles the item as failed, and its row offers retry and delete.
   */
  lemma {:induction false} NullishRejectionSettles(s: LibReducer.State, k: nat, reason: Rejection)
    requires k < |s.items|
    ensures var r := LibReducer.Reduce(s, UploadSettlement(s.items[k].name, Rejected(reason)));
            && r.items[k].status == Error && r.items[k].finished
            && FileView.ShowsRetry(r.items[k].status, r.items[k].action)
            && FileView.ShowsDelete(r.items[k].status)
  {
  }

  /**
   * The action object as the component builds it, by the fields it sets: a
   * `file`, a `name`, or a batch of `files`, for a completion its `status`
   * and `message`, for a resize its `size`.
   */
  datatype Payload = Payload(tag: string, file: Option<FileRef>, name: Option<string>, files: seq<FileRef>,
                             status: Status, message: Option<string>, size: nat)

  /**
   * The reducer's `action.file.name` read on a payload; `None` stands for the
   * `TypeError` thrown when the payload carries no `file`.
   */
  function KeyReadByReducer(p: Payload): (key: Option<string>)
    ensures key.Some? <==> p.file.Some?
  {
    if p.file.Some? then Some(p.file.value.name) else None
  }

  /** `{type: 'started', name}`, as the scan dispatches it. */
  function ClaimPayload(name: string): Payload { Payload("started", None, Some(name), [], Loading, None, 0) }

  /** The name-keyed payloads: completions, the delete and the reload buttons. */
  function NamedPayload(tag: string, name: string, status: Status, message: Option<string>): Payload
  {
    Payload(tag, None, Some(name), [], status, message, 0)
  }

  /** `{type: 'upload', files}`, as the drop and input handlers dispatch it. */
  function DropPayload(files: seq<FileRef>): Payload { Payload("upload", None, None, files, Loading, None, 0) }

  /**
   * The reducer as written, on a payload; `None` is a thrown `TypeError`.
   * `upload` reads `action.file.name` once there is room: in the `some`
   * callback, or, on an empty list, when building the new item. The other
   * keyed cases read it only inside `map`/`filter` callbacks, which never
   * run on an empty list.
   */
  function ReduceAsWritten(s: LibReducer.State, p: Payload): (r: Option<LibReducer.State>)
    ensures p.tag == "upload" ==> (r.None? <==> |s.items| < s.maxFiles && p.file.None?)
    ensures p.tag in {"reload", "started", "finished-upload", "delete", "finished-delete"} ==>
              (r.None? <==> s.items != [] && p.file.None?)
    ensures p.tag !in {"upload", "reload", "started", "finished-upload", "delete", "finished-delete"} ==> r.Some?
    ensures p.file.None? && s.items == [] && r.Some? ==> r.value.items == []
  {
    var key := KeyReadByReducer(p);
    match p.tag
    case "clear" => Some(LibReducer.ClearItems(s))
    case "setMaxSize" => Some(LibReducer.Resize(s, p.size))
    case "upload" =>
      if |s.items| >= s.maxFiles then Some(s)
      else if key.None? then None else Some(LibReducer.AddUpload(s, p.file.value))
    case "reload" =>
      if s.items == [] then Some(s)
      else if key.None? then None else Some(LibReducer.ReloadItem(s, p.file.value))
    case "started" =>
      if s.items == [] then Some(s)
      else if key.None? then None else Some(LibReducer.Start(s, key.value))
    case "delete" =>
      if s.items == [] then Some(s)
      else if key.None? then None else Some(LibReducer.MarkDelete(s, key.value))
    case "finished-upload" =>
      if s.items == [] then Some(s)
      else if key.None? then None else Some(LibReducer.FinishUpload(s, key.value, p.status, p.message))
    case "finished-delete" =>
      if s.items == [] then Some(s)
      else if key.None? then None else Some(LibReducer.FinishDelete(s, key.value, p.status, p.message))
    case _ => Some(s)
  }

  /**
   * None of the payloads the component dispatches carries the `file` the
   * reducer reads: a drop throws whenever there is room, and every other
   * keyed payload throws whenever the list is not empty.
   */
  lemma {:induction false} DispatchedPayloadsUnreadable(s: LibReducer.State, name: string, files: seq<FileRef>,
                                                        status: Status, message: Option<string>)
    ensures ReduceAsWritten(s, DropPayload(files)).None? <==> |s.items| < s.maxFiles
    ensures ReduceAsWritten(s, ClaimPayload(name)).None? <==> s.items != []
    ensures forall tag | tag in {"reload", "delete", "finished-upload", "finished-delete"} ::
              ReduceAsWritten(s, NamedPayload(tag, name, status, message)).None? <==> s.items != []
  {
  }

  /** A sequence of payloads dispatched in order; `None` once one throws. */
  function ApplyAsWritten(s: LibReducer.State, ps: seq<Payload>): Option<LibReducer.State>
    decreases |ps|
  {
    if ps == [] then Some(s)
    else match ReduceAsWritten(s, ps[0])
         case None => None
         case Some(t) => ApplyAsWritten(t, ps[1..])
  }

  /**
   * Starting from the empty list the component mounts with, no sequence of
   * `file`-less payloads, which is every payload it dispatches, ever adds an
   * item: each either throws or leaves the list empty.
   */
  lemma {:induction false} AsWrittenNeverAdds(s: LibReducer.State, ps: seq<Payload>)
    requires s.items == []
    requires forall i :: 0 <= i < |ps| ==> ps[i].file.None?
    ensures ApplyAsWritten(s, ps).None? || ApplyAsWritten(s, ps).value.items == []
    decreases |ps|
  {
    if ps != [] {
      var r := ReduceAsWritten(s, ps[0]);
      if r.Some? {
        AsWrittenNeverAdds(r.value, ps[1..]);
      }
    }
  }

  /**
   * The corrected batch: one name-keyed `upload` per dropped file, in order,
   * as the `src` component dispatches them. Items already held stay first,
   * and the store stays valid.
   */
  function DropBatch(s: LibReducer.State, files: seq<FileRef>): (r: LibReducer.State)
    ensures r.maxFiles == s.maxFiles
    ensures s.items <= r.items && |r.items| <= |s.items| + |files|
  {
    if files == [] then s
    else LibReducer.AddUpload(DropBatch(s, files[..|files| - 1]), files[|files| - 1])
  }

  /** A batch keeps the store valid: within capacity, names unique, names matching files. */
  lemma {:induction false} DropBatchKeepsValid(s: LibReducer.State, files: seq<FileRef>)
    requires LibReducer.Valid(s)
    ensures LibReducer.Valid(DropBatch(s, files))
  {
    if files != [] {
      DropBatchKeepsValid(s, files[..|files| - 1]);
    }
  }

  function FileNameOf(f: FileRef): string { f.name }

  /** The item an admitted file becomes. */
  function UploadItem(f: FileRef): Item { LibReducer.Fresh(f.name, f, Upload) }

  /**
   * A batch never takes the store past its capacity, and a full store
   * refuses the whole batch.
   */
  lemma {:induction false} DropBatchBounded(s: LibReducer.State, files: seq<FileRef>)
    requires LibReducer.Valid(s)
    ensures |DropBatch(s, files).items| <= s.maxFiles
    ensures |s.items| >= s.maxFiles ==> DropBatch(s, files) == s
  {
    if files != [] {
      DropBatchBounded(s, files[..|files| - 1]);
    }
  }

  /** The names of a store after files are admitted: the old names, then the files' names. */
  lemma {:induction false} AdmittedNames(items: seq<Item>, files: seq<FileRef>)
    ensures LibReducer.Names(items + Seqs.Map(files, UploadItem)) ==
            LibReducer.Names(items) + Seqs.Map(files, FileNameOf)
  {
    var added := Seqs.Map(files, UploadItem);
    assert LibReducer.Names(added) == Seqs.Map(files, FileNameOf);
    Seqs.MapAppend(items, added, LibReducer.NameOf);
  }

  /** The inductive step of `DropBatchAdmitsAll`: one more new name, with room left. */
  lemma {:induction false} DropBatchAdmitsNext(s: LibReducer.State, files: seq<FileRef>)
    requires files != [] && |s.items| + |files| <= s.maxFiles
    requires DropBatch(s, files[..|files| - 1]).items == s.items + Seqs.Map(files[..|files| - 1], UploadItem)
    requires files[|files| - 1].name !in LibReducer.Names(s.items)
    requires files[|files| - 1].name !in Seqs.Map(files[..|files| - 1], FileNameOf)
    ensures DropBatch(s, files).items == s.items + Seqs.Map(files, UploadItem)
  {
    var n := |files| - 1;
    var init, f := files[..n], files[n];
    var t, added := DropBatch(s, init), Seqs.Map(init, UploadItem);
    AdmittedNames(s.items, init);
    assert LibReducer.AddUpload(t, f).items == t.items + [UploadItem(f)];
    Seqs.MapLast(files, UploadItem);
  }

  /**
   * With room for the whole batch, and names distinct and new, every file is
   * admitted, in the order dropped.
   */
  lemma {:induction false} DropBatchAdmitsAll(s: LibReducer.State, files: seq<FileRef>)
    requires |s.items| + |files| <= s.maxFiles
    requires Seqs.Distinct(Seqs.Map(files, FileNameOf))
    requires forall i :: 0 <= i < |files| ==> files[i].name !in LibReducer.Names(s.items)
    ensures DropBatch(s, files).items == s.items + Seqs.Map(files, UploadItem)
  {
    if files != [] {
      var init, f := files[..|files| - 1], files[|files| - 1];
      Seqs.MapPrefix(files, FileNameOf, |files| - 1);
      DropBatchAdmitsAll(s, init);
      assert f.name !in LibReducer.Names(s.items);
      assert f.name !in Seqs.Map(init, FileNameOf) by {
        var m := Seqs.Map(files, FileNameOf);
        assert m[|files| - 1] == f.name;
        assert Seqs.Map(init, FileNameOf) == m[..|files| - 1];
      }
      DropBatchAdmitsNext(s, files);
    }
  }
}
