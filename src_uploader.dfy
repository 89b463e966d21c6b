/**
 * The coordinator of the `src` component (src/file-uploader/FileUploader.tsx):
 * the effect that claims every idle item and calls the host's upload
 * callback with the item's own abort controller, the completion dispatched
 * when that call settles, and the drop and file-input handlers, which
 * dispatch one `add` per file.
 */
module SrcUploader {
  import opened Common
  import Seqs
  import SrcReducer
  import UseUploader

  type Item = SrcReducer.Item
  type AbortController = SrcReducer.AbortController

  /** One step of a scan, in the order the effect performs them. */
  datatype Effect =
    | Claim(filename: string)                                        // dispatch({type: 'started', filename})
    | Invoke(filename: string, file: FileRef, signal: AbortController) // onFileUpload(item.file, item.abortController)

  /** Not yet claimed and not yet settled: the scan works on it. */
  predicate Idle(it: Item) { !it.pending && !it.finished }

  /** What the loop body does for one item. */
  function ItemEffects(it: Item): seq<Effect>
  {
    if !Idle(it) then [] else [Claim(it.name), Invoke(it.name, it.file, it.controller)]
  }

  /** Everything one scan over `items` does, in order. */
  function ScanLog(items: seq<Item>): seq<Effect>
  {
    if items == [] then [] else ScanLog(items[..|items| - 1]) + ItemEffects(items[|items| - 1])
  }

  /** The scanning effect: `for (const item of state.items) { ... }`. */
  method Scan(items: seq<Item>) returns (log: seq<Effect>)
    ensures log == ScanLog(items)
  {
    log := [];
    for i := 0 to |items|
      invariant log == ScanLog(items[..i])
    {
      assert items[..i + 1][..i] == items[..i];
      var item := items[i];
      if item.pending || item.finished {
        continue;
      }
      log := log + [Claim(item.name), Invoke(item.name, item.file, item.controller)];
    }
    assert items[..|items|] == items;
  }

  /** The idle items, in order. */
  function IdleItems(items: seq<Item>): seq<Item>
  {
    if items == [] then []
    else IdleItems(items[..|items| - 1]) + (if Idle(items[|items| - 1]) then [items[|items| - 1]] else [])
  }

  /**
   * A scan claims the idle items in order, each claim followed at once by
   * the upload call for that item, carrying the item's own controller.
   */
  lemma {:induction false} ScanPairsIdleItems(items: seq<Item>)
    ensures var idle := IdleItems(items);
            && |ScanLog(items)| == 2 * |idle|
            && forall j :: 0 <= j < |idle| ==>
                 && ScanLog(items)[2 * j] == Claim(idle[j].name)
                 && ScanLog(items)[2 * j + 1] == Invoke(idle[j].name, idle[j].file, idle[j].controller)
  {
    if items != [] {
      var init := items[..|items| - 1];
      ScanPairsIdleItems(init);
      var idle, prev := IdleItems(items), IdleItems(init);
      forall j | 0 <= j < |idle|
        ensures && ScanLog(items)[2 * j] == Claim(idle[j].name)
                && ScanLog(items)[2 * j + 1] == Invoke(idle[j].name, idle[j].file, idle[j].controller)
      {
        if j < |prev| {
          assert idle[j] == prev[j];
          assert ScanLog(items)[2 * j] == ScanLog(init)[2 * j];
          assert ScanLog(items)[2 * j + 1] == ScanLog(init)[2 * j + 1];
        }
      }
    }
  }

  /** Every idle item is among the idle items listed, by name. */
  lemma {:induction false} IdleNamesListed(items: seq<Item>)
    ensures forall i :: 0 <= i < |items| && Idle(items[i]) ==>
              items[i].name in Seqs.Map(IdleItems(items), SrcReducer.NameOf)
  {
    if items != [] {
      var init := items[..|items| - 1];
      IdleNamesListed(init);
      var last := if Idle(items[|items| - 1]) then [items[|items| - 1]] else [];
      Seqs.MapAppend(IdleItems(init), last, SrcReducer.NameOf);
      forall i | 0 <= i < |items| && Idle(items[i])
        ensures items[i].name in Seqs.Map(IdleItems(items), SrcReducer.NameOf)
      {
        if i < |init| {
          assert init[i] == items[i];
        } else {
          assert Seqs.Map(last, SrcReducer.NameOf)[0] == items[i].name;
        }
      }
    }
  }

  /** `dispatch` of a scan's claims, applied in order. */
  function ApplyClaims(s: SrcReducer.State, names: seq<string>): SrcReducer.State
    decreases |names|
  {
    if names == [] then s else ApplyClaims(SrcReducer.Start(s, names[0]), names[1..])
  }

  /** Claims set `pending` on exactly the items they name, and change nothing else. */
  lemma {:induction false} ClaimsMarkPending(s: SrcReducer.State, names: seq<string>)
    ensures var r := ApplyClaims(s, names);
            && r.maxFiles == s.maxFiles && |r.items| == |s.items|
            && forall i :: 0 <= i < |s.items| ==>
                 r.items[i] == s.items[i].(pending := s.items[i].pending || s.items[i].name in names)
    decreases |names|
  {
    if names != [] {
      ClaimsMarkPending(SrcReducer.Start(s, names[0]), names[1..]);
    }
  }

  /** A scan over items none of which is idle does nothing. */
  lemma {:induction false} QuietScan(items: seq<Item>)
    requires forall i :: 0 <= i < |items| ==> !Idle(items[i])
    ensures ScanLog(items) == []
  {
    if items != [] {
      QuietScan(items[..|items| - 1]);
    }
  }

  /**
   * One upload per idle item: once a scan's claims are applied, the next
   * scan calls nothing.
   */
  lemma {:induction false} ScanThenQuiet(s: SrcReducer.State)
    ensures ScanLog(ApplyClaims(s, Seqs.Map(IdleItems(s.items), SrcReducer.NameOf)).items) == []
  {
    var names := Seqs.Map(IdleItems(s.items), SrcReducer.NameOf);
    IdleNamesListed(s.items);
    ClaimsMarkPending(s, names);
    QuietScan(ApplyClaims(s, names).items);
  }

  /**
   * The completion dispatched when `onFileUpload` settles: success with the
   * resolved message, or error with the rejection value stored as is.
   */
  function Settlement(filename: string, outcome: Outcome<string>): (a: SrcReducer.Action)
    ensures a.Finished? && a.filename == filename
    ensures outcome.Resolved? ==> a.status == Success && a.message == Some(outcome.value)
    ensures outcome.Rejected? ==> a.status == Error && a.message == RawMessage(outcome.reason)
  {
    match outcome
    case Resolved(message) => SrcReducer.Finished(filename, Success, Some(message))
    case Rejected(e) => SrcReducer.Finished(filename, Error, RawMessage(e))
  }

  /**
   * A settlement for an item still listed settles it for good; one for a
   * name no longer listed (removed or cleared, its controller aborted)
   * leaves the state as it was.
   */
  lemma {:induction false} SettlementLands(s: SrcReducer.State, filename: string, outcome: Outcome<string>)
    ensures var a := Settlement(filename, outcome);
            var r := SrcReducer.Finish(s, a.filename, a.status, a.message);
            && (filename !in SrcReducer.Names(s.items) ==> r == s)
            && forall i :: 0 <= i < |s.items| && s.items[i].name == filename ==>
                 r.items[i].finished && !r.items[i].pending && r.items[i].status != Loading
                 && ItemEffects(r.items[i]) == []
  {
    var a := Settlement(filename, outcome);
    var r := SrcReducer.Finish(s, a.filename, a.status, a.message);
    if filename !in SrcReducer.Names(s.items) {
      forall i | 0 <= i < |s.items| ensures r.items[i] == s.items[i] {
        assert SrcReducer.Names(s.items)[i] == s.items[i].name;
      }
      assert r.items == s.items;
    }
  }

  function FileNameOf(f: FileRef): string { f.name }

  /**
   * The files a sequence of `add`s admits, in order: each is refused when
   * the list is full or its name is already held, counting the files
   * admitted before it in the same batch.
   */
  function Admitted(held: seq<string>, maxFiles: nat, files: seq<FileRef>): seq<FileRef>
  {
    if files == [] then []
    else
      var prev := Admitted(held, maxFiles, files[..|files| - 1]);
      var f := files[|files| - 1];
      if |held| + |prev| >= maxFiles || f.name in held + Seqs.Map(prev, FileNameOf) then prev
      else prev + [f]
  }

  /** Items that are, position by position, the admitted files as new loading items. */
  predicate NewItems(items: seq<Item>, adm: seq<FileRef>)
  {
    && |items| == |adm|
    && forall j :: 0 <= j < |adm| ==>
         items[j] == SrcReducer.NewItem(adm[j], items[j].controller)
  }

  /** One more file of the batch, as `Admitted` decides it. */
  lemma {:induction false} AdmittedStep(held: seq<string>, maxFiles: nat, files: seq<FileRef>, i: nat)
    requires i < |files|
    ensures var prev := Admitted(held, maxFiles, files[..i]);
            Admitted(held, maxFiles, files[..i + 1])
            == if |held| + |prev| >= maxFiles || files[i].name in held + Seqs.Map(prev, FileNameOf)
               then prev else prev + [files[i]]
  {
    assert files[..i + 1][..i] == files[..i];
  }

  /** New items carry the admitted files' names, in order. */
  lemma {:induction false} NewItemsNames(items: seq<Item>, adm: seq<FileRef>)
    requires NewItems(items, adm)
    ensures SrcReducer.Names(items) == Seqs.Map(adm, FileNameOf)
  {
  }

  /** Appending the item of one more admitted file, whose controller has not fired. */
  lemma {:induction false} Grow(held: seq<Item>, added: seq<Item>, prev: seq<FileRef>, f: FileRef, c: AbortController)
    requires NewItems(added, prev) && SrcReducer.Unaborted(added) && !c.aborted
    ensures var it := SrcReducer.NewItem(f, c);
            && NewItems(added + [it], prev + [f])
            && SrcReducer.Unaborted(added + [it])
            && SrcReducer.Controllers(added + [it]) == SrcReducer.Controllers(added) + {c}
            && held + (added + [it]) == (held + added) + [it]
  {
    var it := SrcReducer.NewItem(f, c);
    SrcReducer.ControllersAppend(added, [it]);
    assert [it][0] == it && SrcReducer.Controllers([it]) == {c};
    SrcReducer.UnabortedAppend(added, [it]);
  }

  /**
   * After the first `i` files of a batch: the items held, then the files
   * admitted so far as new items, the store still valid if it was.
   */
  predicate DropInvariant(s: SrcReducer.State, files: seq<FileRef>, i: nat, r: SrcReducer.State, added: seq<Item>)
  {
    && i <= |files| && r.maxFiles == s.maxFiles && r.items == s.items + added
    && NewItems(added, Admitted(SrcReducer.Names(s.items), s.maxFiles, files[..i]))
    && (SrcReducer.Valid(s) ==> SrcReducer.Valid(r))
  }

  /**
   * One `add` of the batch: the list grows by the file when `Admitted`
   * takes it, as a new item whose controller is new and not aborted.
   */
  method AddNext(s: SrcReducer.State, files: seq<FileRef>, i: nat, before: SrcReducer.State, ghost added: seq<Item>)
    returns (r: SrcReducer.State, ghost grown: seq<Item>)
    requires i < |files| && DropInvariant(s, files, i, before, added) && SrcReducer.Unaborted(added)
    ensures DropInvariant(s, files, i + 1, r, grown)
    ensures SrcReducer.Controllers(added) <= SrcReducer.Controllers(grown)
    ensures fresh(SrcReducer.Controllers(grown) - SrcReducer.Controllers(added))
    ensures SrcReducer.Unaborted(grown)
  {
    ghost var prev := Admitted(SrcReducer.Names(s.items), s.maxFiles, files[..i]);
    AdmittedStep(SrcReducer.Names(s.items), s.maxFiles, files, i);
    NewItemsNames(added, prev);
    Seqs.MapAppend(s.items, added, SrcReducer.NameOf);
    r := SrcReducer.AddFile(before, files[i]);
    if |before.items| < s.maxFiles && files[i].name !in SrcReducer.Names(before.items) {
      var c := r.items[|before.items|].controller;
      Grow(s.items, added, prev, files[i], c);
      grown := added + [SrcReducer.NewItem(files[i], c)];
    } else {
      grown := added;
    }
  }

  /**
   * `onDrop` and `onFileInputChange`: one `add` per file, in order. The
   * items held stay first; after them come the admitted files, each as a
   * new loading item with a new controller.
   */
  method DropFiles(s: SrcReducer.State, files: seq<FileRef>) returns (r: SrcReducer.State)
    ensures r.maxFiles == s.maxFiles && |s.items| <= |r.items| && r.items[..|s.items|] == s.items
    ensures NewItems(r.items[|s.items|..], Admitted(SrcReducer.Names(s.items), s.maxFiles, files))
    ensures fresh(SrcReducer.Controllers(r.items[|s.items|..])) && SrcReducer.Unaborted(r.items[|s.items|..])
    ensures SrcReducer.Valid(s) ==> SrcReducer.Valid(r)
  {
    r := s;
    ghost var added: seq<Item> := [];
    assert s.items + [] == s.items;
    for i := 0 to |files|
      invariant DropInvariant(s, files, i, r, added)
      invariant fresh(SrcReducer.Controllers(added)) && SrcReducer.Unaborted(added)
    {
      r, added := AddNext(s, files, i, r, added);
    }
    assert files[..|files|] == files;
    assert r.items[|s.items|..] == added;
  }

  /** The batch never takes the list past its capacity. */
  lemma {:induction false} AdmittedWithinCapacity(held: seq<string>, maxFiles: nat, files: seq<FileRef>)
    requires |held| <= maxFiles
    ensures |held| + |Admitted(held, maxFiles, files)| <= maxFiles
  {
    if files != [] {
      AdmittedWithinCapacity(held, maxFiles, files[..|files| - 1]);
    }
  }

  /**
   * Every admitted file comes from the batch, and with the names held
   * unique, the names after the batch are unique too, whatever the batch
   * repeats.
   */
  lemma {:induction false} AdmittedNamesUnique(held: seq<string>, maxFiles: nat, files: seq<FileRef>)
    requires Seqs.Distinct(held)
    ensures var adm := Admitted(held, maxFiles, files);
            && (forall j :: 0 <= j < |adm| ==> adm[j] in files)
            && Seqs.Distinct(held + Seqs.Map(adm, FileNameOf))
  {
    if files != [] {
      var init, f := files[..|files| - 1], files[|files| - 1];
      AdmittedNamesUnique(held, maxFiles, init);
      var prev := Admitted(held, maxFiles, init);
      var names := held + Seqs.Map(prev, FileNameOf);
      if !(|held| + |prev| >= maxFiles || f.name in names) {
        Seqs.MapAppend(prev, [f], FileNameOf);
        assert held + Seqs.Map(prev + [f], FileNameOf) == names + [f.name];
        Seqs.DistinctConcat(names, [f.name]);
      }
      forall j | 0 <= j < |Admitted(held, maxFiles, files)| ensures Admitted(held, maxFiles, files)[j] in files {
        if j < |prev| {
          assert prev[j] in init;
        }
      }
    }
  }

  /**
   * Dropping more new files than there is room for admits the ones that
   * fit, where the hook of the other widget refuses the whole batch.
   */
  lemma {:induction false} PartialAdmission(a: FileRef, b: FileRef)
    requires a.name != b.name
    ensures Admitted([], 1, [a, b]) == [a]
    ensures |UseUploader.NewFiles([], [a, b])| > 1
  {
    AdmittedStep([], 1, [a, b], 0);
    AdmittedStep([], 1, [a, b], 1);
    assert [a, b][..0] == [] && [a, b][..2] == [a, b];
    assert [a, b][1..] == [b];
  }

  /** A batch repeating a name admits it once. */
  lemma {:induction false} RepeatedNameAdmittedOnce(a: FileRef)
    ensures Admitted([], 5, [a, a]) == [a]
  {
    AdmittedStep([], 5, [a, a], 0);
    AdmittedStep([], 5, [a, a], 1);
    assert [a, a][..0] == [] && [a, a][..2] == [a, a];
    assert Seqs.Map([a], FileNameOf) == [a.name];
  }
}
