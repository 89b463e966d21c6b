/**
 * The item store of the `lib` upload widget: a pure reducer from a state and
 * an action to the next state (lib/file-uploader/FileUploaderReducer.ts).
 *
 * The component that drives it sends name-keyed actions; the reducer reads
 * `action.file.name`. The model keys every completion by name, as the
 * component sends them; the mismatch itself is shown in the `LibUploader`
 * module.
 */
module LibReducer {
  import opened Common
  import Seqs

  /** `FileUploaderItemState`. */
  datatype Item = Item(
    name: string,
    file: FileRef,
    action: Intent,
    status: Status,
    message: Option<string>,
    pending: bool,   // claimed by the coordinator, operation under way
    finished: bool)  // operation settled

  /** `FileUploaderState`. */
  datatype State = State(maxFiles: nat, items: seq<Item>)

  /** `FileUploaderAction`, plus any other tag, which falls to `default`. */
  datatype Action =
    | Clear
    | SetMaxSize(size: nat)
    | UploadFile(file: FileRef)
    | Reload(file: FileRef)
    | Started(name: string)
    | FinishedUpload(name: string, status: Status, message: Option<string>)
    | DeleteFile(name: string)
    | FinishedDelete(name: string, status: Status, message: Option<string>)
    | Unrecognized(tag: string)

  function NameOf(it: Item): string { it.name }

  function Names(items: seq<Item>): seq<string> { Seqs.Map(items, NameOf) }

  /** A new or reset item: loading, not claimed, not settled, no message. */
  function Fresh(name: string, file: FileRef, intent: Intent): Item
  {
    Item(name, file, intent, Loading, None, false, false)
  }

  /**
   * What every state the reducer builds satisfies: within capacity, names
   * unique, and each item named after its file.
   */
  predicate Valid(s: State)
  {
    && |s.items| <= s.maxFiles
    && Seqs.Distinct(Names(s.items))
    && forall i :: 0 <= i < |s.items| ==> s.items[i].file.name == s.items[i].name
  }

  /** `clear`: no items, same capacity. */
  function ClearItems(s: State): (r: State)
    ensures r.items == [] && r.maxFiles == s.maxFiles
    ensures Valid(r)
  {
    s.(items := [])
  }

  /** `setMaxSize`: the new capacity, and the items cut to its length. */
  function Resize(s: State, size: nat): (r: State)
    ensures r.maxFiles == size
    ensures r.items <= s.items && |r.items| == Seqs.Min(size, |s.items|)
    ensures Valid(s) ==> Valid(r)
  {
    Seqs.PrefixKeepsDistinct(s.items, NameOf, size);
    State(size, Seqs.Prefix(s.items, size))
  }

  /**
   * `upload`: refused at capacity or for a name already present; otherwise
   * one new upload item at the end.
   */
  function AddUpload(s: State, file: FileRef): (r: State)
    ensures r.maxFiles == s.maxFiles
    ensures |s.items| >= s.maxFiles || file.name in Names(s.items) ==> r == s
    ensures |s.items| < s.maxFiles && file.name !in Names(s.items) ==>
      r.items == s.items + [Fresh(file.name, file, Upload)]
    ensures Valid(s) ==> Valid(r)
  {
    if |s.items| >= s.maxFiles then s
    else if file.name in Names(s.items) then s
    else
      var r := s.(items := s.items + [Fresh(file.name, file, Upload)]);
      Seqs.MapAppend(s.items, [Fresh(file.name, file, Upload)], NameOf);
      r
  }

  /**
   * `reload`: every item whose file has this name becomes a fresh upload of
   * the given file; its message is dropped.
   */
  function ReloadItem(s: State, file: FileRef): (r: State)
    ensures r.maxFiles == s.maxFiles && |r.items| == |s.items|
    ensures forall i :: 0 <= i < |s.items| ==>
      r.items[i] == if s.items[i].file.name == file.name then Fresh(file.name, file, Upload) else s.items[i]
    ensures Valid(s) ==> Valid(r) && Names(r.items) == Names(s.items)
  {
    s.(items := Seqs.MapIf(s.items, (it: Item) => it.file.name == file.name,
                           (it: Item) => Fresh(file.name, file, Upload)))
  }

  /** `started`: the named item is claimed; nothing else changes. */
  function Start(s: State, name: string): (r: State)
    ensures r.maxFiles == s.maxFiles && |r.items| == |s.items|
    ensures forall i :: 0 <= i < |s.items| ==>
      r.items[i] == s.items[i].(pending := s.items[i].pending || s.items[i].name == name)
    ensures Names(r.items) == Names(s.items)
    ensures Valid(s) ==> Valid(r)
  {
    s.(items := Seqs.MapIf(s.items, (it: Item) => it.name == name, (it: Item) => it.(pending := true)))
  }

  /** `finished-upload`: the named item records the outcome of an upload. */
  function FinishUpload(s: State, name: string, status: Status, message: Option<string>): (r: State)
    ensures r.maxFiles == s.maxFiles && |r.items| == |s.items|
    ensures forall i :: 0 <= i < |s.items| ==>
      r.items[i] == if s.items[i].name == name
                    then s.items[i].(action := Upload, status := status, message := message,
                                     finished := true, pending := false)
                    else s.items[i]
    ensures Names(r.items) == Names(s.items)
    ensures Valid(s) ==> Valid(r)
  {
    s.(items := Seqs.MapIf(s.items, (it: Item) => it.name == name,
                           (it: Item) => it.(action := Upload, status := status, message := message,
                                             finished := true, pending := false)))
  }

  /**
   * `delete`: the named item is reset to a fresh delete of its own file;
   * its message is dropped.
   */
  function MarkDelete(s: State, name: string): (r: State)
    ensures r.maxFiles == s.maxFiles && |r.items| == |s.items|
    ensures forall i :: 0 <= i < |s.items| ==>
      r.items[i] == if s.items[i].name == name
                    then Fresh(s.items[i].name, s.items[i].file, Delete)
                    else s.items[i]
    ensures Names(r.items) == Names(s.items)
    ensures Valid(s) ==> Valid(r)
  {
    s.(items := Seqs.MapIf(s.items, (it: Item) => it.name == name,
                           (it: Item) => Fresh(it.name, it.file, Delete)))
  }

  /**
   * `finished-delete`: a success drops every item with the name and keeps
   * the rest; any other status is recorded on the item, which stays.
   */
  function FinishDelete(s: State, name: string, status: Status, message: Option<string>): (r: State)
    ensures r.maxFiles == s.maxFiles
    ensures status == Success ==>
      && (forall i :: 0 <= i < |r.items| ==> r.items[i] in s.items && r.items[i].name != name)
      && (forall i :: 0 <= i < |s.items| && s.items[i].name != name ==> s.items[i] in r.items)
    ensures status != Success ==>
      && |r.items| == |s.items|
      && forall i :: 0 <= i < |s.items| ==>
           r.items[i] == if s.items[i].file.name == name
                         then s.items[i].(action := Delete, status := status, message := message,
                                          finished := true, pending := false)
                         else s.items[i]
    ensures Valid(s) ==> Valid(r)
  {
    if status == Success then
      Seqs.WithoutKeepsDistinct(s.items, NameOf, name);
      Seqs.WithoutMembers(s.items, NameOf, name);
      s.(items := Seqs.Without(s.items, NameOf, name))
    else
      s.(items := Seqs.MapIf(s.items, (it: Item) => it.file.name == name,
                             (it: Item) => it.(action := Delete, status := status, message := message,
                                               finished := true, pending := false)))
  }

  /** `fileUploaderReducer`. */
  function Reduce(s: State, a: Action): (r: State)
    ensures Valid(s) ==> Valid(r)
  {
    match a
    case Clear => ClearItems(s)
    case SetMaxSize(size) => Resize(s, size)
    case UploadFile(file) => AddUpload(s, file)
    case Reload(file) => ReloadItem(s, file)
    case Started(name) => Start(s, name)
    case FinishedUpload(name, status, message) => FinishUpload(s, name, status, message)
    case DeleteFile(name) => MarkDelete(s, name)
    case FinishedDelete(name, status, message) => FinishDelete(s, name, status, message)
    case Unrecognized(_) => s
  }

  /** The name a keyed action looks its item up by. */
  function KeyOf(a: Action): Option<string>
  {
    match a
    case Reload(file) => Some(file.name)
    case Started(name) => Some(name)
    case FinishedUpload(name, _, _) => Some(name)
    case DeleteFile(name) => Some(name)
    case FinishedDelete(name, _, _) => Some(name)
    case _ => None
  }

  /**
   * A keyed action for a name no item carries, such as a completion arriving
   * after its item was deleted or cleared, and an action with an unknown tag,
   * leave the state exactly as it was.
   */
  lemma {:induction false} InertActions(s: State, a: Action)
    requires Valid(s)
    requires a.Unrecognized? || (KeyOf(a).Some? && KeyOf(a).value !in Names(s.items))
    ensures Reduce(s, a) == s
  {
    if !a.Unrecognized? {
      var n := KeyOf(a).value;
      forall i | 0 <= i < |s.items| ensures s.items[i].name != n && s.items[i].file.name != n {
        assert Names(s.items)[i] == s.items[i].name;
      }
      if a.FinishedDelete? && a.status == Success {
        Seqs.WithoutAbsent(s.items, NameOf, n);
      }
      assert Reduce(s, a).items == s.items;
    }
  }

  /**
   * Every item not yet settled is loading: the store is born empty, new and
   * reset items are loading, and only a completion, which also marks the
   * item finished, writes another status.
   */
  predicate UnsettledLoading(s: State)
  {
    forall i :: 0 <= i < |s.items| && !s.items[i].finished ==> s.items[i].status == Loading
  }

  /** Every action keeps unsettled items loading. */
  lemma {:induction false} UnsettledLoadingPreserved(s: State, a: Action)
    requires UnsettledLoading(s)
    ensures UnsettledLoading(Reduce(s, a))
  {
    if a.FinishedDelete? && a.status == Success {
      var r := Reduce(s, a);
      Seqs.WithoutMembers(s.items, NameOf, a.name);
      forall i | 0 <= i < |r.items| && !r.items[i].finished ensures r.items[i].status == Loading {
        var j :| 0 <= j < |s.items| && s.items[j] == r.items[i];
      }
    }
  }

  /**
   * A successful delete completion for the item at position `k` removes that
   * item alone and keeps the others in their order.
   */
  lemma {:induction false} DeleteSuccessRemovesOne(s: State, k: nat, message: Option<string>)
    requires Valid(s) && k < |s.items|
    ensures Reduce(s, FinishedDelete(s.items[k].name, Success, message)).items
            == s.items[..k] + s.items[k + 1..]
  {
    Seqs.WithoutAt(s.items, NameOf, k);
  }

  /**
   * A failed upload, a reload, a new claim and a successful upload, in that
   * order, leave the item settled with the last message.
   */
  lemma {:induction false} RetryScenario(f: FileRef)
    ensures var s0 := Reduce(State(1, []), UploadFile(f));
            var s1 := Reduce(Reduce(s0, Started(f.name)), FinishedUpload(f.name, Error, Some("boom")));
            var s2 := Reduce(s1, Reload(f));
            var s3 := Reduce(Reduce(s2, Started(f.name)), FinishedUpload(f.name, Success, Some("ok")));
            && s1.items == [Item(f.name, f, Upload, Error, Some("boom"), false, true)]
            && s2.items == [Fresh(f.name, f, Upload)]
            && s3.items == [Item(f.name, f, Upload, Success, Some("ok"), false, true)]
  {
  }

  /** A delete requested before the upload was claimed ends with the item gone. */
  lemma {:induction false} DeleteBeforeStartScenario(f: FileRef)
    ensures var s0 := Reduce(State(1, []), UploadFile(f));
            var s1 := Reduce(s0, DeleteFile(f.name));
            var s2 := Reduce(Reduce(s1, Started(f.name)), FinishedDelete(f.name, Success, None));
            && s1.items == [Fresh(f.name, f, Delete)]
            && s2.items == []
  {
  }
}
