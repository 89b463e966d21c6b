/**
 * The item store of the `src` upload widget
 * (src/file-uploader/FileUploaderReducer.ts). Every item owns an abort
 * controller, allocated when the item is added; `clear` and `remove` abort
 * controllers as a side effect while building the next state, so those two
 * cases, and `add`, are methods here and the rest are functions.
 */
module SrcReducer {
  import opened Common
  import Seqs

  /** The part of `AbortController` the store uses: it can be aborted once and stays so. */
  class AbortController {
    var aborted: bool

    constructor ()
      ensures !aborted
    {
      aborted := false;
    }

    method Abort()
      modifies this
      ensures aborted
    {
      aborted := true;
    }
  }

  /** `FileUploaderItemState`. */
  datatype Item = Item(
    name: string,
    file: FileRef,
    status: Status,
    message: Option<string>,
    pending: bool,   // claimed by the coordinator, upload under way
    finished: bool,  // upload settled
    controller: AbortController)

  /** `FileUploaderState`. */
  datatype State = State(maxFiles: nat, items: seq<Item>)

  /** `FileUploaderAction`, plus any other tag, which falls to `default`. */
  datatype Action =
    | Clear
    | SetMaxSize(size: nat)
    | Add(file: FileRef)
    | Remove(filename: string)
    | Started(filename: string)
    | Finished(filename: string, status: Status, message: Option<string>)
    | Unrecognized(tag: string)

  function NameOf(it: Item): string { it.name }

  function Names(items: seq<Item>): seq<string> { Seqs.Map(items, NameOf) }

  /** The controllers the items hold. */
  function Controllers(items: seq<Item>): set<AbortController>
  {
    set i | 0 <= i < |items| :: items[i].controller
  }

  /** Claimed and not yet settled: the upload may still be running. */
  predicate InFlight(it: Item) { it.pending && !it.finished }

  /** The controllers `clear` aborts: those of the items in flight. */
  function InFlightControllers(items: seq<Item>): set<AbortController>
  {
    if items == [] then {}
    else InFlightControllers(items[..|items| - 1])
         + (if InFlight(items[|items| - 1]) then {items[|items| - 1].controller} else {})
  }

  /** The controllers `remove` aborts: those of the items with this name. */
  function NamedControllers(items: seq<Item>, name: string): set<AbortController>
  {
    if items == [] then {}
    else NamedControllers(items[..|items| - 1], name)
         + (if items[|items| - 1].name == name then {items[|items| - 1].controller} else {})
  }

  lemma {:induction false} ControllersAppend(a: seq<Item>, b: seq<Item>)
    ensures Controllers(a + b) == Controllers(a) + Controllers(b)
  {
    forall c | c in Controllers(a + b) ensures c in Controllers(a) + Controllers(b) {
      var i :| 0 <= i < |a + b| && (a + b)[i].controller == c;
      if i < |a| { assert (a + b)[i] == a[i]; } else { assert (a + b)[i] == b[i - |a|]; }
    }
    forall c | c in Controllers(a) + Controllers(b) ensures c in Controllers(a + b) {
      if c in Controllers(a) {
        var i :| 0 <= i < |a| && a[i].controller == c;
        assert (a + b)[i] == a[i];
      } else {
        var i :| 0 <= i < |b| && b[i].controller == c;
        assert (a + b)[|a| + i] == b[i];
      }
    }
  }

  lemma {:induction false} UnabortedAppend(a: seq<Item>, b: seq<Item>)
    requires Unaborted(a) && Unaborted(b)
    ensures Unaborted(a + b)
  {
    forall i | 0 <= i < |a + b| ensures !(a + b)[i].controller.aborted {
      if i < |a| { assert (a + b)[i] == a[i]; } else { assert (a + b)[i] == b[i - |a|]; }
    }
  }

  function ControllerOf(it: Item): AbortController { it.controller }

  /** No two items share a controller. */
  predicate OwnControllers(items: seq<Item>)
  {
    Seqs.Distinct(Seqs.Map(items, ControllerOf))
  }

  /**
   * What every state the store builds satisfies: within capacity, names
   * unique, and one controller per item.
   */
  predicate Valid(s: State)
  {
    && |s.items| <= s.maxFiles
    && Seqs.Distinct(Names(s.items))
    && OwnControllers(s.items)
  }

  /** No listed item's signal has fired. */
  predicate Unaborted(items: seq<Item>)
    reads Controllers(items)
  {
    forall i :: 0 <= i < |items| ==> !items[i].controller.aborted
  }

  /**
   * `clear`: every in-flight item's controller is aborted, the others are
   * left alone, and the list is emptied.
   */
  method ClearItems(s: State) returns (r: State)
    modifies Controllers(s.items)
    ensures r == s.(items := [])
    ensures forall c | c in Controllers(s.items) ::
              c.aborted <==> old(c.aborted) || c in InFlightControllers(s.items)
  {
    for i := 0 to |s.items|
      invariant forall c | c in Controllers(s.items) ::
                  c.aborted <==> old(c.aborted) || c in InFlightControllers(s.items[..i])
    {
      assert s.items[..i + 1][..i] == s.items[..i];
      var item := s.items[i];
      if item.pending && !item.finished {
        item.controller.Abort();
      }
    }
    assert s.items[..|s.items|] == s.items;
    return s.(items := []);
  }

  /** One more item scanned by `remove`: what it keeps and what it aborts. */
  lemma {:induction false} RemoveStep(items: seq<Item>, i: nat, filename: string)
    requires i < |items|
    ensures Seqs.Without(items[..i + 1], NameOf, filename) ==
            Seqs.Without(items[..i], NameOf, filename) + (if items[i].name == filename then [] else [items[i]])
    ensures NamedControllers(items[..i + 1], filename) ==
            NamedControllers(items[..i], filename) + (if items[i].name == filename then {items[i].controller} else {})
  {
    assert items[..i + 1] == items[..i] + [items[i]];
    assert items[..i + 1][..i] == items[..i];
    Seqs.WithoutAppend(items[..i], [items[i]], NameOf, filename);
  }

  /**
   * `remove`: every item with the name has its controller aborted and is
   * dropped; the others stay, in order.
   */
  method RemoveItems(s: State, filename: string) returns (r: State)
    modifies Controllers(s.items)
    ensures r == s.(items := Seqs.Without(s.items, NameOf, filename))
    ensures forall c | c in Controllers(s.items) ::
              c.aborted <==> old(c.aborted) || c in NamedControllers(s.items, filename)
    ensures Valid(s) ==> Valid(r)
    ensures Valid(s) && old(Unaborted(s.items)) ==> Unaborted(r.items)
  {
    var items: seq<Item> := [];
    for i := 0 to |s.items|
      invariant items == Seqs.Without(s.items[..i], NameOf, filename)
      invariant forall c | c in Controllers(s.items) ::
                  c.aborted <==> old(c.aborted) || c in NamedControllers(s.items[..i], filename)
    {
      RemoveStep(s.items, i, filename);
      var item := s.items[i];
      if item.name == filename {
        item.controller.Abort();
      } else {
        items := items + [item];
      }
    }
    assert s.items[..|s.items|] == s.items;
    r := s.(items := items);
    if Valid(s) {
      KeptSurviveRemoval(s.items, filename);
      Seqs.WithoutKeepsDistinct(s.items, NameOf, filename);
    }
  }

  /** The item `add` appends for a file: loading, unclaimed, with its own controller. */
  function NewItem(file: FileRef, c: AbortController): Item
  {
    Item(file.name, file, Loading, None, false, false, c)
  }

  /**
   * `add`: refused at capacity or for a name already present; otherwise one
   * new loading item at the end, holding a new controller not yet aborted.
   */
  method AddFile(s: State, file: FileRef) returns (r: State)
    ensures r.maxFiles == s.maxFiles
    ensures |s.items| >= s.maxFiles || file.name in Names(s.items) ==> r == s
    ensures |s.items| < s.maxFiles && file.name !in Names(s.items) ==>
              && |r.items| == |s.items| + 1
              && var c := r.items[|s.items|].controller;
                 && r.items == s.items + [NewItem(file, c)]
                 && fresh(c) && !c.aborted
    ensures Valid(s) ==> Valid(r)
  {
    if |s.items| >= s.maxFiles {
      return s;
    }
    if file.name in Names(s.items) {
      return s;
    }
    var c := new AbortController();
    r := s.(items := s.items + [NewItem(file, c)]);
    Seqs.MapAppend(s.items, [NewItem(file, c)], NameOf);
  }

  /** `setMaxSize`: the new capacity, and the items cut to its length. */
  function Resize(s: State, size: nat): (r: State)
    ensures r.maxFiles == size
    ensures r.items <= s.items && |r.items| == Seqs.Min(size, |s.items|)
    ensures Valid(s) ==> Valid(r)
  {
    Seqs.PrefixKeepsDistinct(s.items, NameOf, size);
    State(size, Seqs.Prefix(s.items, size))
  }

  /** `started`: the named item is claimed; nothing else changes. */
  function Start(s: State, filename: string): (r: State)
    ensures r.maxFiles == s.maxFiles && |r.items| == |s.items|
    ensures forall i :: 0 <= i < |s.items| ==>
      r.items[i] == s.items[i].(pending := s.items[i].pending || s.items[i].name == filename)
    ensures Valid(s) ==> Valid(r)
  {
    s.(items := Seqs.MapIf(s.items, (it: Item) => it.name == filename, (it: Item) => it.(pending := true)))
  }

  /** `finished`: the named item records the outcome and is settled. */
  function Finish(s: State, filename: string, status: Status, message: Option<string>): (r: State)
    ensures r.maxFiles == s.maxFiles && |r.items| == |s.items|
    ensures forall i :: 0 <= i < |s.items| ==>
      r.items[i] == if s.items[i].name == filename
                    then s.items[i].(status := status, message := message, finished := true, pending := false)
                    else s.items[i]
    ensures Valid(s) ==> Valid(r)
  {
    s.(items := Seqs.MapIf(s.items, (it: Item) => it.name == filename,
                           (it: Item) => it.(status := status, message := message,
                                             finished := true, pending := false)))
  }

  /** `fileUploaderReducer`: the case's next state, with its aborts. */
  method Reduce(s: State, a: Action) returns (r: State)
    modifies Controllers(s.items)
    ensures Valid(s) ==> Valid(r)
    ensures Valid(s) && old(Unaborted(s.items)) ==> Unaborted(r.items)
    ensures !a.Clear? && !a.Remove? ==> forall c | c in Controllers(s.items) :: c.aborted == old(c.aborted)
    ensures a.Clear? ==> r == s.(items := [])
    ensures a.Clear? ==> forall c | c in Controllers(s.items) ::
              c.aborted <==> old(c.aborted) || c in InFlightControllers(s.items)
    ensures a.SetMaxSize? ==> r == Resize(s, a.size)
    ensures a.Add? ==> r.maxFiles == s.maxFiles
    ensures a.Add? && (|s.items| >= s.maxFiles || a.file.name in Names(s.items)) ==> r == s
    ensures a.Add? && |s.items| < s.maxFiles && a.file.name !in Names(s.items) ==>
              && |r.items| == |s.items| + 1
              && var c := r.items[|s.items|].controller;
                 && r.items == s.items + [NewItem(a.file, c)]
                 && fresh(c) && !c.aborted
    ensures a.Remove? ==> r == s.(items := Seqs.Without(s.items, NameOf, a.filename))
    ensures a.Remove? ==> forall c | c in Controllers(s.items) ::
              c.aborted <==> old(c.aborted) || c in NamedControllers(s.items, a.filename)
    ensures a.Started? ==> r == Start(s, a.filename)
    ensures a.Finished? ==> r == Finish(s, a.filename, a.status, a.message)
    ensures a.Unrecognized? ==> r == s
  {
    match a
    case Clear =>
      r := ClearItems(s);
    case SetMaxSize(size) =>
      r := Resize(s, size);
    case Add(file) =>
      r := AddFile(s, file);
    case Remove(filename) =>
      r := RemoveItems(s, filename);
    case Started(filename) =>
      r := Start(s, filename);
    case Finished(filename, status, message) =>
      r := Finish(s, filename, status, message);
    case Unrecognized(_) =>
      r := s;
  }

  /** Membership in the named controllers, by position. */
  lemma {:induction false} NamedControllersAt(items: seq<Item>, name: string)
    ensures forall c | c in NamedControllers(items, name) ::
              exists j :: 0 <= j < |items| && items[j].name == name && items[j].controller == c
    ensures forall j | 0 <= j < |items| && items[j].name == name ::
              items[j].controller in NamedControllers(items, name)
  {
    if items != [] {
      var init := items[..|items| - 1];
      NamedControllersAt(init, name);
      forall c | c in NamedControllers(items, name)
        ensures exists j :: 0 <= j < |items| && items[j].name == name && items[j].controller == c
      {
        if c in NamedControllers(init, name) {
          var j :| 0 <= j < |init| && init[j].name == name && init[j].controller == c;
          assert items[j] == init[j];
        } else {
          assert items[|items| - 1].controller == c;
        }
      }
      forall j | 0 <= j < |items| && items[j].name == name
        ensures items[j].controller in NamedControllers(items, name)
      {
        if j < |items| - 1 {
          assert init[j] == items[j];
        }
      }
    }
  }

  /**
   * With one controller per item, the items a removal keeps still hold one
   * controller each, none of them one the removal aborts, and each of them
   * one of the input's.
   */
  lemma {:induction false} KeptSurviveRemoval(items: seq<Item>, name: string)
    requires OwnControllers(items)
    ensures var kept := Seqs.Without(items, NameOf, name);
            && OwnControllers(kept)
            && forall i :: 0 <= i < |kept| ==>
                 kept[i].controller in Controllers(items)
                 && kept[i].controller !in NamedControllers(items, name)
  {
    var kept := Seqs.Without(items, NameOf, name);
    Seqs.WithoutKeepsDistinctBy(items, NameOf, name, ControllerOf);
    Seqs.WithoutMembers(items, NameOf, name);
    NamedControllersAt(items, name);
    forall i | 0 <= i < |kept|
      ensures kept[i].controller in Controllers(items) && kept[i].controller !in NamedControllers(items, name)
    {
      var p :| 0 <= p < |items| && items[p] == kept[i];
      forall j | 0 <= j < |items| && items[j].name == name ensures items[j].controller != kept[i].controller {
        assert j != p;
        assert Seqs.Map(items, ControllerOf)[j] == items[j].controller;
        assert Seqs.Map(items, ControllerOf)[p] == items[p].controller;
      }
    }
  }

  /**
   * With names unique, removing the name at position `k` drops that item
   * alone and aborts exactly its controller.
   */
  lemma {:induction false} RemoveDropsOne(s: State, k: nat)
    requires Valid(s) && k < |s.items|
    ensures Seqs.Without(s.items, NameOf, s.items[k].name) == s.items[..k] + s.items[k + 1..]
    ensures NamedControllers(s.items, s.items[k].name) == {s.items[k].controller}
  {
    Seqs.WithoutAt(s.items, NameOf, k);
    var n := s.items[k].name;
    NamedControllersAt(s.items, n);
    forall c | c in NamedControllers(s.items, n) ensures c == s.items[k].controller {
      var j :| 0 <= j < |s.items| && s.items[j].name == n && s.items[j].controller == c;
      assert Names(s.items)[j] == s.items[j].name && Names(s.items)[k] == n;
    }
  }

  /**
   * With one controller per item, `clear` aborts the controller of an item
   * exactly when that item is in flight.
   */
  lemma {:induction false} InFlightControllersAt(items: seq<Item>, k: nat)
    requires OwnControllers(items) && k < |items|
    ensures items[k].controller in InFlightControllers(items) <==> InFlight(items[k])
  {
    var init := items[..|items| - 1];
    var cs := Seqs.Map(items, ControllerOf);
    Seqs.MapPrefix(items, ControllerOf, |items| - 1);
    if k < |items| - 1 {
      assert init[k] == items[k];
      InFlightControllersAt(init, k);
      assert cs[k] != cs[|items| - 1];
    } else {
      InFlightControllersHeld(init);
      forall j | 0 <= j < |init| ensures init[j].controller != items[k].controller {
        assert init[j] == items[j];
        assert cs[j] != cs[k];
      }
    }
  }

  /** The in-flight controllers belong to the items. */
  lemma {:induction false} InFlightControllersHeld(items: seq<Item>)
    ensures forall c | c in InFlightControllers(items) :: exists j :: 0 <= j < |items| && items[j].controller == c
  {
    if items != [] {
      var init := items[..|items| - 1];
      InFlightControllersHeld(init);
      forall c | c in InFlightControllers(items)
        ensures exists j :: 0 <= j < |items| && items[j].controller == c
      {
        if c in InFlightControllers(init) {
          var j :| 0 <= j < |init| && init[j].controller == c;
          assert items[j] == init[j];
        } else {
          assert items[|items| - 1].controller == c;
        }
      }
    }
  }

  /**
   * Completions are keyed by name only: when an in-flight item is removed
   * (its controller aborted) and a file with the same name is added and
   * claimed again, the completion of the first, aborted upload settles the
   * new item, whose own upload is still running.
   */
  lemma {:induction false} StaleCompletionHitsNewItem(s: State, k: nat, f: FileRef, c: AbortController,
                                   status: Status, message: Option<string>)
    requires Valid(s) && k < |s.items| && f.name == s.items[k].name
    ensures var removed := Seqs.Without(s.items, NameOf, f.name);
            var readded := removed + [Item(f.name, f, Loading, None, true, false, c)];
            && |removed| == |s.items| - 1
            && Finish(State(s.maxFiles, readded), f.name, status, message).items[|removed|]
               == Item(f.name, f, status, message, false, true, c)
  {
    RemoveDropsOne(s, k);
  }
}
