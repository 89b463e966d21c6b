/**
 * The drop zone's own decisions, written identically in both components
 * (lib/file-uploader/FileUploader.tsx and src/file-uploader/FileUploader.tsx):
 * the MIME allow-list, the cursor shown while files are dragged over, and the
 * state of the file input.
 */
module DropZone {

  /** `maxFiles` when the host passes none. */
  const DefaultMaxFiles: nat := 1

  datatype Cursor = Default | Allowed | Disallowed

  /** `isFileAllowed`: an empty allow-list admits every type. */
  function IsFileAllowed(fileTypes: seq<string>, mime: string): (ok: bool)
    ensures fileTypes == [] ==> ok
    ensures fileTypes != [] ==> (ok <==> exists i :: 0 <= i < |fileTypes| && fileTypes[i] == mime)
  {
    fileTypes == [] || mime in fileTypes
  }

  /** `files.some(isFileAllowed)` over the MIME types of the dragged items. */
  function AnyAllowed(fileTypes: seq<string>, mimes: seq<string>): (ok: bool)
    ensures ok <==> exists i :: 0 <= i < |mimes| && IsFileAllowed(fileTypes, mimes[i])
  {
    if mimes == [] then false
    else IsFileAllowed(fileTypes, mimes[0]) || AnyAllowed(fileTypes, mimes[1..])
  }

  /**
   * `onDragOver`: nothing dragged gives the default cursor; some allowed type
   * while there is room gives `allowed`; anything else `disallowed`.
   */
  function DragCursor(fileTypes: seq<string>, dragged: seq<string>, count: nat, maxFiles: nat): (c: Cursor)
    ensures c == Default <==> dragged == []
    ensures c == Allowed <==> dragged != [] && count < maxFiles &&
                              exists i :: 0 <= i < |dragged| && IsFileAllowed(fileTypes, dragged[i])
  {
    if |dragged| == 0 then Default
    else if AnyAllowed(fileTypes, dragged) && count < maxFiles then Allowed
    else Disallowed
  }

  /** `disabled={state.items.length >= maxFiles}`. */
  predicate InputDisabled(count: nat, maxFiles: nat) { count >= maxFiles }

  /** `multiple={maxFiles > 1}`. */
  predicate InputMultiple(maxFiles: nat) { maxFiles > 1 }

  /**
   * The cursor promises a drop only when the input is open for more files,
   * and with no allow-list any dragged file may be dropped while there is
   * room. Both rules are read against one capacity: the store's once its
   * `setMaxSize` has caught up with the `maxFiles` prop.
   */
  lemma {:induction false} CursorAgreesWithInput(fileTypes: seq<string>, dragged: seq<string>, count: nat, maxFiles: nat)
    ensures DragCursor(fileTypes, dragged, count, maxFiles) == Allowed ==> !InputDisabled(count, maxFiles)
    ensures InputDisabled(count, maxFiles) && dragged != [] ==>
              DragCursor(fileTypes, dragged, count, maxFiles) == Disallowed
    ensures fileTypes == [] && dragged != [] && !InputDisabled(count, maxFiles) ==>
              DragCursor(fileTypes, dragged, count, maxFiles) == Allowed
  {
    if fileTypes == [] && dragged != [] {
      assert IsFileAllowed(fileTypes, dragged[0]);
    }
  }

  /**
   * With the default capacity the input takes a single file and closes once
   * one item is held.
   */
  lemma {:induction false} DefaultIsSingleFile(count: nat)
    ensures !InputMultiple(DefaultMaxFiles)
    ensures InputDisabled(count, DefaultMaxFiles) <==> count >= 1
  {
  }
}
