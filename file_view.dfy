/**
 * The decisions of one file row in the `lib` widget
 * (lib/file-uploader/File.tsx): which status icon shows, which text, and
 * which of the retry and delete controls are offered.
 */
module FileView {
  import opened Common

  datatype Icon = ErrorIcon | SuccessIcon | LoadingIcon

  /** The three independent `status === ...` conditionals of the icon slot. */
  function IconsShown(status: Status): (icons: set<Icon>)
    ensures |icons| == 1
    ensures status == Error <==> ErrorIcon in icons
    ensures status == Success <==> SuccessIcon in icons
    ensures status == Loading <==> LoadingIcon in icons
  {
    (if status == Error then {ErrorIcon} else {})
    + (if status == Success then {SuccessIcon} else {})
    + (if status == Loading then {LoadingIcon} else {})
  }

  /** `message ?? (action === 'upload' ? 'Uploading...' : 'Deleting...')`. */
  function StatusText(message: Option<string>, action: Intent): (text: string)
    ensures message.Some? ==> text == message.value
    ensures message.None? && action == Upload ==> text == "Uploading..."
    ensures message.None? && action == Delete ==> text == "Deleting..."
  {
    match message
    case Some(m) => m
    case None => if action == Upload then "Uploading..." else "Deleting..."
  }

  /** The retry button: only for a failed upload. */
  predicate ShowsRetry(status: Status, action: Intent)
  {
    status == Error && action == Upload
  }

  /** The delete button: whenever the row is not loading. */
  predicate ShowsDelete(status: Status)
  {
    status != Loading
  }

  /**
   * While a row is loading it offers no control at all, and whenever retry
   * is offered delete is offered too; retry is never offered for a failed
   * delete.
   */
  lemma {:induction false} ControlGating(status: Status, action: Intent)
    ensures status == Loading ==> !ShowsRetry(status, action) && !ShowsDelete(status)
    ensures ShowsRetry(status, action) ==> ShowsDelete(status)
    ensures action == Delete ==> !ShowsRetry(status, action)
    ensures ShowsRetry(status, action) <==> status == Error && action == Upload
    ensures ShowsDelete(status) <==> status in {Success, Error}
  {
  }
}
