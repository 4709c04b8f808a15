/**
 * The GUI's "back up project" modal (useBackupProjectModal): a backup is
 * started by launching the backup command, a dialog with a cancel button is
 * shown while it runs, and when the command settles the modal goes back to
 * idle and shows one toast saying how it ended.
 *
 * The backup command is a parameter: `launcher` is what launching it for a
 * project path gives (its cancel handle, or an exception), and the value the
 * awaited command settles with is passed to the step that resumes after the
 * await. Toasts and dialog texts are kept as their translation keys.
 */
module BackupProject {
  import opened Wrappers

  /** A project as the modal needs it: the path given to the command, and its name. */
  datatype Project = Project(path: string, name: string)

  /** Identifies the cancel function the command launcher handed back. */
  type CancelHandle = nat

  /** The modal's state: idle, or backing up with the handle that cancels the backup. */
  datatype State = Idle | BackingUp(cancel: CancelHandle)

  /** A toast: a normal one, a success one, or one reporting a thrown error. */
  datatype Toast = Normal(key: string) | Success(key: string) | ThrownError(error: string)

  const BACKUP_CANCELED := "projects:toast:backup canceled"
  const BACKUP_SUCCEEDED := "projects:toast:backup succeeded"
  const BACKUP_HEADER := "projects:dialog:backup header"
  const CREATING_BACKUP := "projects:dialog:creating backup..."
  const CANCEL_BUTTON := "general:button:cancel"

  /** The channel value a cancelled command resolves with. */
  const CANCELLED := "cancelled"

  /** What launching the command gives: the cancel handle and a pending result, or an exception. */
  datatype Launch = Launched(cancel: CancelHandle) | LaunchThrew(error: string)

  /** How the awaited command settles: resolved with a channel value, or rejected with an error. */
  datatype Settled = Resolved(channel: string) | Rejected(error: string)

  type Launcher = string -> Launch

  /** The open dialog: its header, its body, and the cancel button with the handle it invokes. */
  datatype Dialog = Dialog(header: string, body: string, buttonLabel: string, onCancel: CancelHandle)

  /** The `dialog` the hook returns for a state: none when idle, the backing-up dialog otherwise. */
  function DialogOf(s: State): (d: Option<Dialog>)
    ensures d.None? <==> s.Idle?
    ensures s.BackingUp? ==> d.value.onCancel == s.cancel && d.value.buttonLabel == CANCEL_BUTTON
  {
    match s
    case Idle => None
    case BackingUp(cancel) => Some(Dialog(BACKUP_HEADER, CREATING_BACKUP, CANCEL_BUTTON, cancel))
  }

  /** The toast shown when the awaited command settles. */
  function SettledToast(settled: Settled): Toast {
    match settled
    case Resolved(channel) => if channel == CANCELLED then Normal(BACKUP_CANCELED) else Success(BACKUP_SUCCEEDED)
    case Rejected(e) => ThrownError(e)
  }

  /**
   * The toasts one whole backup shows: exactly one, a normal toast when the
   * command resolved as cancelled, a success toast when it resolved with
   * anything else, and an error toast with the exception when the launch
   * threw or the command was rejected.
   */
  function BackupToasts(launch: Launch, settled: Settled): (r: seq<Toast>)
    ensures |r| == 1
    ensures r[0].Normal? <==> launch.Launched? && settled == Resolved(CANCELLED)
    ensures r[0].Success? <==> launch.Launched? && settled.Resolved? && settled.channel != CANCELLED
    ensures r[0].ThrownError? <==> launch.LaunchThrew? || settled.Rejected?
    ensures launch.LaunchThrew? ==> r[0] == ThrownError(launch.error)
    ensures launch.Launched? && settled.Rejected? ==> r[0] == ThrownError(settled.error)
    ensures !r[0].ThrownError? ==> r[0].key == (if r[0].Normal? then BACKUP_CANCELED else BACKUP_SUCCEEDED)
  {
    match launch
    case LaunchThrew(e) => [ThrownError(e)]
    case Launched(_) => [SettledToast(settled)]
  }

  /** The hook's state and the toasts it has shown, in order. */
  class BackupModal {
    var state: State
    var toasts: seq<Toast>

    constructor ()
      ensures state == Idle && toasts == []
    {
      state := Idle;
      toasts := [];
    }

    /**
     * startBackup up to its await: launch the command for the project's path
     * and show the dialog holding its cancel handle. A launch that throws
     * goes to the catch: back to idle, with an error toast. Returns whether
     * there is a result to await.
     */
    method Begin(project: Project, launcher: Launcher) returns (awaiting: bool)
      modifies this
      ensures awaiting <==> launcher(project.path).Launched?
      ensures awaiting ==> state == BackingUp(launcher(project.path).cancel) && toasts == old(toasts)
      ensures !awaiting ==> state == Idle && toasts == old(toasts) + [ThrownError(launcher(project.path).error)]
    {
      var launch := launcher(project.path);
      match launch
      case LaunchThrew(e) =>
        state := Idle;
        toasts := toasts + [ThrownError(e)];
        return false;
      case Launched(cancel) =>
        state := BackingUp(cancel);
        return true;
    }

    /**
     * startBackup after its await: a toast saying how the command settled,
     * then back to idle; a rejection goes to the catch, which also ends
     * idle with one toast.
     */
    method Finish(settled: Settled)
      modifies this
      ensures state == Idle
      ensures toasts == old(toasts) + [SettledToast(settled)]
    {
      match settled
      case Resolved(channel) =>
        if channel == CANCELLED {
          toasts := toasts + [Normal(BACKUP_CANCELED)];
        } else {
          toasts := toasts + [Success(BACKUP_SUCCEEDED)];
        }
        state := Idle;
      case Rejected(e) =>
        state := Idle;
        toasts := toasts + [ThrownError(e)];
    }

    /**
     * A whole startBackup with no other backup interleaved: the dialog is
     * shown while the command runs, and the modal ends idle having shown
     * the one toast of the backup.
     */
    method StartBackup(project: Project, launcher: Launcher, settled: Settled)
      modifies this
      ensures state == Idle
      ensures toasts == old(toasts) + BackupToasts(launcher(project.path), settled)
    {
      var awaiting := Begin(project, launcher);
      if awaiting {
        Finish(settled);
      }
    }
  }
}
