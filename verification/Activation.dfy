/**
 * `_activate` of `src/jarn/codex_dependency.py`: two links are published together, and a failure
 * on the way puts both places back as they were captured.
 */
module Activation {
  import opened Prelude

  datatype Slot = Missing | Symlink(target: string) | File(content: string) | Directory

  /** What `_capture` remembers of a slot. */
  datatype Backup = NoBackup | LinkBackup(target: string) | FileBackup(content: string)

  datatype Site = CaptureCurrent | CaptureDestination | PublishCurrent | PublishDestination | Smoke
                | RestoreDestination | RestoreCurrent

  datatype Outcome = Activated(replacedFile: bool) | Failed | RollbackFailed

  const BIN := "/bin/codex"

  class Installer {
    /** The path of the `current` slot, which the destination link goes through. */
    const currentPath: string
    var current: Slot
    var destination: Slot
    /** Both slots after each single change so far. */
    ghost var trail: seq<(Slot, Slot)>

    constructor (currentPath: string, current: Slot, destination: Slot)
      ensures this.currentPath == currentPath && this.current == current && this.destination == destination
      ensures trail == []
    {
      this.currentPath, this.current, this.destination, trail := currentPath, current, destination, [];
    }

    method SetCurrent(slot: Slot)
      modifies `current, `trail
      ensures current == slot && trail == old(trail) + [(slot, destination)]
    {
      current, trail := slot, trail + [(slot, destination)];
    }

    method SetDestination(slot: Slot)
      modifies `destination, `trail
      ensures destination == slot && trail == old(trail) + [(current, slot)]
    {
      destination, trail := slot, trail + [(current, slot)];
    }

    /** Anything but a link, a regular file or nothing is refused; copying a file may fail. */
    method Capture(slot: Slot, site: Site, faults: set<Site>) returns (backup: Option<Backup>)
      ensures backup.None? <==> slot.Directory? || (slot.File? && site in faults)
      ensures backup.Some? ==> Restored(backup.value) == slot
    {
      match slot
      case Missing => return Some(NoBackup);
      case Symlink(target) => return Some(LinkBackup(target));
      case File(content) => return if site in faults then None else Some(FileBackup(content));
      case Directory => return None;
    }

    /** The slot that `_restore` makes of a backup. */
    static function Restored(backup: Backup): Slot {
      match backup
      case NoBackup => Missing
      case LinkBackup(target) => Symlink(target)
      case FileBackup(content) => File(content)
    }

    /**
     * Publish `current` and then the destination link. On success both lead to the release; a
     * failure whose restores work leaves both slots as they were; and after every single change
     * each slot holds either what it held before or the new link.
     */
    method Activate(release: string, faults: set<Site>) returns (out: Outcome)
      modifies this
      ensures out.Activated? ==>
        && current == Symlink(release) && destination == Symlink(currentPath + "/bin/codex")
        && out.replacedFile == old(destination.File?)
      ensures out.Failed? ==> current == old(current) && destination == old(destination)
      ensures out.RollbackFailed? <==>
        && !old(current).Directory? && !old(destination).Directory?
        && !(old(current).File? && CaptureCurrent in faults) && !(old(destination).File? && CaptureDestination in faults)
        && !(faults !! {PublishCurrent, PublishDestination, Smoke})
        && (RestoreDestination in faults || RestoreCurrent in faults)
      ensures out.RollbackFailed? && RestoreDestination !in faults ==> destination == old(destination)
      ensures current in {old(current), Symlink(release)}
      ensures destination in {old(destination), Symlink(currentPath + "/bin/codex")}
      ensures old(trail) <= trail && forall t :: |old(trail)| <= t < |trail| ==>
        trail[t].0 in {old(current), Symlink(release)} && trail[t].1 in {old(destination), Symlink(currentPath + "/bin/codex")}
      ensures out.Activated? <==>
        && !old(current).Directory? && !old(destination).Directory?
        && !(old(current).File? && CaptureCurrent in faults) && !(old(destination).File? && CaptureDestination in faults)
        && faults !! {PublishCurrent, PublishDestination, Smoke}
    {
      var currentBackup := Capture(current, CaptureCurrent, faults);
      if currentBackup.None? { return Failed; }
      var destinationBackup := Capture(destination, CaptureDestination, faults);
      if destinationBackup.None? { return Failed; }

      var ok := PublishCurrent !in faults;
      if ok {
        SetCurrent(Symlink(release));
        ok := PublishDestination !in faults;
      }
      if ok {
        SetDestination(Symlink(currentPath + BIN));
        ok := Smoke !in faults;
      }
      if ok {
        return Activated(destinationBackup.value.FileBackup?);
      }
      if RestoreDestination in faults { return RollbackFailed; }
      SetDestination(Restored(destinationBackup.value));
      if RestoreCurrent in faults { return RollbackFailed; }
      SetCurrent(Restored(currentBackup.value));
      out := Failed;
    }
  }
}
