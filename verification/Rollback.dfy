/**
 * `run_rollback` of `src/jarn/update.py`: the active and the retained executable change places
 * through a third name, and every rename and the manifest write may fail.
 */
module Rollback {
  import opened Prelude

  type Name = string
  type Binary = string
  type Files = map<Name, Binary>

  datatype Record = Record(version: string, active: Name, candidate: Option<Name>, previous: Option<Name>)

  /** The places in the code where the operating system may refuse. */
  datatype Site =
    | Stage | Promote | Unstage                          // the exchange, and its undoing
    | DemoteBad | RestoreActive                          // after a failed smoke check
    | Retain | WriteManifest                             // the commit
    | ReStage | RePromote | ReRetain                     // undoing a retained exchange
    | DemoteUncommitted | RestoreUncommitted             // undoing one that was not retained

  const RESTORES := {Unstage, DemoteBad, RestoreActive, ReStage, RePromote, ReRetain, DemoteUncommitted, RestoreUncommitted}

  /**
   * What one run meets: the staging name of its process, whether the two paths share a directory,
   * the answers of the smoke checks and the version command, and the refusals of the system.
   */
  datatype Conditions = Conditions(exchange: Name, sameDirectory: bool, smokeBefore: bool, smokeAfter: bool,
                                   version: Option<string>, faults: set<Site>)

  /** How a rollback ends: with exit 0, or with the error of the number at the right. */
  datatype Outcome =
    | RolledBack
    | NothingRetained              // 015
    | OtherFilesystem              // 016
    | BadCandidate                 // 017
    | StagingTaken                 // 018
    | NotActivated                 // 019
    | BadActivation(restored: bool)  // 021, or 020 when the restore failed
    | NotCommitted(restored: bool)   // 023, or 022 when the restore failed

  /** The message says that nothing changed or that all was restored. */
  predicate ReportsUnchanged(out: Outcome) {
    match out
    case RolledBack => false
    case NotActivated => false
    case BadActivation(restored) => restored
    case NotCommitted(restored) => restored
    case _ => true
  }

  /** The active binary of `before` now sits at `x` and the retained one at `y`; all else is as it was. */
  ghost predicate Placed(before: Files, after: Files, active: Name, previous: Name, x: Name, y: Name) {
    && active in before && previous in before && active != previous && x != y
    && (x in before ==> x == active || x == previous) && (y in before ==> y == active || y == previous)
    && (forall n :: n in after <==> (n in before && n != active && n != previous) || n == x || n == y)
    && after[x] == before[active] && after[y] == before[previous]
    && (forall n :: n in after && n != x && n != y ==> after[n] == before[n])
  }

  /** Both binaries sit under two of the three names. */
  ghost predicate Conserved(before: Files, after: Files, active: Name, previous: Name, exchange: Name) {
    exists x, y :: Placed(before, after, active, previous, x, y)
      && x in {active, previous, exchange} && y in {active, previous, exchange}
  }

  /** Back in their own places the files are what they were; in each other's they are swapped. */
  lemma Ends(before: Files, after: Files, active: Name, previous: Name)
    ensures Placed(before, after, active, previous, active, previous) ==> after == before
    ensures Placed(before, after, active, previous, previous, active) ==> Swapped(before, after, active, previous)
  {
  }

  /** The two executables have changed places and nothing else has moved. */
  ghost predicate Swapped(before: Files, after: Files, active: Name, previous: Name) {
    && active in before && previous in before
    && after == before[active := before[previous]][previous := before[active]]
  }

  /** Two rollbacks restore the original placement. */
  lemma SwapTwice(first: Files, second: Files, third: Files, active: Name, previous: Name)
    requires Swapped(first, second, active, previous) && Swapped(second, third, active, previous)
    ensures third == first
  {
  }

  /** Which answer a run gives. */
  function Expected(c: Conditions, files: Files, manifest: Record): Outcome {
    if manifest.previous.None? then NothingRetained
    else if !c.sameDirectory then OtherFilesystem
    else if manifest.previous.value !in files || !c.smokeBefore then BadCandidate
    else if c.exchange in files then StagingTaken
    else if manifest.active !in files || manifest.active == manifest.previous.value then NotActivated
    else if Stage in c.faults || Promote in c.faults then NotActivated
    else if !c.smokeAfter then BadActivation(DemoteBad !in c.faults && RestoreActive !in c.faults)
    else if Retain in c.faults then NotCommitted(DemoteUncommitted !in c.faults && RestoreUncommitted !in c.faults)
    else if WriteManifest in c.faults then NotCommitted(c.faults !! {ReStage, RePromote, ReRetain})
    else RolledBack
  }

  class Installation {
    var files: Files
    var manifest: Record
    /** How many renames have landed on a name that was taken. */
    ghost var overwritten: nat

    constructor (files: Files, manifest: Record)
      ensures this.files == files && this.manifest == manifest
    {
      this.files, this.manifest, overwritten := files, manifest, 0;
    }

    /** `os.replace`. */
    method Replace(src: Name, dst: Name, site: Site, faults: set<Site>) returns (ok: bool)
      modifies `files, `overwritten
      ensures ok == (site !in faults && src in old(files))
      ensures files == if ok then (old(files) - {src})[dst := old(files)[src]] else old(files)
      ensures overwritten == old(overwritten) + if ok && src != dst && dst in old(files) then 1 else 0
    {
      ok := site !in faults && src in files;
      if ok {
        if src != dst && dst in files {
          overwritten := overwritten + 1;
        }
        files := (files - {src})[dst := files[src]];
      }
    }

    /**
     * Exchange the active executable with the retained one. `c` is what
     * this run meets.
     */
    method RunRollback(c: Conditions) returns (out: Outcome)
      modifies this
      ensures overwritten == old(overwritten)
      ensures manifest.active == old(manifest.active) && manifest.previous == old(manifest.previous)
      ensures out.RolledBack? ==>
        && old(manifest.previous).Some?
        && Swapped(old(files), files, old(manifest.active), old(manifest.previous).value)
        && c.exchange !in files
        && manifest.version == (if c.version.Some? then c.version.value else "unknown")
        && manifest.candidate == Some(old(manifest.active))
      ensures !out.RolledBack? ==> manifest == old(manifest)
      ensures !out.RolledBack? && c.faults !! RESTORES ==> files == old(files)
      ensures ReportsUnchanged(out) ==> files == old(files)
      ensures InPlay(old(files), old(manifest)) ==>
        Conserved(old(files), files, old(manifest.active), old(manifest.previous).value, c.exchange)
      ensures out == Expected(c, old(files), old(manifest))
      ensures out.RolledBack? <==>
        && InPlay(old(files), old(manifest)) && c.sameDirectory && c.smokeBefore && c.smokeAfter && c.exchange !in old(files)
        && c.faults !! {Stage, Promote, Retain, WriteManifest}
    {
      if manifest.previous.None? { return NothingRetained; }
      var active, previous := manifest.active, manifest.previous.value;
      ghost var before, inPlay := files, InPlay(files, manifest);
      assert inPlay ==> Placed(before, files, active, previous, active, previous);
      if !c.sameDirectory { return OtherFilesystem; }
      if previous !in files || !c.smokeBefore { return BadCandidate; }
      if c.exchange in files { return StagingTaken; }

      var activated := Exchange(active, previous, c.exchange, c.faults);
      if !activated { return NotActivated; }
      if !c.smokeAfter {
        var restored := Restore(before, active, previous, c.exchange, DemoteBad, RestoreActive, c.faults);
        return BadActivation(restored);
      }
      var updated := Record(if c.version.Some? then c.version.value else "unknown", active, Some(active), Some(previous));
      out := Commit(before, updated, active, previous, c.exchange, c.faults);
    }

    /**
     * A rollback and a rollback of it, each under conditions of its own. If both succeed, every
     * file is where it was, and the manifest names the same places and the last version asked for;
     * after a first success the second succeeds unless its own checks or committing steps fail.
     */
    method RollbackTwice(c: Conditions, d: Conditions) returns (first: Outcome, second: Outcome)
      modifies this
      ensures first.RolledBack? && second.RolledBack? ==>
        && files == old(files)
        && manifest.active == old(manifest.active) && manifest.previous == old(manifest.previous)
        && manifest.version == (if d.version.Some? then d.version.value else "unknown")
      ensures first.RolledBack? ==>
        (second.RolledBack? <==>
          && d.sameDirectory && d.smokeBefore && d.smokeAfter && d.exchange !in old(files)
          && d.faults !! {Stage, Promote, Retain, WriteManifest})
    {
      first := RunRollback(c);
      ghost var between := files;
      second := RunRollback(d);
      if first.RolledBack? && second.RolledBack? {
        SwapTwice(old(files), between, files, manifest.active, manifest.previous.value);
      }
    }

    /** The two renames that activate the candidate; when the second fails the first is undone. */
    method Exchange(active: Name, previous: Name, exchange: Name, faults: set<Site>) returns (ok: bool)
      requires previous in files && exchange !in files
      modifies `files, `overwritten
      ensures overwritten == old(overwritten)
      ensures ok == (active in old(files) && active != previous && Stage !in faults && Promote !in faults)
      ensures ok ==> Placed(old(files), files, active, previous, exchange, active)
      ensures !ok && Unstage !in faults ==> files == old(files)
      ensures active in old(files) && active != previous ==> Conserved(old(files), files, active, previous, exchange)
    {
      ghost var before := files;
      assert active in files && active != previous ==> Placed(before, files, active, previous, active, previous);
      var staged := Replace(active, exchange, Stage, faults);
      ok := false;
      if staged {
        assert active != previous ==> Placed(before, files, active, previous, exchange, previous);
        ok := Replace(previous, active, Promote, faults);
      }
      if !ok && exchange in files {
        var unstaged := Replace(exchange, active, Unstage, faults);
        assert unstaged ==> files == before;
      }
      assert active in before && active != previous ==>
        Placed(before, files, active, previous, active, previous) || Placed(before, files, active, previous, exchange, previous)
        || Placed(before, files, active, previous, exchange, active);
    }

    /** Retain the old executable and write the manifest, or undo the exchange. */
    method Commit(ghost before: Files, updated: Record, active: Name, previous: Name, exchange: Name, faults: set<Site>)
      returns (out: Outcome)
      requires Placed(before, files, active, previous, exchange, active)
      requires exchange != previous
      modifies this
      ensures overwritten == old(overwritten) && (out.RolledBack? || out.NotCommitted?)
      ensures out.RolledBack? <==> Retain !in faults && WriteManifest !in faults
      ensures manifest == if out.RolledBack? then updated else old(manifest)
      ensures out.RolledBack? ==> Swapped(before, files, active, previous) && exchange !in files
      ensures out == NotCommitted(true) ==> files == before
      ensures Retain in faults ==> out == NotCommitted(DemoteUncommitted !in faults && RestoreUncommitted !in faults)
      ensures Retain !in faults && WriteManifest in faults ==>
        out == NotCommitted(ReStage !in faults && RePromote !in faults && ReRetain !in faults)
      ensures faults !! RESTORES ==> out != NotCommitted(false)
      ensures Conserved(before, files, active, previous, exchange)
    {
      var retained := Replace(exchange, previous, Retain, faults);
      if retained && WriteManifest !in faults {
        assert Placed(before, files, active, previous, previous, active);
        Ends(before, files, active, previous);
        manifest := updated;
        return RolledBack;
      }
      var restored;
      if retained {
        restored := Return(before, active, previous, exchange, faults);
      } else {
        restored := Restore(before, active, previous, exchange, DemoteUncommitted, RestoreUncommitted, faults);
      }
      assert restored ==> Placed(before, files, active, previous, active, previous);
      out := NotCommitted(restored);
    }

    /** Exchange the two executables back when the old one has already been retained. */
    method Return(ghost before: Files, active: Name, previous: Name, exchange: Name, faults: set<Site>) returns (ok: bool)
      requires Placed(before, files, active, previous, previous, active) && exchange !in files
      modifies `files, `overwritten
      ensures overwritten == old(overwritten)
      ensures ok == (ReStage !in faults && RePromote !in faults && ReRetain !in faults)
      ensures if ok then files == before else Conserved(before, files, active, previous, exchange)
    {
      ok := Replace(active, exchange, ReStage, faults);
      if !ok { return; }
      assert Placed(before, files, active, previous, previous, exchange);
      ok := Replace(previous, active, RePromote, faults);
      if !ok { return; }
      assert Placed(before, files, active, previous, active, exchange);
      ok := Replace(exchange, previous, ReRetain, faults);
      if ok {
        assert Placed(before, files, active, previous, active, previous);
        Ends(before, files, active, previous);
      }
    }

    /** Put the candidate back under its retained name and then the old executable into place. */
    method Restore(ghost before: Files, active: Name, previous: Name, exchange: Name,
                   demote: Site, restore: Site, faults: set<Site>) returns (ok: bool)
      requires Placed(before, files, active, previous, exchange, active)
      requires exchange != previous
      modifies `files, `overwritten
      ensures overwritten == old(overwritten)
      ensures ok == (demote !in faults && restore !in faults)
      ensures if ok then files == before else Conserved(before, files, active, previous, exchange)
    {
      var demoted := Replace(active, previous, demote, faults);
      if !demoted { return false; }
      assert Placed(before, files, active, previous, exchange, previous);
      ok := Replace(exchange, active, restore, faults);
      if ok {
        assert Placed(before, files, active, previous, active, previous);
        Ends(before, files, active, previous);
      }
    }
  }

  /** The manifest names two different files that exist. */
  predicate InPlay(files: Files, manifest: Record) {
    && manifest.previous.Some? && manifest.active in files && manifest.previous.value in files
    && manifest.active != manifest.previous.value
  }
}
