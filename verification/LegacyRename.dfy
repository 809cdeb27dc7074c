/** Moving a SQLite database and its companions to their current names, surviving interruption. */
module LegacyRename {
  import opened Wrappers

  datatype Part = Main | Wal | Shm

  /** The files of one directory that the move concerns, and the rest. */
  datatype Name = Legacy(part: Part) | Current(part: Part) | Other(name: string)

  type Files = map<Name, string>

  function Contents(files: Files, n: Name): Option<string> {
    if n in files then Some(files[n]) else None
  }

  /** An atomic rename: the target takes the source's content, replacing its own. */
  function Renamed(files: Files, from: Name, to: Name): Files
    requires from in files
  {
    files[to := files[from]] - {from}
  }

  function RenamedIfThere(files: Files, p: Part): Files {
    if Legacy(p) in files then Renamed(files, Legacy(p), Current(p)) else files
  }

  /** The directory once the whole move has gone through. */
  function Moved(files: Files): Files {
    if Current(Main) in files || Legacy(Main) !in files then files
    else Renamed(RenamedIfThere(RenamedIfThere(files, Wal), Shm), Legacy(Main), Current(Main))
  }

  /** Where an interrupted move may stop: after none, one or both of the companions. */
  predicate Interrupted(files: Files, files': Files) {
    && Current(Main) !in files && Legacy(Main) in files
    && (files' == files || files' == RenamedIfThere(files, Wal) || files' == RenamedIfThere(RenamedIfThere(files, Wal), Shm))
  }

  /** A directory on disk; `renamesLeft` is how many more renames succeed before power is lost. */
  class Directory {
    var files: Files
    var renamesLeft: nat

    constructor (files: Files, renamesLeft: nat)
      ensures this.files == files && this.renamesLeft == renamesLeft
    {
      this.files, this.renamesLeft := files, renamesLeft;
    }

    method Rename(from: Name, to: Name) returns (ok: bool)
      requires from in files
      modifies this
      ensures ok <==> old(renamesLeft) > 0
      ensures files == if ok then Renamed(old(files), from, to) else old(files)
      ensures renamesLeft == if ok then old(renamesLeft) - 1 else 0
    {
      ok := renamesLeft > 0;
      if ok {
        files := Renamed(files, from, to);
        renamesLeft := renamesLeft - 1;
      }
    }

    /** Companions first, the main file last, so an interrupted move is simply retried. */
    method RenameLegacySqliteFile() returns (ok: bool)
      modifies this
      ensures ok ==> files == Moved(old(files))
      ensures Current(Main) in old(files) || Legacy(Main) !in old(files) ==> ok && files == old(files)
      ensures !ok ==> Interrupted(old(files), files) && renamesLeft == 0
    {
      if Current(Main) in files || Legacy(Main) !in files {
        return true;
      }
      if Legacy(Wal) in files {
        ok := Rename(Legacy(Wal), Current(Wal));
        if !ok {
          return;
        }
      }
      if Legacy(Shm) in files {
        ok := Rename(Legacy(Shm), Current(Shm));
        if !ok {
          return;
        }
      }
      ok := Rename(Legacy(Main), Current(Main));
    }
  }

  /** Resuming after an interruption reaches what an uninterrupted move would have reached. */
  lemma ResumeReachesSameEnd(files: Files, files': Files)
    requires Interrupted(files, files')
    ensures Moved(files') == Moved(files)
  {
  }

  /** Attempts cut off one after another, then a complete one. */
  ghost predicate Attempts(states: seq<Files>) {
    states != [] && forall i | 0 <= i < |states| - 1 :: Interrupted(states[i], states[i + 1])
  }

  /**
   * However many attempts were interrupted, and wherever, the one that completes leaves what
   * a single move from the start would, and every further run changes nothing.
   */
  lemma {:induction false} InterruptionsLeaveNoTrace(states: seq<Files>)
    requires Attempts(states)
    ensures Moved(states[|states| - 1]) == Moved(states[0])
    ensures Moved(Moved(states[0])) == Moved(states[0])
  {
    if |states| == 1 {
    } else {
      InterruptionsLeaveNoTrace(states[1..]);
      ResumeReachesSameEnd(states[0], states[1]);
    }
  }

  /**
   * The moved database is made of exactly the legacy one's files if and only if no stray
   * companion already stood under a current name that the legacy database has no file for.
   */
  lemma MovedIntactIff(files: Files)
    requires Legacy(Main) in files && Current(Main) !in files
    ensures (forall p: Part :: Contents(Moved(files), Current(p)) == Contents(files, Legacy(p)))
       <==> (forall p: Part :: Current(p) in files ==> Legacy(p) in files)
    ensures forall p: Part :: Legacy(p) !in Moved(files)
    ensures forall n: Name | n.Other? :: Contents(Moved(files), n) == Contents(files, n)
  {
    var m := Moved(files);
    forall p: Part
      ensures Contents(m, Current(p)) == if Legacy(p) in files then Contents(files, Legacy(p)) else Contents(files, Current(p))
    {
      match p case Main => case Wal => case Shm =>
    }
    forall p: Part
      ensures Legacy(p) !in m
    {
      match p case Main => case Wal => case Shm =>
    }
  }

  /** The live store and every archive are moved independently; a failure on one stops no other. */
  method MigrateLegacyMlsStore(dirs: seq<Directory>)
    requires forall i, j | 0 <= i < j < |dirs| :: dirs[i] != dirs[j]
    modifies dirs
    ensures forall d | d in dirs :: d.files == Moved(old(d.files)) || (Interrupted(old(d.files), d.files) && d.renamesLeft == 0)
  {
    for i := 0 to |dirs|
      invariant forall j | i <= j < |dirs| :: dirs[j].files == old(dirs[j].files)
      invariant forall j | 0 <= j < i ::
        dirs[j].files == Moved(old(dirs[j].files)) || (Interrupted(old(dirs[j].files), dirs[j].files) && dirs[j].renamesLeft == 0)
    {
      var ok := dirs[i].RenameLegacySqliteFile();
    }
  }
}
