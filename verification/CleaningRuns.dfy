/** A cleaning at work beside the logger: it never touches a session that is begun and
    not finalized, whether it is being written or was left behind by a crash. */
module CleaningRuns {
  import opened Options
  import opened LogStorage
  import LogStorageRuns

  // ---- What a sweep can take -------------------------------------------------

  ghost predicate HasMarker(files: seq<File>, stem: string) {
    exists f :: f in files && f.stem == stem && f.kind.Active?
  }

  lemma {:induction false} IncompleteIffMarked(files: seq<File>, stem: string)
    requires SessionOf(files, stem).Some?
    ensures SessionOf(files, stem).value.incomplete <==> HasMarker(files, stem)
  {
    var front, last := files[..|files| - 1], files[|files| - 1];
    assert forall f :: f in files <==> f in front || f == last;
    if SessionOf(front, stem).Some? {
      IncompleteIffMarked(front, stem);
    } else {
      forall f | f in front ensures f.stem != stem {
        LogStorageRuns.FilesOfSession(front, stem, f);
      }
    }
    if last.stem == stem && last.kind.Active? {
      assert HasMarker(files, stem);
    }
  }

  /** Whatever a sweep removes, with deletes failing anywhere and any free space
      reported, is a file of a listed session that is not incomplete. */
  lemma {:induction false} SweepTakesOnlyCompleted(policy: Policy, cutoff: Option<int>, w: Sweep,
    sessions: seq<Session>, removes: File -> bool, free: FreeSpace, f: File)
    requires f in w.files && f !in SweepAll(policy, cutoff, w, sessions, removes, free).files
    ensures exists s :: s in sessions && !s.incomplete && f in s.files
    decreases |sessions|
  {
    assert sessions != [];
    var s := sessions[0];
    var next := if Doomed(policy, cutoff, w, s) then Delete(w, s, removes, free) else w;
    if f in next.files {
      SweepTakesOnlyCompleted(policy, cutoff, next, sessions[1..], removes, free, f);
      var x :| x in sessions[1..] && !x.incomplete && f in x.files;
      assert x in sessions;
    } else {
      assert f in s.files[..Removable(s.files, removes)];
      assert s in sessions;
    }
  }

  /** No file of a stem that has a marker is removed by a cleaning of the directory. */
  lemma CleaningSparesMarked(policy: Policy, now: int, files: seq<File>, sessions: seq<Session>,
    removes: File -> bool, free: FreeSpace, f: File)
    requires IsScan(sessions, files) && f in files && HasMarker(files, f.stem)
    ensures f in SweepAll(policy, Cutoff(policy, now), Start(files, sessions, free), sessions, removes, free).files
  {
    var start := Start(files, sessions, free);
    if f !in SweepAll(policy, Cutoff(policy, now), start, sessions, removes, free).files {
      SweepTakesOnlyCompleted(policy, Cutoff(policy, now), start, sessions, removes, free, f);
      var s :| s in sessions && !s.incomplete && f in s.files;
      LogStorageRuns.FilesOfSession(files, s.stem, f);
      IncompleteIffMarked(files, s.stem);
    }
  }

  // ---- The directory while both work -----------------------------------------

  type Path = (string, Kind)

  function PathOf(f: File): Path { (f.stem, f.kind) }

  /** The directory, the sessions begun and not yet finalized, and the paths the
      cleaning under way still deletes. */
  datatype World = World(files: seq<File>, unfinalized: set<string>, doomed: set<Path>)

  /** `Clean` lists the directory.  The answers that its deletes and its questions for
      free space are going to get are given with it: a delete is tried once for a file,
      and free space is asked for once for each set of files that is left. */
  datatype Step =
    | Mark(stem: string, modified: int)    // the active marker is created, as a new file
    | Write(file: File)                    // a file of a session is created or grows
    | Finalize(stem: string)               // the marker is removed after the files are closed
    | Clean(policy: Policy, now: int, sessions: seq<Session>, removes: File -> bool, free: FreeSpace)
    | DeleteNext(path: Path)

  const MARKER_BYTES: nat := 7

  function Unlink(files: seq<File>, path: Path): (r: seq<File>)
    ensures forall f :: f in r <==> f in files && PathOf(f) != path
  {
    if files == [] then []
    else
      var front, last := Unlink(files[..|files| - 1], path), files[|files| - 1];
      if PathOf(last) == path then front else front + [last]
  }

  function Put(files: seq<File>, f: File): (r: seq<File>)
    ensures forall g :: g in r <==> g == f || (g in files && PathOf(g) != PathOf(f))
  {
    Unlink(files, PathOf(f)) + [f]
  }

  /** The paths that the cleaning of this listing deletes. */
  function Swept(files: seq<File>, policy: Policy, now: int, sessions: seq<Session>, removes: File -> bool,
    free: FreeSpace): set<Path>
  {
    var left := SweepAll(policy, Cutoff(policy, now), Start(files, sessions, free), sessions, removes, free).files;
    set f | f in files && f !in left :: PathOf(f)
  }

  ghost predicate Enabled(w: World, step: Step) {
    match step
    case Mark(stem, _) => !HasMarker(w.files, stem)
    case Write(file) => file.stem in w.unfinalized && !file.kind.Active?
    case Finalize(stem) => stem in w.unfinalized
    case Clean(_, _, sessions, _, _) => IsScan(sessions, w.files)
    case DeleteNext(path) => path in w.doomed
  }

  function Next(w: World, step: Step): World {
    match step
    case Mark(stem, modified) =>
      w.(files := Put(w.files, File(stem, Active, MARKER_BYTES, modified)), unfinalized := w.unfinalized + {stem})
    case Write(file) => w.(files := Put(w.files, file))
    case Finalize(stem) => w.(files := Unlink(w.files, (stem, Active)), unfinalized := w.unfinalized - {stem})
    case Clean(policy, now, sessions, removes, free) =>
      w.(doomed := Swept(w.files, policy, now, sessions, removes, free))
    case DeleteNext(path) => w.(files := Unlink(w.files, path), doomed := w.doomed - {path})
  }

  ghost predicate Runs(w: World, steps: seq<Step>)
    decreases |steps|
  {
    steps == [] || (Enabled(w, steps[0]) && Runs(Next(w, steps[0]), steps[1..]))
  }

  /** Every unfinalized session shows its marker, and none of its files is doomed. */
  ghost predicate Safe(w: World) {
    && (forall stem :: stem in w.unfinalized ==> HasMarker(w.files, stem))
    && (forall p :: p in w.doomed ==> p.0 !in w.unfinalized)
  }

  /** The sessions that show a marker when the logger starts, after a crash as well,
      are those not finalized. */
  lemma StartIsSafe(files: seq<File>)
    ensures Safe(World(files, set f | f in files && f.kind.Active? :: f.stem, {}))
  {
  }

  /** A new session takes the stem of a file that a cleaning is about to delete. */
  ghost predicate TakesDoomedStem(w: World, step: Step) {
    step.Mark? && exists kind :: (step.stem, kind) in w.doomed
  }

  lemma SweptHasNoMarker(files: seq<File>, policy: Policy, now: int, sessions: seq<Session>, removes: File -> bool,
    free: FreeSpace, path: Path)
    requires IsScan(sessions, files) && path in Swept(files, policy, now, sessions, removes, free)
    ensures !HasMarker(files, path.0)
  {
    var left := SweepAll(policy, Cutoff(policy, now), Start(files, sessions, free), sessions, removes, free).files;
    var f :| f in files && f !in left && PathOf(f) == path;
    if HasMarker(files, path.0) {
      CleaningSparesMarked(policy, now, files, sessions, removes, free, f);
    }
  }

  lemma KeepsMarker(files: seq<File>, after: seq<File>, stem: string)
    requires HasMarker(files, stem)
    requires forall f :: f in files && f.stem == stem && f.kind.Active? ==> f in after
    ensures HasMarker(after, stem)
  {
  }

  /** A step leads out of the safe worlds exactly when a session takes a doomed stem. */
  lemma StepKeepsSafeIff(w: World, step: Step)
    requires Safe(w) && Enabled(w, step)
    ensures Safe(Next(w, step)) <==> !TakesDoomedStem(w, step)
  {
    var n := Next(w, step);
    match step {
      case Mark(stem, modified) =>
        assert File(stem, Active, MARKER_BYTES, modified) in n.files;
        forall x | x in w.unfinalized ensures HasMarker(n.files, x) {
          KeepsMarker(w.files, n.files, x);
        }
        forall p | p in w.doomed ensures p == (p.0, p.1) {}
      case Write(file) =>
        forall x | x in w.unfinalized ensures HasMarker(n.files, x) {
          KeepsMarker(w.files, n.files, x);
        }
      case Finalize(stem) =>
        forall x | x in n.unfinalized ensures HasMarker(n.files, x) {
          KeepsMarker(w.files, n.files, x);
        }
      case Clean(policy, now, sessions, removes, free) =>
        forall p | p in n.doomed ensures p.0 !in w.unfinalized {
          SweptHasNoMarker(w.files, policy, now, sessions, removes, free, p);
        }
      case DeleteNext(path) =>
        forall x | x in w.unfinalized ensures HasMarker(n.files, x) {
          KeepsMarker(w.files, n.files, x);
        }
    }
  }

  /** Every world of the run is safe. */
  ghost predicate StaysSafe(w: World, steps: seq<Step>)
    decreases |steps|
  {
    Safe(w) && (steps == [] || StaysSafe(Next(w, steps[0]), steps[1..]))
  }

  /** No session of the run takes the stem of a file that a cleaning is about to delete. */
  ghost predicate AvoidsDoomedStems(w: World, steps: seq<Step>)
    decreases |steps|
  {
    steps == [] || (!TakesDoomedStem(w, steps[0]) && AvoidsDoomedStems(Next(w, steps[0]), steps[1..]))
  }

  /** Under every interleaving of the logger and the cleaning, all worlds are safe
      exactly when no new session takes a doomed stem. */
  lemma {:induction false} StaysSafeIff(w: World, steps: seq<Step>)
    requires Safe(w) && Runs(w, steps)
    ensures StaysSafe(w, steps) <==> AvoidsDoomedStems(w, steps)
    decreases |steps|
  {
    if steps != [] {
      StepKeepsSafeIff(w, steps[0]);
      if !TakesDoomedStem(w, steps[0]) {
        StaysSafeIff(Next(w, steps[0]), steps[1..]);
      }
    }
  }

  function After(w: World, steps: seq<Step>): World
    decreases |steps|
  {
    if steps == [] then w else After(Next(w, steps[0]), steps[1..])
  }

  lemma {:induction false} LastIsSafe(w: World, steps: seq<Step>)
    requires StaysSafe(w, steps)
    ensures Safe(After(w, steps))
    decreases |steps|
  {
    if steps != [] { LastIsSafe(Next(w, steps[0]), steps[1..]); }
  }

  /** No delete that can come next hits a session that is begun and not finalized, and
      that session still shows its marker. */
  lemma UnfinalizedIsNeverDeleted(w: World, steps: seq<Step>, path: Path)
    requires Safe(w) && Runs(w, steps) && AvoidsDoomedStems(w, steps)
    requires Enabled(After(w, steps), DeleteNext(path))
    ensures path.0 !in After(w, steps).unfinalized
    ensures forall stem :: stem in After(w, steps).unfinalized ==> HasMarker(After(w, steps).files, stem)
  {
    StaysSafeIff(w, steps);
    LastIsSafe(w, steps);
  }

  /** A run that loses a file: the only session is old, a cleaning decides to delete it,
      and a new session takes its stem before the delete. */
  lemma ReusedStemLosesAFile(f: File, removes: File -> bool, free: FreeSpace) returns (steps: seq<Step>)
    requires f.kind.Mf4? && removes(f)
    ensures var w := World([f], {}, {});
      && Safe(w) && Runs(w, steps)
      && Enabled(After(w, steps), DeleteNext(PathOf(f))) && f.stem in After(w, steps).unfinalized
      && f in After(w, steps).files
  {
    var session := Session(f.stem, [f], f.bytes, f.modified, false);
    var policy, now := Policy(0, 0, 1), f.modified + 2;
    var w := World([f], {}, {});
    var clean, mark, write := Clean(policy, now, [session], removes, free), Mark(f.stem, now), Write(f);
    steps := [clean] + ([mark] + ([write] + []));
    OneFileOneSession(f);
    OneFileIsSwept(f, policy, now, removes, free);
    var w1 := Next(w, clean);
    var w2 := Next(w1, mark);
    assert PathOf(f) in w1.doomed && w1.files == [f];
    assert !HasMarker(w1.files, f.stem);
    FirstStep(w2, write, []);
    FirstStep(w1, mark, [write] + []);
    FirstStep(w, clean, [mark] + ([write] + []));
  }

  lemma FirstStep(w: World, step: Step, rest: seq<Step>)
    ensures After(w, [step] + rest) == After(Next(w, step), rest)
    ensures Runs(w, [step] + rest) <==> Enabled(w, step) && Runs(Next(w, step), rest)
  {
    assert ([step] + rest)[1..] == rest;
  }

  lemma OneFileOneSession(f: File)
    requires f.kind.Mf4?
    ensures IsScan([Session(f.stem, [f], f.bytes, f.modified, false)], [f])
  {
    var sessions := [Session(f.stem, [f], f.bytes, f.modified, false)];
    assert [f][..0] == [];
    assert SessionOf([f], f.stem) == Some(sessions[0]);
    forall stem | SessionOf([f], stem).Some? ensures exists i :: 0 <= i < |sessions| && sessions[i].stem == stem {
      assert SessionOf([], stem) == None;
      assert sessions[0].stem == stem;
    }
  }

  lemma OneFileIsSwept(f: File, policy: Policy, now: int, removes: File -> bool, free: FreeSpace)
    requires f.kind.Mf4? && removes(f) && policy.maximumAgeSeconds > 0 && f.modified < now - policy.maximumAgeSeconds
    ensures PathOf(f) in Swept([f], policy, now, [Session(f.stem, [f], f.bytes, f.modified, false)], removes, free)
  {
    var s := Session(f.stem, [f], f.bytes, f.modified, false);
    var start := Start([f], [s], free);
    assert Doomed(policy, Cutoff(policy, now), start, s);
    assert Removable([f], removes) == 1;
    assert [f][..1] == [f] && [s][1..] == [];
    var next := Delete(start, s, removes, free);
    assert f !in next.files;
    assert SweepAll(policy, Cutoff(policy, now), start, [s], removes, free) == next;
  }
}
