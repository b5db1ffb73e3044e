/** What a cleaning removes: the shortest oldest-first run of completed sessions. */
module LogStorageRuns {
  import opened Options
  import opened LogStorage

  function Completed(sessions: seq<Session>): seq<Session> {
    if sessions == [] then []
    else if sessions[0].incomplete then Completed(sessions[1..])
    else [sessions[0]] + Completed(sessions[1..])
  }

  lemma {:induction false} CompletedAreAmong(sessions: seq<Session>, i: nat)
    requires i < |Completed(sessions)|
    ensures Completed(sessions)[i] in sessions && !Completed(sessions)[i].incomplete
  {
    if sessions[0].incomplete {
      CompletedAreAmong(sessions[1..], i);
    } else if i > 0 {
      CompletedAreAmong(sessions[1..], i - 1);
    }
  }

  /** The directory after the first `k` of `victims` are gone. */
  function Gone(files: seq<File>, victims: seq<Session>, k: nat): seq<File>
    requires k <= |victims|
  {
    if k == 0 then files else Without(Gone(files, victims, k - 1), victims[k - 1].files)
  }

  function Freed(victims: seq<Session>, k: nat): nat
    requires k <= |victims|
  {
    if k == 0 then 0 else Freed(victims, k - 1) + victims[k - 1].bytes
  }

  /** The limits in numbers: every completed session left is recent enough, the total is
      within the quota, and enough space is free; zero is no limit, and free space that
      is not known is not asked for. */
  ghost predicate LimitsMet(policy: Policy, now: int, left: seq<Session>, managed: int, available: int) {
    && (policy.maximumAgeSeconds == 0 ||
          forall i :: 0 <= i < |left| ==> left[i].modified >= now - policy.maximumAgeSeconds)
    && (policy.maximumTotalBytes == 0 || managed <= policy.maximumTotalBytes)
    && (available < 0 || available >= policy.minimumFreeBytes)
  }

  /** The limits hold once the `k` oldest completed sessions are removed. */
  ghost predicate MetAfter(policy: Policy, now: int, w: Sweep, victims: seq<Session>, k: nat,
    free: FreeSpace)
    requires k <= |victims|
  {
    LimitsMet(policy, now, victims[k..], w.managed - Freed(victims, k),
              if k == 0 then w.available else free(Gone(w.files, victims, k)))
  }

  ghost predicate OldestFirst(sessions: seq<Session>) {
    forall i, j :: 0 <= i < j < |sessions| ==> sessions[i].modified <= sessions[j].modified
  }

  lemma {:induction false} RemovesAll(files: seq<File>, removes: File -> bool)
    requires forall f :: removes(f)
    ensures Removable(files, removes) == |files|
  {
    if files != [] { RemovesAll(files[1..], removes); }
  }

  /** Deleting the first victim and then the rest. */
  lemma {:induction false} GoneStep(files: seq<File>, victims: seq<Session>, k: nat)
    requires 0 < k <= |victims|
    ensures Gone(files, victims, k) == Gone(Without(files, victims[0].files), victims[1..], k - 1)
    ensures Freed(victims, k) == victims[0].bytes + Freed(victims[1..], k - 1)
  {
    if k > 1 {
      GoneStep(files, victims, k - 1);
      assert victims[k - 1] == victims[1..][k - 2];
    }
  }

  /** Once the limits are met nothing more is deleted. */
  lemma {:induction false} MetStaysMet(policy: Policy, now: int, w: Sweep, sessions: seq<Session>,
    removes: File -> bool, free: FreeSpace)
    requires LimitsMet(policy, now, Completed(sessions), w.managed, w.available)
    ensures SweepAll(policy, Cutoff(policy, now), w, sessions, removes, free) == w
    decreases |sessions|
  {
    if sessions != [] {
      var done := Completed(sessions);
      if !sessions[0].incomplete {
        assert done[0] == sessions[0];
        assert forall i :: 0 <= i < |done[1..]| ==> done[1..][i] == done[i + 1];
        assert done[1..] == Completed(sessions[1..]);
      }
      MetStaysMet(policy, now, w, sessions[1..], removes, free);
    }
  }

  /** Removing the first completed session when the limits are not met. */
  lemma OldestIsDoomed(policy: Policy, now: int, w: Sweep, sessions: seq<Session>)
    requires sessions != [] && !sessions[0].incomplete && OldestFirst(sessions)
    requires !LimitsMet(policy, now, Completed(sessions), w.managed, w.available)
    ensures Doomed(policy, Cutoff(policy, now), w, sessions[0])
  {
    var done := Completed(sessions);
    if !TooLarge(policy, w.managed) && !TooFull(policy, w.available) {
      var i :| 0 <= i < |done| && done[i].modified < now - policy.maximumAgeSeconds;
      CompletedAreAmong(sessions, i);
      var at :| 0 <= at < |sessions| && sessions[at] == done[i];
      assert sessions[0].modified <= sessions[at].modified;
    }
  }

  /** `k` is the least number of oldest completed sessions whose removal meets the
      limits, or all of them when nothing less does. */
  ghost predicate Least(policy: Policy, now: int, w: Sweep, victims: seq<Session>, k: nat, free: FreeSpace) {
    && k <= |victims|
    && (k == |victims| || MetAfter(policy, now, w, victims, k, free))
    && forall j :: 0 <= j < k ==> !MetAfter(policy, now, w, victims, j, free)
  }

  lemma LeastStep(policy: Policy, now: int, w: Sweep, victims: seq<Session>, k: nat, free: FreeSpace,
    removes: File -> bool)
    requires victims != [] && !LimitsMet(policy, now, victims, w.managed, w.available)
    requires forall f :: removes(f)
    requires Least(policy, now, Delete(w, victims[0], removes, free), victims[1..], k, free)
    ensures Least(policy, now, w, victims, k + 1, free)
  {
    var s := victims[0];
    RemovesAll(s.files, removes);
    assert s.files[..|s.files|] == s.files;
    var next := Delete(w, s, removes, free);
    assert next.files == Without(w.files, s.files);
    forall j | 0 < j <= |victims|
      ensures MetAfter(policy, now, w, victims, j, free)
        <==> MetAfter(policy, now, next, victims[1..], j - 1, free)
    {
      GoneStep(w.files, victims, j);
      assert victims[j..] == victims[1..][j - 1..];
    }
    assert victims[0..] == victims;
  }

  /** `r` is `w` with the first `k` victims deleted. */
  ghost predicate Took(w: Sweep, r: Sweep, victims: seq<Session>, k: nat)
    requires k <= |victims|
  {
    && r.deleted == w.deleted + victims[..k] && r.errors == w.errors
    && r.files == Gone(w.files, victims, k) && r.managed == w.managed - Freed(victims, k)
  }

  lemma DeleteTakesOne(w: Sweep, s: Session, removes: File -> bool, free: FreeSpace)
    requires forall f :: removes(f)
    ensures Delete(w, s, removes, free)
      == Sweep(Without(w.files, s.files), w.managed - s.bytes, free(Without(w.files, s.files)),
               w.deleted + [s], w.errors)
  {
    RemovesAll(s.files, removes);
    assert s.files[..|s.files|] == s.files;
  }

  lemma OneMoreTaken(taken: seq<Session>, victims: seq<Session>, k: nat)
    requires k < |victims|
    ensures (taken + [victims[0]]) + victims[1..][..k] == taken + victims[..k + 1]
  {
    assert victims[..k + 1] == [victims[0]] + victims[1..][..k];
  }

  lemma TookOneMore(w: Sweep, next: Sweep, r: Sweep, victims: seq<Session>, k: nat)
    requires k < |victims| && Took(next, r, victims[1..], k)
    requires next.files == Without(w.files, victims[0].files) && next.managed == w.managed - victims[0].bytes
    requires next.deleted == w.deleted + [victims[0]] && next.errors == w.errors
    ensures Took(w, r, victims, k + 1)
  {
    GoneStep(w.files, victims, k + 1);
    OneMoreTaken(w.deleted, victims, k);
  }

  lemma TookNothing(w: Sweep, victims: seq<Session>)
    ensures Took(w, w, victims, 0)
  {
    assert w.deleted + victims[..0] == w.deleted;
  }

  lemma {:induction false} SweepTakesLeast(policy: Policy, now: int, w: Sweep, sessions: seq<Session>,
    removes: File -> bool, free: FreeSpace) returns (k: nat)
    requires OldestFirst(sessions) && forall f :: removes(f)
    ensures Least(policy, now, w, Completed(sessions), k, free)
    ensures Took(w, SweepAll(policy, Cutoff(policy, now), w, sessions, removes, free), Completed(sessions), k)
    decreases |sessions|
  {
    var done := Completed(sessions);
    if LimitsMet(policy, now, done, w.managed, w.available) {
      k := 0;
      MetStaysMet(policy, now, w, sessions, removes, free);
      TookNothing(w, done);
      assert done[0..] == done;
    } else if sessions == [] {
      k := 0;
      TookNothing(w, done);
    } else if sessions[0].incomplete {
      k := SweepTakesLeast(policy, now, w, sessions[1..], removes, free);
    } else {
      OldestIsDoomed(policy, now, w, sessions);
      var next := Delete(w, sessions[0], removes, free);
      assert done[1..] == Completed(sessions[1..]) && done[0] == sessions[0];
      var rest := SweepTakesLeast(policy, now, next, sessions[1..], removes, free);
      LeastStep(policy, now, w, done, rest, free, removes);
      DeleteTakesOne(w, sessions[0], removes, free);
      TookOneMore(w, next, SweepAll(policy, Cutoff(policy, now), next, sessions[1..], removes, free), done, rest);
      k := rest + 1;
    }
  }

  lemma ScanIsOldestFirst(sessions: seq<Session>, files: seq<File>)
    requires IsScan(sessions, files)
    ensures OldestFirst(sessions)
  {
  }

  /** With every delete succeeding, a cleaning removes exactly the shortest oldest-first
      run of completed sessions that meets the limits on age, total size and free
      space, and no incomplete session. */
  lemma ShortestOldestPrefix(policy: Policy, now: int, files: seq<File>, sessions: seq<Session>,
    removes: File -> bool, free: FreeSpace)
    requires IsScan(sessions, files) && forall f :: removes(f)
    ensures var w := Start(files, sessions, free);
      var deleted := SweepAll(policy, Cutoff(policy, now), w, sessions, removes, free).deleted;
      && deleted <= Completed(sessions)
      && Least(policy, now, w, Completed(sessions), |deleted|, free)
      && (forall i :: 0 <= i < |deleted| ==> !deleted[i].incomplete)
  {
    ScanIsOldestFirst(sessions, files);
    var w := Start(files, sessions, free);
    var k := SweepTakesLeast(policy, now, w, sessions, removes, free);
    var done := Completed(sessions);
    assert [] + done[..k] == done[..k];
    forall i | 0 <= i < k ensures !done[..k][i].incomplete {
      CompletedAreAmong(sessions, i);
    }
  }

  /** A cleaning of a directory that is within its limits removes nothing, whatever the
      deletes and the free space would do. */
  lemma WithinLimitsNothingGoes(policy: Policy, now: int, files: seq<File>, sessions: seq<Session>,
    removes: File -> bool, free: FreeSpace)
    requires LimitsMet(policy, now, Completed(sessions), Total(sessions), free(files))
    ensures var w := SweepAll(policy, Cutoff(policy, now), Start(files, sessions, free), sessions, removes, free);
      w.files == files && w.deleted == [] && w.errors == 0
  {
    MetStaysMet(policy, now, Start(files, sessions, free), sessions, removes, free);
  }

  /** With no limit set nothing ever goes. */
  lemma NoLimitNothingGoes(now: int, files: seq<File>, sessions: seq<Session>, removes: File -> bool, free: FreeSpace)
    ensures var policy := Policy(0, 0, 0);
      var w := SweepAll(policy, Cutoff(policy, now), Start(files, sessions, free), sessions, removes, free);
      w.files == files && w.deleted == [] && w.errors == 0
  {
    WithinLimitsNothingGoes(Policy(0, 0, 0), now, files, sessions, removes, free);
  }

  // ---- The report after a cleaning -------------------------------------------

  lemma {:induction false} FilesOfSession(files: seq<File>, stem: string, f: File)
    ensures match SessionOf(files, stem)
      case None => !(f in files && f.stem == stem)
      case Some(s) => f in s.files <==> f in files && f.stem == stem
  {
    if files != [] {
      FilesOfSession(files[..|files| - 1], stem, f);
      assert f in files <==> f in files[..|files| - 1] || f == files[|files| - 1];
    }
  }

  /** Deleting one stem's files leaves the other sessions as they were. */
  lemma {:induction false} OthersStay(files: seq<File>, gone: seq<File>, x: string, stem: string)
    requires forall i :: 0 <= i < |files| ==> (files[i] in gone <==> files[i].stem == x)
    ensures SessionOf(Without(files, gone), stem) == if stem == x then None else SessionOf(files, stem)
  {
    if files != [] {
      var front, last := files[..|files| - 1], files[|files| - 1];
      OthersStay(front, gone, x, stem);
      if last !in gone {
        var kept := Without(front, gone);
        assert (kept + [last])[..|kept|] == kept;
      }
    }
  }

  lemma SessionGone(files: seq<File>, v: Session, stem: string)
    requires SessionOf(files, v.stem) == Some(v)
    ensures SessionOf(Without(files, v.files), stem) == if stem == v.stem then None else SessionOf(files, stem)
  {
    forall i | 0 <= i < |files| ensures files[i] in v.files <==> files[i].stem == v.stem {
      FilesOfSession(files, v.stem, files[i]);
    }
    OthersStay(files, v.files, v.stem, stem);
  }

  function Drop(sessions: seq<Session>, v: Session): seq<Session> {
    if sessions == [] then []
    else if sessions[|sessions| - 1] == v then sessions[..|sessions| - 1]
    else Drop(sessions[..|sessions| - 1], v) + [sessions[|sessions| - 1]]
  }

  lemma FrontMembers(a: seq<Session>, s: Session)
    requires a != [] && Sorted(a)
    ensures s in a[..|a| - 1] <==> s in a && s != a[|a| - 1]
  {
    if s in a[..|a| - 1] {
      var i :| 0 <= i < |a| - 1 && a[i] == s;
      BeforeIsOrder(s, s, s);
    }
  }

  lemma {:induction false} DropMembers(sessions: seq<Session>, v: Session, s: Session)
    requires Sorted(sessions)
    ensures s in Drop(sessions, v) <==> s in sessions && s != v
  {
    if sessions != [] {
      DropMembers(sessions[..|sessions| - 1], v, s);
      FrontMembers(sessions, s);
    }
  }

  lemma {:induction false} DropKeepsSorted(sessions: seq<Session>, v: Session)
    requires Sorted(sessions)
    ensures Sorted(Drop(sessions, v))
    ensures v in sessions ==> Total(sessions) == Total(Drop(sessions, v)) + v.bytes
  {
    if sessions != [] {
      var front, last := sessions[..|sessions| - 1], sessions[|sessions| - 1];
      DropKeepsSorted(front, v);
      if last != v {
        var kept := Drop(front, v);
        forall i | 0 <= i < |kept| ensures Before(kept[i], last) {
          DropMembers(front, v, kept[i]);
        }
        assert (kept + [last])[..|kept|] == kept;
      }
    }
  }

  /** Deleting a session's files drops it, and nothing else, from the scan. */
  lemma ScanWithout(sessions: seq<Session>, files: seq<File>, v: Session)
    requires IsScan(sessions, files) && v in sessions
    ensures IsScan(Drop(sessions, v), Without(files, v.files))
    ensures Total(sessions) == Total(Drop(sessions, v)) + v.bytes
  {
    DropKeepsSorted(sessions, v);
    var left, kept := Without(files, v.files), Drop(sessions, v);
    forall i | 0 <= i < |kept| ensures SessionOf(left, kept[i].stem) == Some(kept[i]) {
      DropMembers(sessions, v, kept[i]);
      SessionGone(files, v, kept[i].stem);
    }
    forall stem | SessionOf(left, stem).Some? ensures exists i :: 0 <= i < |kept| && kept[i].stem == stem {
      SessionGone(files, v, stem);
      var i :| 0 <= i < |sessions| && sessions[i].stem == stem;
      DropMembers(sessions, v, sessions[i]);
    }
  }

  lemma DropNext(before: seq<Session>, sessions: seq<Session>, done: seq<Session>, k: nat, s: Session)
    requires 0 < k <= |done| && Sorted(before)
    requires s in before <==> s in sessions && s !in done[..k - 1]
    ensures s in Drop(before, done[k - 1]) <==> s in sessions && s !in done[..k]
  {
    DropMembers(before, done[k - 1], s);
    assert done[..k] == done[..k - 1] + [done[k - 1]];
  }

  lemma NextIsLeft(sessions: seq<Session>, k: nat)
    requires Sorted(sessions) && 0 < k <= |Completed(sessions)|
    ensures var v := Completed(sessions)[k - 1]; v in sessions && v !in Completed(sessions)[..k - 1]
  {
    CompletedAreAmong(sessions, k - 1);
    CompletedAreDistinct(sessions);
  }

  /** The scan after the `k` oldest completed sessions are gone. */
  lemma {:induction false} ScanAfter(sessions: seq<Session>, files: seq<File>, k: nat) returns (left: seq<Session>)
    requires IsScan(sessions, files) && k <= |Completed(sessions)|
    ensures IsScan(left, Gone(files, Completed(sessions), k))
    ensures Total(left) == Total(sessions) - Freed(Completed(sessions), k)
    ensures forall s :: s in left <==> s in sessions && s !in Completed(sessions)[..k]
  {
    if k == 0 {
      left := sessions;
    } else {
      var done := Completed(sessions);
      var before := ScanAfter(sessions, files, k - 1);
      NextIsLeft(sessions, k);
      ScanWithout(before, Gone(files, done, k - 1), done[k - 1]);
      left := Drop(before, done[k - 1]);
      forall s ensures s in left <==> s in sessions && s !in done[..k] {
        DropNext(before, sessions, done, k, s);
      }
    }
  }

  lemma {:induction false} CompletedAreDistinct(sessions: seq<Session>)
    requires Sorted(sessions)
    ensures Sorted(Completed(sessions))
    ensures forall i, j :: 0 <= i < j < |Completed(sessions)| ==> Completed(sessions)[i] != Completed(sessions)[j]
  {
    if sessions != [] {
      CompletedAreDistinct(sessions[1..]);
      var rest := Completed(sessions[1..]);
      forall i | 0 <= i < |rest| ensures Before(sessions[0], rest[i]) && sessions[0] != rest[i] {
        CompletedAreAmong(sessions[1..], i);
        TailMembers(sessions, rest[i]);
        BeforeIsOrder(sessions[0], rest[i], rest[i]);
      }
    }
  }

  lemma {:induction false} CompletedHasAll(sessions: seq<Session>, s: Session)
    ensures s in Completed(sessions) <==> s in sessions && !s.incomplete
  {
    if sessions != [] {
      CompletedHasAll(sessions[1..], s);
      assert s in sessions <==> s == sessions[0] || s in sessions[1..];
    }
  }

  /** With every delete succeeding and storage information at hand, a cleaning reports
      trouble only when every session that survives is incomplete. */
  lemma UnhealthyOnlyIfAllIncomplete(policy: Policy, now: int, files: seq<File>, sessions: seq<Session>,
    survivors: seq<Session>, removes: File -> bool, free: FreeSpace)
    requires IsScan(sessions, files) && forall f :: removes(f)
    requires forall fs :: free(fs) >= 0
    requires var w := SweepAll(policy, Cutoff(policy, now), Start(files, sessions, free), sessions, removes, free);
      IsScan(survivors, w.files)
      && ProblemAfter(policy, Total(survivors), free(w.files), w.errors) != NoProblem
    ensures forall s :: s in survivors ==> s.incomplete
  {
    ScanIsOldestFirst(sessions, files);
    var start := Start(files, sessions, free);
    var k := SweepTakesLeast(policy, now, start, sessions, removes, free);
    var left := ScanAfter(sessions, files, k);
    var w := SweepAll(policy, Cutoff(policy, now), start, sessions, removes, free);
    ScanIsUnique(left, survivors, w.files);
    var done := Completed(sessions);
    assert k == |done|;
    forall s | s in survivors ensures s.incomplete {
      CompletedHasAll(sessions, s);
      assert done[..k] == done;
    }
  }

  // ---- Sizes and times -------------------------------------------------------

  /** The bytes of all files. */
  function Size(files: seq<File>): nat {
    if files == [] then 0 else Size(files[..|files| - 1]) + files[|files| - 1].bytes
  }

  function FilesOf(files: seq<File>, stem: string): seq<File> {
    if files == [] then []
    else
      var front, last := FilesOf(files[..|files| - 1], stem), files[|files| - 1];
      if last.stem == stem then front + [last] else front
  }

  /** A session is as large as its files together, and as recent as its newest file. */
  lemma {:induction false} SessionIsItsFiles(files: seq<File>, stem: string)
    requires SessionOf(files, stem).Some?
    ensures SessionOf(files, stem).value.stem == stem && IsMadeOf(SessionOf(files, stem).value, FilesOf(files, stem))
  {
    var front, last := files[..|files| - 1], files[|files| - 1];
    if SessionOf(front, stem).Some? {
      SessionIsItsFiles(front, stem);
      AddedIsMade(SessionOf(front, stem).value, FilesOf(front, stem), last);
    } else {
      NoFilesOf(front, stem);
      OneIsMade(stem, last);
    }
  }

  ghost predicate IsMadeOf(s: Session, files: seq<File>) {
    && s.files == files && files != [] && s.bytes == Size(files)
    && (forall i :: 0 <= i < |files| ==> files[i].modified <= s.modified)
    && (exists i :: 0 <= i < |files| && files[i].modified == s.modified)
  }

  lemma OneIsMade(stem: string, f: File)
    ensures IsMadeOf(Session(stem, [f], f.bytes, f.modified, f.kind.Active?), [] + [f])
  {
    assert [] + [f] == [f] && [f][..0] == [];
    assert Size([f]) == Size([f][..0]) + f.bytes;
    assert [f][0].modified == f.modified;
  }

  lemma AddedIsMade(was: Session, files: seq<File>, f: File)
    requires IsMadeOf(was, files)
    ensures IsMadeOf(AddFile(was, f), files + [f])
  {
    var all := files + [f];
    assert all[..|files|] == files;
    var i :| 0 <= i < |files| && files[i].modified == was.modified;
    assert all[i].modified == was.modified && all[|files|].modified == f.modified;
  }

  lemma {:induction false} NoFilesOf(files: seq<File>, stem: string)
    requires SessionOf(files, stem).None?
    ensures FilesOf(files, stem) == []
  {
    if files != [] { NoFilesOf(files[..|files| - 1], stem); }
  }

  /** Taking one stem's files away takes their bytes away. */
  lemma {:induction false} SizeWithout(files: seq<File>, gone: seq<File>, stem: string)
    requires forall i :: 0 <= i < |files| ==> (files[i] in gone <==> files[i].stem == stem)
    ensures Size(files) == Size(Without(files, gone)) + Size(FilesOf(files, stem))
  {
    if files != [] {
      var front, last := files[..|files| - 1], files[|files| - 1];
      SizeWithout(front, gone, stem);
      assert last in gone <==> last.stem == stem;
      SizeNext(Without(front, gone), last);
      SizeNext(FilesOf(front, stem), last);
    }
  }

  lemma SizeNext(files: seq<File>, last: File)
    ensures Size(files + [last]) == Size(files) + last.bytes
  {
    assert (files + [last])[..|files|] == files;
  }

  lemma NoSessionNoFile(files: seq<File>)
    requires IsScan([], files)
    ensures files == []
  {
    if files != [] {
      FilesOfSession(files, files[0].stem, files[0]);
    }
  }

  /** What the sessions of a directory are reported to take is what its files take. */
  lemma {:induction false} TotalIsSize(sessions: seq<Session>, files: seq<File>)
    requires IsScan(sessions, files)
    ensures Total(sessions) == Size(files)
    decreases |sessions|
  {
    if sessions == [] {
      NoSessionNoFile(files);
    } else {
      var v := sessions[0];
      assert SessionOf(files, v.stem) == Some(v);
      ScanWithout(sessions, files, v);
      DropIsShorter(sessions, v);
      TotalIsSize(Drop(sessions, v), Without(files, v.files));
      SessionIsItsFiles(files, v.stem);
      forall i | 0 <= i < |files| ensures files[i] in v.files <==> files[i].stem == v.stem {
        FilesOfSession(files, v.stem, files[i]);
      }
      SizeWithout(files, v.files, v.stem);
    }
  }

  lemma {:induction false} DropIsShorter(sessions: seq<Session>, v: Session)
    requires v in sessions
    ensures |Drop(sessions, v)| < |sessions|
  {
    if sessions[|sessions| - 1] != v { DropIsShorter(sessions[..|sessions| - 1], v); }
  }

  // ---- Deletes that fail -----------------------------------------------------

  lemma {:induction false} RemovesUpTo(files: seq<File>, removes: File -> bool)
    ensures var n := Removable(files, removes);
      && (forall i :: 0 <= i < n ==> removes(files[i])) && (n < |files| ==> !removes(files[n]))
  {
    if files != [] && removes(files[0]) {
      RemovesUpTo(files[1..], removes);
      var n := Removable(files[1..], removes);
      forall i | 0 <= i < n + 1 ensures removes(files[i]) {
        if i > 0 { assert files[i] == files[1..][i - 1]; }
      }
    }
  }

  /** A session is deleted, and its bytes are counted as freed, exactly when each of its
      files lets itself be removed; otherwise one error is counted and only the files
      before the one that refuses are gone. */
  lemma DeletedIff(w: Sweep, s: Session, removes: File -> bool, free: FreeSpace)
    ensures var r := Delete(w, s, removes, free);
      if forall i :: 0 <= i < |s.files| ==> removes(s.files[i]) then
        && r.deleted == w.deleted + [s] && r.managed == w.managed - s.bytes && r.errors == w.errors
        && (forall f :: f in r.files <==> f in w.files && f !in s.files) && r.available == free(r.files)
      else
        && r.deleted == w.deleted && r.managed == w.managed && r.errors == w.errors + 1
        && r.available == w.available
        && exists n :: 0 <= n < |s.files| && !removes(s.files[n]) && FirstAreGone(w.files, r.files, s.files, n)
  {
    RemovesUpTo(s.files, removes);
    var n := Removable(s.files, removes);
    assert s.files[..|s.files|] == s.files;
    if n < |s.files| { assert FirstAreGone(w.files, Delete(w, s, removes, free).files, s.files, n); }
  }

  ghost predicate FirstAreGone(before: seq<File>, after: seq<File>, files: seq<File>, n: nat)
    requires n <= |files|
  {
    forall f :: f in after <==> f in before && f !in files[..n]
  }

  // ---- The report ------------------------------------------------------------

  /** What a cleaning reports, in numbers: a failed delete before all else; healthy
      exactly when free space is known and enough and the quota is kept. */
  lemma ReportIs(policy: Policy, managed: int, available: int, errors: nat)
    ensures var p := ProblemAfter(policy, managed, available, errors);
      && (p == DeleteFailed <==> errors != 0)
      && (p == NoProblem <==>
            && errors == 0 && available >= 0 && available >= policy.minimumFreeBytes
            && (policy.maximumTotalBytes > 0 ==> managed <= policy.maximumTotalBytes))
      && (p == NoStorageInformation <==> errors == 0 && available <= -1)
      && p != NoDirectory
  {
  }

  /** The sessions reported as incomplete are those with that mark, but for the active one. */
  lemma {:induction false} IncompleteAreCounted(sessions: seq<Session>, activeStem: string)
    requires Sorted(sessions)
    ensures Incomplete(sessions, activeStem) == |Marked(sessions, activeStem)|
    decreases |sessions|
  {
    if sessions != [] {
      var front, last := sessions[..|sessions| - 1], sessions[|sessions| - 1];
      IncompleteAreCounted(front, activeStem);
      FrontMembers(sessions, last);
      MarkedNext(front, last, activeStem);
      assert sessions == front + [last];
    }
  }

  function Marked(sessions: seq<Session>, activeStem: string): set<Session> {
    set s | s in sessions && s.incomplete && s.stem != activeStem
  }

  lemma MarkedNext(front: seq<Session>, last: Session, activeStem: string)
    requires last !in front
    ensures |Marked(front + [last], activeStem)|
         == |Marked(front, activeStem)| + if last.incomplete && last.stem != activeStem then 1 else 0
  {
    assert Marked(front + [last], activeStem)
      == Marked(front, activeStem) + if last.incomplete && last.stem != activeStem then {last} else {};
  }

  ghost predicate Decides(a: string, b: string, k: nat) {
    k < |a| && k < |b| && a[..k] == b[..k] && a[k] < b[k]
  }

  lemma DecidesBehind(a: string, b: string, k: nat)
    requires a != [] && b != [] && a[0] == b[0]
    ensures Decides(a, b, k + 1) <==> Decides(a[1..], b[1..], k)
  {
    if k + 1 < |a| && k + 1 < |b| {
      assert a[..k + 1] == [a[0]] + a[1..][..k] && b[..k + 1] == [b[0]] + b[1..][..k];
      assert a[1..][..k] == a[..k + 1][1..] && b[1..][..k] == b[..k + 1][1..];
    }
  }

  /** Where two stems differ first, the character that comes first decides; a stem that
      goes on comes after. */
  lemma {:induction false} LessIs(a: string, b: string)
    ensures Less(a, b) <==> a < b || exists k: nat :: Decides(a, b, k)
    decreases |a|
  {
    if a != [] && b != [] && a[0] == b[0] {
      LessIs(a[1..], b[1..]);
      assert a == [a[0]] + a[1..] && b == [b[0]] + b[1..];
      if exists k: nat :: Decides(a[1..], b[1..], k) {
        var k: nat :| Decides(a[1..], b[1..], k);
        DecidesBehind(a, b, k);
      }
      if exists k: nat :: Decides(a, b, k) {
        var k: nat :| Decides(a, b, k);
        DecidesBehind(a, b, k - 1);
      }
    } else if a != [] && b != [] {
      assert Decides(a, b, 0) <==> a[0] < b[0];
    }
  }
}
