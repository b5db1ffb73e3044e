/** Retention of recorded sessions: which of them are deleted, oldest first, to meet
    the limits on age, total size and free space. */
module LogStorage {
  import opened Options

  datatype Kind = CanLog | Active | Mf4

  /** A session file; its name is the stem with the suffix of its kind. */
  datatype File = File(stem: string, kind: Kind, bytes: nat, modified: int)

  datatype Session = Session(stem: string, files: seq<File>, bytes: nat, modified: int, incomplete: bool)

  datatype Policy = Policy(minimumFreeBytes: nat, maximumTotalBytes: nat, maximumAgeSeconds: nat)

  // ---- Grouping the directory into sessions ----------------------------------

  function AddFile(s: Session, f: File): Session {
    Session(s.stem, s.files + [f], s.bytes + f.bytes, if f.modified > s.modified then f.modified else s.modified,
            s.incomplete || f.kind.Active?)
  }

  /** The files of a stem taken together; `None` when there are none. */
  function SessionOf(files: seq<File>, stem: string): (r: Option<Session>)
    ensures r.Some? ==> r.value.stem == stem
  {
    if files == [] then None
    else
      var before, f := SessionOf(files[..|files| - 1], stem), files[|files| - 1];
      if f.stem != stem then before
      else if before.None? then Some(Session(stem, [f], f.bytes, f.modified, f.kind.Active?))
      else Some(AddFile(before.value, f))
  }

  predicate Less(a: string, b: string) {
    if b == [] then false
    else if a == [] then true
    else if a[0] != b[0] then a[0] < b[0]
    else Less(a[1..], b[1..])
  }

  lemma {:induction false} LessIsTotal(a: string, b: string)
    ensures Less(a, b) || Less(b, a) || a == b
    ensures !(Less(a, b) && Less(b, a)) && !Less(a, a)
  {
    if a != [] && b != [] {
      LessIsTotal(a[1..], b[1..]);
      LessIsTotal(a[1..], a[1..]);
      if a[0] == b[0] && a[1..] == b[1..] { assert a == [a[0]] + a[1..] && b == [b[0]] + b[1..]; }
    } else if a != [] {
      LessIsTotal(a[1..], a[1..]);
    }
  }

  lemma {:induction false} LessIsTransitive(a: string, b: string, c: string)
    requires Less(a, b) && Less(b, c)
    ensures Less(a, c)
  {
    if a != [] && a[0] == b[0] == c[0] {
      LessIsTransitive(a[1..], b[1..], c[1..]);
    }
  }

  /** The order of cleaning: least recently modified first, then by name. */
  predicate Before(a: Session, b: Session) {
    a.modified < b.modified || (a.modified == b.modified && Less(a.stem, b.stem))
  }

  lemma BeforeIsOrder(a: Session, b: Session, c: Session)
    ensures a.stem != b.stem ==> Before(a, b) || Before(b, a)
    ensures !(Before(a, b) && Before(b, a)) && !Before(a, a)
    ensures Before(a, b) && Before(b, c) ==> Before(a, c)
  {
    LessIsTotal(a.stem, b.stem);
    LessIsTotal(a.stem, a.stem);
    if Less(a.stem, b.stem) && Less(b.stem, c.stem) { LessIsTransitive(a.stem, b.stem, c.stem); }
  }

  ghost predicate Sorted(sessions: seq<Session>) {
    forall i, j :: 0 <= i < j < |sessions| ==> Before(sessions[i], sessions[j])
  }

  /** `sessions` lists the sessions of the directory in the order of cleaning. */
  ghost predicate IsScan(sessions: seq<Session>, files: seq<File>) {
    && Sorted(sessions)
    && (forall i :: 0 <= i < |sessions| ==> SessionOf(files, sessions[i].stem) == Some(sessions[i]))
    && forall stem :: SessionOf(files, stem).Some? ==> exists i :: 0 <= i < |sessions| && sessions[i].stem == stem
  }

  lemma HasMember(a: seq<Session>)
    ensures a == [] || exists s :: s in a
  {
    if a != [] { assert a[0] in a; }
  }

  lemma {:induction false} SortedIsUnique(a: seq<Session>, b: seq<Session>)
    requires Sorted(a) && Sorted(b) && forall s :: s in a <==> s in b
    ensures a == b
  {
    if a == [] {
      HasMember(b);
    } else {
      assert a[0] in b;
      assert b[0] in a;
      BeforeIsOrder(a[0], b[0], a[0]);
      forall s ensures s in a[1..] <==> s in b[1..] {
        TailMembers(a, s);
        TailMembers(b, s);
      }
      SortedIsUnique(a[1..], b[1..]);
      assert a == [a[0]] + a[1..] && b == [b[0]] + b[1..];
    }
  }

  lemma TailMembers(a: seq<Session>, s: Session)
    requires a != [] && Sorted(a)
    ensures s in a[1..] <==> s in a && s != a[0]
  {
    if s in a[1..] {
      var i :| 0 <= i < |a[1..]| && a[1..][i] == s;
      assert a[i + 1] == s;
      BeforeIsOrder(a[0], s, s);
    }
  }

  /** A directory has one scan: the order of the hash it is grouped in is not seen. */
  lemma ScanIsUnique(a: seq<Session>, b: seq<Session>, files: seq<File>)
    requires IsScan(a, files) && IsScan(b, files)
    ensures a == b
  {
    forall s ensures s in a <==> s in b {
      if s in a { InOtherScan(s, a, b, files); }
      if s in b { InOtherScan(s, b, a, files); }
    }
    SortedIsUnique(a, b);
  }

  lemma InOtherScan(s: Session, a: seq<Session>, b: seq<Session>, files: seq<File>)
    requires IsScan(a, files) && IsScan(b, files) && s in a
    ensures s in b
  {
    assert SessionOf(files, s.stem) == Some(s);
    var i :| 0 <= i < |b| && b[i].stem == s.stem;
    assert b[i] == s;
  }

  function Insert(s: Session, sorted: seq<Session>): seq<Session> {
    if sorted == [] || Before(s, sorted[0]) then [s] + sorted else [sorted[0]] + Insert(s, sorted[1..])
  }

  lemma {:induction false} InsertMembers(s: Session, sorted: seq<Session>, x: Session)
    ensures x in Insert(s, sorted) <==> x == s || x in sorted
  {
    if sorted != [] && !Before(s, sorted[0]) {
      InsertMembers(s, sorted[1..], x);
      assert x in sorted <==> x == sorted[0] || x in sorted[1..];
    }
  }

  lemma {:induction false} InsertKeepsSorted(s: Session, sorted: seq<Session>)
    requires Sorted(sorted) && forall i :: 0 <= i < |sorted| ==> sorted[i].stem != s.stem
    ensures Sorted(Insert(s, sorted))
  {
    if sorted != [] {
      BeforeIsOrder(s, sorted[0], s);
      if Before(s, sorted[0]) {
        forall i | 0 <= i < |sorted| ensures Before(s, sorted[i]) {
          BeforeIsOrder(s, sorted[0], sorted[i]);
        }
      } else {
        InsertKeepsSorted(s, sorted[1..]);
        var rest := Insert(s, sorted[1..]);
        forall i | 0 <= i < |rest| ensures Before(sorted[0], rest[i]) {
          InsertMembers(s, sorted[1..], rest[i]);
          BeforeIsOrder(sorted[0], s, s);
        }
      }
    }
  }

  method GroupByStem(files: seq<File>) returns (byStem: map<string, Session>)
    ensures forall stem :: stem in byStem <==> SessionOf(files, stem).Some?
    ensures forall stem :: stem in byStem ==> SessionOf(files, stem) == Some(byStem[stem])
  {
    byStem := map[];
    for i := 0 to |files|
      invariant forall stem :: stem in byStem <==> SessionOf(files[..i], stem).Some?
      invariant forall stem :: stem in byStem ==> SessionOf(files[..i], stem) == Some(byStem[stem])
    {
      assert files[..i + 1][..i] == files[..i];
      var f := files[i];
      var session := if f.stem in byStem then AddFile(byStem[f.stem], f)
                     else Session(f.stem, [f], f.bytes, f.modified, f.kind.Active?);
      byStem := byStem[f.stem := session];
    }
    assert files[..|files|] == files;
  }

  /** `std::sort` over the values of the hash, in whatever order they come. */
  method ScanSessions(files: seq<File>) returns (sessions: seq<Session>)
    ensures IsScan(sessions, files)
  {
    var byStem := GroupByStem(files);
    sessions := [];
    var left := byStem.Keys;
    while left != {}
      invariant left <= byStem.Keys
      invariant Sorted(sessions)
      invariant forall x :: x in sessions <==> x.stem in byStem && x.stem !in left && byStem[x.stem] == x
      decreases left
    {
      var stem :| stem in left;
      var s := byStem[stem];
      assert SessionOf(files, stem) == Some(s);
      ghost var before := sessions;
      forall x ensures x in Insert(s, before) <==> x == s || x in before {
        InsertMembers(s, before, x);
      }
      forall i | 0 <= i < |before| ensures before[i].stem != s.stem {
        assert before[i] in before;
      }
      InsertKeepsSorted(s, sessions);
      sessions := Insert(s, sessions);
      left := left - {stem};
    }
    forall stem | SessionOf(files, stem).Some?
      ensures exists i :: 0 <= i < |sessions| && sessions[i].stem == stem
    {
      assert byStem[stem] in sessions;
    }
    forall i | 0 <= i < |sessions| ensures SessionOf(files, sessions[i].stem) == Some(sessions[i]) {
      assert sessions[i] in sessions;
    }
  }

  function Total(sessions: seq<Session>): nat {
    if sessions == [] then 0 else Total(sessions[..|sessions| - 1]) + sessions[|sessions| - 1].bytes
  }

  method TotalBytes(sessions: seq<Session>) returns (total: nat)
    ensures total == Total(sessions)
  {
    total := 0;
    for i := 0 to |sessions|
      invariant total == Total(sessions[..i])
    {
      assert sessions[..i + 1][..i] == sessions[..i];
      total := total + sessions[i].bytes;
    }
    assert sessions[..|sessions|] == sessions;
  }

  // ---- The sweep -------------------------------------------------------------

  /** The directory while it is swept.  Free space is what the file system reports for
      the files that remain, negative when it cannot tell. */
  datatype Sweep = Sweep(files: seq<File>, managed: int, available: int, deleted: seq<Session>, errors: nat)

  type FreeSpace = seq<File> -> int

  function Cutoff(policy: Policy, now: int): Option<int> {
    if policy.maximumAgeSeconds > 0 then Some(now - policy.maximumAgeSeconds) else None
  }

  predicate TooOld(cutoff: Option<int>, s: Session) { cutoff.Some? && s.modified < cutoff.value }

  predicate TooLarge(policy: Policy, managed: int) {
    policy.maximumTotalBytes > 0 && managed > policy.maximumTotalBytes
  }

  predicate TooFull(policy: Policy, available: int) { 0 <= available < policy.minimumFreeBytes }

  function Without(files: seq<File>, gone: seq<File>): (r: seq<File>)
    ensures forall f :: f in r <==> f in files && f !in gone
  {
    if files == [] then []
    else
      var front, last := Without(files[..|files| - 1], gone), files[|files| - 1];
      if last in gone then front else front + [last]
  }

  /** How many of the files go before one refuses. */
  function Removable(files: seq<File>, removes: File -> bool): (n: nat)
    ensures n <= |files|
  {
    if files == [] || !removes(files[0]) then 0 else 1 + Removable(files[1..], removes)
  }

  predicate Doomed(policy: Policy, cutoff: Option<int>, w: Sweep, s: Session) {
    !s.incomplete && (TooOld(cutoff, s) || TooLarge(policy, w.managed) || TooFull(policy, w.available))
  }

  function Delete(w: Sweep, s: Session, removes: File -> bool, free: FreeSpace): Sweep {
    var n := Removable(s.files, removes);
    var files := Without(w.files, s.files[..n]);
    if n < |s.files| then w.(files := files, errors := w.errors + 1)
    else Sweep(files, w.managed - s.bytes, free(files), w.deleted + [s], w.errors)
  }

  function SweepAll(policy: Policy, cutoff: Option<int>, w: Sweep, sessions: seq<Session>,
    removes: File -> bool, free: FreeSpace): Sweep
    decreases |sessions|
  {
    if sessions == [] then w
    else
      var next := if Doomed(policy, cutoff, w, sessions[0]) then Delete(w, sessions[0], removes, free) else w;
      SweepAll(policy, cutoff, next, sessions[1..], removes, free)
  }

  function Start(files: seq<File>, sessions: seq<Session>, free: FreeSpace): Sweep {
    Sweep(files, Total(sessions), free(files), [], 0)
  }

  lemma RemoveOne(files: seq<File>, gone: seq<File>, i: nat, removes: File -> bool)
    requires i < |gone| && removes(gone[i])
    ensures Without(Without(files, gone[..i]), [gone[i]]) == Without(files, gone[..i + 1])
    ensures Removable(gone[i..], removes) == 1 + Removable(gone[i + 1..], removes)
  {
    WithoutMore(files, gone[..i], gone[i]);
    assert gone[..i] + [gone[i]] == gone[..i + 1];
    assert gone[i..][1..] == gone[i + 1..];
  }

  // ---- The manager object ----------------------------------------------------

  /** The last error; a manager without one is healthy after a cleaning. */
  datatype Problem = NoProblem | DeleteFailed | NoStorageInformation | OnlyIncompleteLeft | NoDirectory

  predicate WithinLimits(policy: Policy, managed: int, available: int) {
    && 0 <= available && available >= policy.minimumFreeBytes
    && (policy.maximumTotalBytes == 0 || managed <= policy.maximumTotalBytes)
  }

  function ProblemAfter(policy: Policy, managed: int, available: int, errors: nat): Problem {
    if errors > 0 then DeleteFailed
    else if WithinLimits(policy, managed, available) then NoProblem
    else if available < 0 then NoStorageInformation
    else OnlyIncompleteLeft
  }

  function Incomplete(sessions: seq<Session>, activeStem: string): nat {
    if sessions == [] then 0
    else
      var last := sessions[|sessions| - 1];
      Incomplete(sessions[..|sessions| - 1], activeStem) + (if last.incomplete && last.stem != activeStem then 1 else 0)
  }

  class LogStorageManager {
    var configured: bool
    var policy: Policy
    var healthy: bool
    var availableBytes: int
    var managedBytes: int
    var sessionCount: nat
    var incompleteSessionCount: nat
    var cleanupErrorCount: nat
    var lastError: Problem
    var lastDeletedSessions: seq<string>

    constructor ()
      ensures !configured && !healthy && cleanupErrorCount == 0
    {
      configured, healthy := false, false;
      policy := Policy(0, 0, 0);
      availableBytes, managedBytes := -1, 0;
      sessionCount, incompleteSessionCount, cleanupErrorCount := 0, 0, 0;
      lastError := NoProblem;
      lastDeletedSessions := [];
    }

    method Configure(p: Policy)
      modifies this`configured, this`policy
      ensures configured && policy == p
    {
      configured, policy := true, p;
    }

    /** Deletes the files of a session until one refuses. */
    method RemoveFiles(w: Sweep, s: Session, removes: File -> bool) returns (files: seq<File>, all: bool)
      modifies this`cleanupErrorCount, this`lastError
      ensures var n := Removable(s.files, removes);
        files == Without(w.files, s.files[..n]) && all == (n == |s.files|)
      ensures if all then cleanupErrorCount == old(cleanupErrorCount) && lastError == old(lastError)
              else cleanupErrorCount == old(cleanupErrorCount) + 1 && lastError == DeleteFailed
    {
      files, all := w.files, true;
      var i := 0;
      WithoutNothing(w.files);
      while i < |s.files| && all
        invariant i <= |s.files|
        invariant files == Without(w.files, s.files[..i])
        invariant Removable(s.files, removes) == i + if all then Removable(s.files[i..], removes) else 0
        invariant all ==> cleanupErrorCount == old(cleanupErrorCount) && lastError == old(lastError)
        invariant !all ==> i < |s.files| && cleanupErrorCount == old(cleanupErrorCount) + 1 && lastError == DeleteFailed
        decreases |s.files| - i, all
      {
        if removes(s.files[i]) {
          RemoveOne(w.files, s.files, i, removes);
          files := Without(files, [s.files[i]]);
          i := i + 1;
        } else {
          all := false;
          lastError := DeleteFailed;
          cleanupErrorCount := cleanupErrorCount + 1;
        }
      }
    }

    /** One round of the loop over the sessions. */
    method SweepOne(w: Sweep, s: Session, cutoff: Option<int>, removes: File -> bool, free: FreeSpace)
      returns (next: Sweep)
      requires lastDeletedSessions == Stems(w.deleted)
      modifies this`cleanupErrorCount, this`lastError, this`lastDeletedSessions
      ensures next == if Doomed(policy, cutoff, w, s) then Delete(w, s, removes, free) else w
      ensures lastDeletedSessions == Stems(next.deleted)
      ensures cleanupErrorCount + w.errors == old(cleanupErrorCount) + next.errors
      ensures lastError == if next.errors > w.errors then DeleteFailed else old(lastError)
    {
      if !Doomed(policy, cutoff, w, s) { return w; }
      var files, removed := RemoveFiles(w, s, removes);
      if !removed { return w.(files := files, errors := w.errors + 1); }
      assert s.files[..|s.files|] == s.files;
      StemsAppend(w.deleted, s);
      lastDeletedSessions := lastDeletedSessions + [s.stem];
      return Sweep(files, w.managed - s.bytes, free(files), w.deleted + [s], w.errors);
    }

    /** The loop over the sessions. */
    method SweepSessions(start: Sweep, sessions: seq<Session>, cutoff: Option<int>, removes: File -> bool,
      free: FreeSpace)
      returns (w: Sweep)
      requires start.errors == 0 && start.deleted == [] && lastDeletedSessions == [] && lastError == NoProblem
      modifies this`cleanupErrorCount, this`lastError, this`lastDeletedSessions
      ensures w == SweepAll(policy, cutoff, start, sessions, removes, free)
      ensures lastDeletedSessions == Stems(w.deleted)
      ensures cleanupErrorCount == old(cleanupErrorCount) + w.errors
      ensures lastError == if w.errors > 0 then DeleteFailed else NoProblem
    {
      w := start;
      var i := 0;
      assert sessions[0..] == sessions;
      while i < |sessions|
        invariant i <= |sessions|
        invariant SweepAll(policy, cutoff, start, sessions, removes, free)
               == SweepAll(policy, cutoff, w, sessions[i..], removes, free)
        invariant lastDeletedSessions == Stems(w.deleted)
        invariant cleanupErrorCount == old(cleanupErrorCount) + w.errors
        invariant lastError == if w.errors > 0 then DeleteFailed else NoProblem
      {
        assert sessions[i..][0] == sessions[i] && sessions[i..][1..] == sessions[i + 1..];
        w := SweepOne(w, sessions[i], cutoff, removes, free);
        i := i + 1;
      }
    }

    /** What is reported about the files that remain. */
    method Assess(remaining: seq<File>, activeStem: string, available: int) returns (ghost survivors: seq<Session>)
      requires lastError == NoProblem || lastError == DeleteFailed
      modifies this`managedBytes, this`sessionCount, this`incompleteSessionCount, this`availableBytes, this`healthy,
        this`lastError
      ensures IsScan(survivors, remaining)
      ensures managedBytes == Total(survivors) && sessionCount == |survivors|
      ensures incompleteSessionCount == Incomplete(survivors, activeStem) && availableBytes == available
      ensures lastError
        == ProblemAfter(policy, managedBytes, availableBytes, if old(lastError) == NoProblem then 0 else 1)
      ensures healthy == (lastError == NoProblem)
    {
      var sessions := ScanSessions(remaining);
      survivors := sessions;
      managedBytes := TotalBytes(sessions);
      sessionCount := |sessions|;
      incompleteSessionCount := CountIncomplete(sessions, activeStem);
      availableBytes := available;
      healthy := WithinLimits(policy, managedBytes, availableBytes) && lastError == NoProblem;
      if !healthy && lastError == NoProblem {
        lastError := if availableBytes < 0 then NoStorageInformation else OnlyIncompleteLeft;
      }
    }

    /** `present` says whether the directory exists or could be made.  The files that
        remain are returned. */
    method Enforce(present: bool, files: seq<File>, now: int, activeStem: string, removes: File -> bool,
      free: FreeSpace)
      returns (ok: bool, remaining: seq<File>, ghost sessions: seq<Session>, ghost survivors: seq<Session>,
        ghost w: Sweep)
      modifies this
      ensures configured == old(configured) && policy == old(policy)
      ensures !configured || !present ==> !ok && remaining == files && lastDeletedSessions == []
      ensures configured && !present ==> !healthy && cleanupErrorCount == old(cleanupErrorCount) + 1
      ensures configured && present ==>
        && IsScan(sessions, files) && IsScan(survivors, remaining)
        && w == SweepAll(policy, Cutoff(policy, now), Start(files, sessions, free), sessions, removes, free)
        && remaining == w.files && lastDeletedSessions == Stems(w.deleted)
        && cleanupErrorCount == old(cleanupErrorCount) + w.errors
        && managedBytes == Total(survivors) && sessionCount == |survivors|
        && incompleteSessionCount == Incomplete(survivors, activeStem) && availableBytes == free(remaining)
        && lastError == ProblemAfter(policy, managedBytes, availableBytes, w.errors)
        && ok == healthy == (lastError == NoProblem)
    {
      lastDeletedSessions, lastError := [], NoProblem;
      sessions, survivors, w := [], [], Sweep([], 0, 0, [], 0);
      if !configured { return false, files, [], [], w; }
      if !present {
        lastError, cleanupErrorCount, healthy := NoDirectory, cleanupErrorCount + 1, false;
        return false, files, [], [], w;
      }
      var found := ScanSessions(files);
      sessions := found;
      var managed := TotalBytes(found);
      var after := SweepSessions(Sweep(files, managed, free(files), [], 0), found, Cutoff(policy, now), removes, free);
      w := after;
      remaining := after.files;
      survivors := Assess(remaining, activeStem, free(remaining));
      ok := healthy;
    }
  }

  method CountIncomplete(sessions: seq<Session>, activeStem: string) returns (count: nat)
    ensures count == Incomplete(sessions, activeStem)
  {
    count := 0;
    for i := 0 to |sessions|
      invariant count == Incomplete(sessions[..i], activeStem)
    {
      assert sessions[..i + 1][..i] == sessions[..i];
      if sessions[i].incomplete && sessions[i].stem != activeStem { count := count + 1; }
    }
    assert sessions[..|sessions|] == sessions;
  }

  function Stems(sessions: seq<Session>): seq<string> {
    if sessions == [] then [] else Stems(sessions[..|sessions| - 1]) + [sessions[|sessions| - 1].stem]
  }

  lemma StemsAppend(sessions: seq<Session>, s: Session)
    ensures Stems(sessions + [s]) == Stems(sessions) + [s.stem]
  {
    assert (sessions + [s])[..|sessions|] == sessions;
  }

  lemma {:induction false} WithoutNothing(files: seq<File>)
    ensures Without(files, []) == files
  {
    if files != [] { WithoutNothing(files[..|files| - 1]); }
  }

  lemma {:induction false} WithoutMore(files: seq<File>, gone: seq<File>, f: File)
    ensures Without(Without(files, gone), [f]) == Without(files, gone + [f])
  {
    if files != [] {
      var front, last := files[..|files| - 1], files[|files| - 1];
      WithoutMore(front, gone, f);
      if last !in gone {
        var kept := Without(front, gone);
        assert (kept + [last])[..|kept|] == kept;
      }
    }
  }
}
