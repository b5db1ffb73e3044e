/** A value that is only taken over after it was wanted long enough. */
module Debounce {
  /** `since` is negative while nothing is waiting. */
  datatype Debouncer<C> = Debouncer(committed: C, candidate: C, since: int)

  /** One look at what is wanted now; a reset forgets everything. */
  datatype Look<C> = Reset | Skip | Want(now: int, desired: C, delay: int)

  function Initial<C>(normal: C): Debouncer<C> { Debouncer(normal, normal, -1) }

  /** The candidate after a look, before the delay is checked. */
  function Wait<C(==)>(s: Debouncer<C>, now: int, desired: C): Debouncer<C> {
    if s.since < 0 || desired != s.candidate then s.(candidate := desired, since := now) else s
  }

  predicate Commits<C(==)>(s: Debouncer<C>, look: Look<C>) {
    look.Want? && look.desired != s.committed && look.now - Wait(s, look.now, look.desired).since >= look.delay
  }

  function Feed<C(==)>(normal: C, s: Debouncer<C>, look: Look<C>): Debouncer<C> {
    match look
    case Reset => Initial(normal)
    case Skip => s
    case Want(now, desired, delay) =>
      if desired == s.committed then s.(since := -1)
      else if Commits(s, look) then Debouncer(desired, Wait(s, now, desired).candidate, -1)
      else Wait(s, now, desired)
  }

  /** `states[i]` is the state before look number `i`. */
  ghost predicate Behaviour<C>(normal: C, states: seq<Debouncer<C>>, looks: seq<Look<C>>) {
    && |states| == |looks| + 1
    && states[0] == Initial(normal)
    && forall i :: 0 <= i < |looks| ==> states[i + 1] == Feed(normal, states[i], looks[i])
  }

  /** The clock never runs back. */
  ghost predicate InTime<C>(looks: seq<Look<C>>) {
    && (forall i :: 0 <= i < |looks| && looks[i].Want? ==> looks[i].now >= 0 && looks[i].delay >= 0)
    && (forall i, j :: 0 <= i < j < |looks| && looks[i].Want? && looks[j].Want? ==> looks[i].now <= looks[j].now)
  }

  /** From look `m` on `desired` was all that was wanted, and nothing was committed or
      reset before look `n`. */
  ghost predicate WantedSince<C>(states: seq<Debouncer<C>>, looks: seq<Look<C>>, desired: C, m: nat, n: nat)
    requires |states| == |looks| + 1
  {
    && m < n <= |looks| && looks[m].Want?
    && (forall i {:trigger looks[i]} :: m <= i < n ==>
          !looks[i].Reset? && (looks[i].Want? ==> looks[i].desired == desired))
    && (forall i {:trigger Commits(states[i], looks[i])} :: m <= i < n ==> !Commits(states[i], looks[i]))
  }

  /** A waiting candidate has been wanted since the time it remembers. */
  lemma {:induction false} CandidateWasWanted<C>(normal: C, states: seq<Debouncer<C>>, looks: seq<Look<C>>, n: nat)
    returns (m: nat)
    requires Behaviour(normal, states, looks) && InTime(looks) && n <= |looks|
    ensures states[n].since >= 0 ==>
      && WantedSince(states, looks, states[n].candidate, m, n) && looks[m].now == states[n].since
    decreases n
  {
    m := 0;
    if n > 0 {
      m := CandidateWasWanted(normal, states, looks, n - 1);
      var s, look := states[n - 1], looks[n - 1];
      assert states[n] == Feed(normal, s, look);
      if states[n].since >= 0 && look.Want? && (s.since < 0 || look.desired != s.candidate) {
        m := n - 1;
      }
    }
  }

  /** What look `n` wants was all that any look wanted since look `m`, at least the
      applicable delay earlier, with no reset and no commit in between. */
  ghost predicate WantedLongEnough<C>(states: seq<Debouncer<C>>, looks: seq<Look<C>>, m: nat, n: nat)
    requires |states| == |looks| + 1 && n < |looks| && looks[n].Want?
  {
    && m <= n && looks[m].Want? && looks[n].now - looks[m].now >= looks[n].delay
    && (forall i {:trigger looks[i]} :: m <= i <= n ==>
          !looks[i].Reset? && (looks[i].Want? ==> looks[i].desired == looks[n].desired))
    && (forall i {:trigger Commits(states[i], looks[i])} :: m <= i < n ==> !Commits(states[i], looks[i]))
  }

  /** Every commit was debounced. */
  lemma CommitWasDebounced<C>(normal: C, states: seq<Debouncer<C>>, looks: seq<Look<C>>, n: nat) returns (m: nat)
    requires Behaviour(normal, states, looks) && InTime(looks)
    requires n < |looks| && Commits(states[n], looks[n])
    ensures WantedLongEnough(states, looks, m, n)
  {
    var s, look := states[n], looks[n];
    if s.since < 0 || look.desired != s.candidate {
      m := n;
    } else {
      m := CandidateWasWanted(normal, states, looks, n);
    }
  }

  /** What is wanted without interruption is waited for since it was first wanted. */
  lemma {:induction false} WantedIsCandidate<C>(normal: C, states: seq<Debouncer<C>>, looks: seq<Look<C>>, desired: C,
    m: nat, n: nat)
    requires Behaviour(normal, states, looks) && InTime(looks)
    requires WantedSince(states, looks, desired, m, n) && looks[m].desired == desired && states[n].committed != desired
    ensures states[m].committed == states[n].committed
    ensures states[n].candidate == desired && 0 <= states[n].since <= looks[m].now
    decreases n
  {
    var s, look := states[n - 1], looks[n - 1];
    assert states[n] == Feed(normal, s, look);
    assert !look.Reset? && !Commits(s, look);
    assert look.Want? ==> look.desired == desired;
    if n - 1 > m {
      WantedIsCandidate(normal, states, looks, desired, m, n - 1);
    } else {
      assert look == looks[m];
      if s.since >= 0 { SinceIsPast(normal, states, looks, m); }
    }
  }

  /** Waiting began at a look. */
  lemma SinceIsPast<C>(normal: C, states: seq<Debouncer<C>>, looks: seq<Look<C>>, n: nat)
    requires Behaviour(normal, states, looks) && InTime(looks) && n < |looks| && looks[n].Want?
    requires states[n].since >= 0
    ensures states[n].since <= looks[n].now
  {
    var m := CandidateWasWanted(normal, states, looks, n);
  }

  /** A look commits exactly when what it wants is new and has been all that was wanted
      for the applicable delay: no change comes early, and none comes late. */
  lemma CommitsIff<C>(normal: C, states: seq<Debouncer<C>>, looks: seq<Look<C>>, n: nat)
    requires Behaviour(normal, states, looks) && InTime(looks) && n < |looks| && looks[n].Want?
    ensures Commits(states[n], looks[n]) <==>
      looks[n].desired != states[n].committed && exists m: nat :: WantedLongEnough(states, looks, m, n)
  {
    if Commits(states[n], looks[n]) {
      var m := CommitWasDebounced(normal, states, looks, n);
      assert WantedLongEnough(states, looks, m, n);
    } else if looks[n].desired != states[n].committed {
      if m: nat :| WantedLongEnough(states, looks, m, n) {
        if m < n {
          WantedIsCandidate(normal, states, looks, looks[n].desired, m, n);
        } else if states[n].since >= 0 {
          SinceIsPast(normal, states, looks, n);
        }
      }
    }
  }

  /** A look that is not a reset changes the committed value exactly when it commits. */
  lemma ChangesIff<C>(normal: C, s: Debouncer<C>, look: Look<C>)
    ensures !look.Reset? && Feed(normal, s, look).committed != s.committed <==> Commits(s, look)
  {
  }

  /** What is committed is what the look wanted. */
  lemma TakesOver<C>(normal: C, states: seq<Debouncer<C>>, looks: seq<Look<C>>, n: nat)
    requires Behaviour(normal, states, looks) && n < |looks| && Commits(states[n], looks[n])
    ensures states[n + 1].committed == looks[n].desired
  {
  }

  /** Two commits without a reset between them are at least the later one's delay apart. */
  lemma CommitsAreApart<C>(normal: C, states: seq<Debouncer<C>>, looks: seq<Look<C>>, a: nat, b: nat)
    requires Behaviour(normal, states, looks) && InTime(looks)
    requires a < b < |looks| && Commits(states[a], looks[a]) && Commits(states[b], looks[b])
    ensures looks[b].now - looks[a].now >= looks[b].delay
  {
    var m := CommitWasDebounced(normal, states, looks, b);
    assert m > a;
  }

  /** While only the committed value is wanted it stays committed. */
  lemma {:induction false} WantedStays<C>(normal: C, states: seq<Debouncer<C>>, looks: seq<Look<C>>, from: nat, n: nat)
    requires Behaviour(normal, states, looks) && from <= n <= |looks|
    requires forall i {:trigger looks[i]} :: from <= i < n ==>
      && !looks[i].Reset?
      && (looks[i].Want? && states[i].committed == states[from].committed ==>
            looks[i].desired == states[from].committed)
    ensures states[n].committed == states[from].committed
    decreases n
  {
    if from < n {
      WantedStays(normal, states, looks, from, n - 1);
      assert states[n] == Feed(normal, states[n - 1], looks[n - 1]);
    }
  }
}
