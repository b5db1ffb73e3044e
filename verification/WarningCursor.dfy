/** Which warning is shown after each thing that happens to the list. */
module WarningCursor {
  import opened Options
  import opened WarningManager

  /** The open warnings by position, and the one of them that is shown. */
  ghost predicate Shows(m: Manager, k: nat) {
    k < |Pending(m.warnings)| && Current(m) == Some(Pending(m.warnings)[k])
  }

  /** The positions of the open warnings rise, and they are all of them. */
  lemma {:induction false} PendingIs(warnings: seq<Warning>)
    ensures forall i, j :: 0 <= i < j < |Pending(warnings)| ==> Pending(warnings)[i] < Pending(warnings)[j]
    ensures forall k: nat :: k in Pending(warnings) <==> k < |warnings| && !warnings[k].acknowledged
    ensures forall i :: 0 <= i < |Pending(warnings)| ==> Pending(warnings)[i] < |warnings|
  {
    if warnings != [] {
      var front := warnings[..|warnings| - 1];
      PendingIs(front);
      var before := Pending(front);
      forall k: nat ensures k in Pending(warnings) <==> k < |warnings| && !warnings[k].acknowledged {
        if k < |front| { assert warnings[k] == front[k]; }
      }
    }
  }

  /** Moving down shows the next open warning and up the one before, in a circle; going
      back in the menu leaves it.  None of them changes the list. */
  lemma NavigationIs(m: Manager, k: nat)
    requires Ok(m) && Shows(m, k) && k == m.cursor
    ensures var count := |Pending(m.warnings)|;
      var down, up := Handle(m, NavigateDown), Handle(m, NavigateUp);
      && down.warnings == m.warnings && Shows(down, if k + 1 == count then 0 else k + 1)
      && up.warnings == m.warnings && Shows(up, if k == 0 then count - 1 else k - 1)
      && Handle(m, MenuBack) == m
  {
    MoveIs(m, 1, if k + 1 == |Pending(m.warnings)| then 0 else k + 1);
    MoveIs(m, -1, if k == 0 then |Pending(m.warnings)| - 1 else k - 1);
  }

  lemma MoveIs(m: Manager, delta: int, target: nat)
    requires Ok(m) && m.cursor < |Pending(m.warnings)| && (delta == 1 || delta == -1)
    requires var count := |Pending(m.warnings)|;
      target == if delta == 1 then (if m.cursor + 1 == count then 0 else m.cursor + 1)
                else if m.cursor == 0 then count - 1 else m.cursor - 1
    ensures Move(m, delta).warnings == m.warnings && Shows(Move(m, delta), target)
  {
    var count := |Pending(m.warnings)|;
    Circle(m.cursor + delta + count, count);
    if count >= 2 { assert Move(m, delta) == Manager(m.warnings, target); }
  }

  lemma Circle(x: nat, count: nat)
    requires 0 < count && x <= 2 * count
    ensures x % count == if x < count then x else if x < 2 * count then x - count else 0
  {
  }

  /** While nothing is shown an action does nothing. */
  lemma NothingToHandle(m: Manager, action: Action)
    requires Pending(m.warnings) == []
    ensures Handle(m, action) == m && Current(m) == None
  {
  }

  lemma {:induction false} PendingWithout(warnings: seq<Warning>, k: nat)
    requires k < |Pending(warnings)|
    ensures Pending(warnings)[k] < |warnings|
    ensures var at := Pending(warnings)[k];
      Pending(warnings[at := warnings[at].(acknowledged := true)])
      == Pending(warnings)[..k] + Pending(warnings)[k + 1..]
  {
    PendingIs(warnings);
    var front, last := warnings[..|warnings| - 1], warnings[|warnings| - 1];
    var before, at := Pending(front), Pending(warnings)[k];
    var after := warnings[at := warnings[at].(acknowledged := true)];
    if k == |before| {
      assert after[..|warnings| - 1] == front;
      assert before[..k] == before;
    } else {
      PendingWithout(front, k);
      assert after[..|warnings| - 1] == front[at := front[at].(acknowledged := true)];
    }
  }

  /** Acknowledging takes exactly the shown warning off the open ones and shows the next
      of them, or the last when there is no next. */
  lemma AcknowledgeIs(m: Manager, k: nat)
    requires Ok(m) && Shows(m, k) && k == m.cursor
    ensures var n := Handle(m, Activate);
      var open := Pending(m.warnings)[..k] + Pending(m.warnings)[k + 1..];
      && Pending(n.warnings) == open
      && |n.warnings| == |m.warnings|
      && (forall i :: 0 <= i < |m.warnings| ==>
            n.warnings[i] ==
              if i == Pending(m.warnings)[k] then m.warnings[i].(acknowledged := true) else m.warnings[i])
      && (if open == [] then Current(n) == None else Shows(n, if k < |open| then k else k - 1))
  {
    PendingWithout(m.warnings, k);
  }

  /** Whatever is raised, the open warning that is last in the list is shown. */
  lemma RaiseShowsLast(m: Manager, id: Id, severity: Severity)
    requires !Nameless(id)
    ensures var n := Raise(m, id, severity);
      match Current(n)
      case None => forall i :: 0 <= i < |n.warnings| ==> n.warnings[i].acknowledged
      case Some(at) => forall i :: at < i < |n.warnings| ==> n.warnings[i].acknowledged
  {
    var n := Raise(m, id, severity);
    PendingIs(n.warnings);
    forall i | 0 <= i < |n.warnings| && !n.warnings[i].acknowledged ensures i in Pending(n.warnings) {
      OpenArePending(n.warnings, i);
    }
  }

  /** A warning that was not listed is put at the end, open, and shown at once. */
  lemma NewIsShown(m: Manager, id: Id, severity: Severity)
    requires !Nameless(id) && Entry(m, id).None?
    ensures var n := Raise(m, id, severity);
      && n.warnings == m.warnings + [Warning(id, severity, false)]
      && Current(n) == Some(|m.warnings|)
  {
    var n := Raise(m, id, severity);
    assert n.warnings[..|m.warnings|] == m.warnings;
  }

  /** When a warning is cleared the same place among the open ones is shown, or the last
      if there are fewer; when there was none of that name nothing changes. */
  lemma ClearKeepsPlace(m: Manager, id: Id)
    requires Ok(m)
    ensures var n := Clear(m, id);
      && (Entry(m, id).None? ==> n == m)
      && (Entry(m, id).Some? && Pending(n.warnings) != [] ==>
            Shows(n, if m.cursor < |Pending(n.warnings)| then m.cursor else |Pending(n.warnings)| - 1))
      && (Pending(n.warnings) == [] ==> Current(n) == None)
  {
    if Entry(m, id).None? { NothingWithout(m.warnings, id); } else { SomethingWithout(m.warnings, id); }
  }

  lemma {:induction false} NothingWithout(warnings: seq<Warning>, id: Id)
    requires forall i :: 0 <= i < |warnings| ==> warnings[i].id != id
    ensures Without(warnings, id) == warnings
  {
    if warnings != [] { NothingWithout(warnings[..|warnings| - 1], id); }
  }

  lemma {:induction false} SomethingWithout(warnings: seq<Warning>, id: Id)
    requires exists i :: 0 <= i < |warnings| && warnings[i].id == id
    ensures |Without(warnings, id)| < |warnings|
  {
    WithoutLength(warnings[..|warnings| - 1], id);
    if warnings[|warnings| - 1].id != id {
      var i :| 0 <= i < |warnings| && warnings[i].id == id;
      assert warnings[..|warnings| - 1][i].id == id;
      SomethingWithout(warnings[..|warnings| - 1], id);
    }
  }
}
