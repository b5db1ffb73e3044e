/** The list of active warnings and the one of them that waits to be acknowledged. */
module WarningManager {
  import opened Options

  datatype Severity = Information | Caution | Critical

  /** Evaluator warnings are named after their signal; others have names of their own. */
  datatype Id = Threshold(signal: string) | Freshness(signal: string) | Other(name: string)

  datatype Warning = Warning(id: Id, severity: Severity, acknowledged: bool)

  datatype Manager = Manager(warnings: seq<Warning>, cursor: int)

  const NO_WARNINGS := Manager([], 0)

  function Rank(severity: Severity): nat {
    match severity
    case Critical => 2
    case Caution => 1
    case Information => 0
  }

  /** The positions of the warnings that are not acknowledged. */
  function Pending(warnings: seq<Warning>): seq<nat> {
    if warnings == [] then []
    else
      var front := Pending(warnings[..|warnings| - 1]);
      if warnings[|warnings| - 1].acknowledged then front else front + [|warnings| - 1]
  }

  lemma {:induction false} PendingAreOpen(warnings: seq<Warning>, i: nat)
    requires i < |Pending(warnings)|
    ensures Pending(warnings)[i] < |warnings| && !warnings[Pending(warnings)[i]].acknowledged
  {
    if i < |Pending(warnings[..|warnings| - 1])| {
      PendingAreOpen(warnings[..|warnings| - 1], i);
    }
  }

  lemma {:induction false} OpenArePending(warnings: seq<Warning>, k: nat)
    requires k < |warnings| && !warnings[k].acknowledged
    ensures k in Pending(warnings)
  {
    if k < |warnings| - 1 {
      OpenArePending(warnings[..|warnings| - 1], k);
    }
  }

  /** The first position with the id, or the length. */
  function Find(warnings: seq<Warning>, id: Id): (r: nat)
    ensures r <= |warnings|
    ensures r < |warnings| ==> warnings[r].id == id
    ensures forall k :: 0 <= k < r ==> warnings[k].id != id
  {
    if warnings == [] then 0 else if warnings[0].id == id then 0 else 1 + Find(warnings[1..], id)
  }

  function Rewarn(w: Warning, severity: Severity): Warning {
    Warning(w.id, severity, w.acknowledged && Rank(severity) <= Rank(w.severity))
  }

  function Listing(warnings: seq<Warning>, id: Id, severity: Severity): seq<Warning> {
    var at := Find(warnings, id);
    if at == |warnings| then warnings + [Warning(id, severity, false)]
    else warnings[at := Rewarn(warnings[at], severity)]
  }

  function Max(a: int, b: int): int { if a < b then b else a }
  function Min(a: int, b: int): int { if a < b then a else b }

  /** A warning without a name is ignored. */
  predicate Nameless(id: Id) { id == Other("") }

  function Raise(m: Manager, id: Id, severity: Severity): Manager {
    if Nameless(id) then m else
    var warnings := Listing(m.warnings, id, severity);
    Manager(warnings, Max(0, |Pending(warnings)| - 1))
  }

  function Without(warnings: seq<Warning>, id: Id): seq<Warning> {
    if warnings == [] then []
    else if warnings[|warnings| - 1].id == id then Without(warnings[..|warnings| - 1], id)
    else Without(warnings[..|warnings| - 1], id) + [warnings[|warnings| - 1]]
  }

  function Clear(m: Manager, id: Id): Manager {
    var warnings := Without(m.warnings, id);
    if |warnings| == |m.warnings| then m
    else Manager(warnings, if Pending(warnings) == [] then 0 else Min(m.cursor, |Pending(warnings)| - 1))
  }

  function Clamp(x: int, count: nat): (r: nat)
    requires count > 0
    ensures r < count
  {
    if x < 0 then 0 else if x >= count then count - 1 else x
  }

  /** The position of the warning shown, if any. */
  function Current(m: Manager): (r: Option<nat>)
    ensures r.Some? ==> r.value < |m.warnings| && !m.warnings[r.value].acknowledged
  {
    var pending := Pending(m.warnings);
    if pending == [] then None
    else
      PendingAreOpen(m.warnings, Clamp(m.cursor, |pending|));
      Some(pending[Clamp(m.cursor, |pending|)])
  }

  function Acknowledge(m: Manager): Manager {
    match Current(m)
    case None => m
    case Some(at) =>
      var warnings := m.warnings[at := m.warnings[at].(acknowledged := true)];
      var remaining := |Pending(warnings)|;
      Manager(warnings, if remaining == 0 then 0 else Min(Clamp(m.cursor, |Pending(m.warnings)|), remaining - 1))
  }

  function Move(m: Manager, delta: int): Manager {
    var count := |Pending(m.warnings)|;
    if count < 2 then m else m.(cursor := (m.cursor + delta + count) % count)
  }

  datatype Action = NavigateUp | NavigateDown | Activate | MenuBack

  function Handle(m: Manager, action: Action): Manager {
    if Current(m).None? then m
    else
      match action
      case NavigateUp => Move(m, -1)
      case NavigateDown => Move(m, 1)
      case Activate => Acknowledge(m)
      case MenuBack => m
  }

  // ---- The manager object ----------------------------------------------------

  class WarningList {
    var warnings: seq<Warning>
    var currentUnacknowledged: int

    function State(): Manager
      reads this
    {
      Manager(warnings, currentUnacknowledged)
    }

    constructor ()
      ensures State() == NO_WARNINGS
    {
      warnings, currentUnacknowledged := [], 0;
    }

    method UnacknowledgedIndices() returns (indices: seq<nat>)
      ensures indices == Pending(warnings)
    {
      indices := [];
      for index := 0 to |warnings|
        invariant indices == Pending(warnings[..index])
      {
        assert warnings[..index + 1][..index] == warnings[..index];
        if !warnings[index].acknowledged { indices := indices + [index]; }
      }
      assert warnings[..|warnings|] == warnings;
    }

    method IndexOf(id: Id) returns (index: nat)
      ensures index == Find(warnings, id)
    {
      index := 0;
      while index < |warnings| && warnings[index].id != id
        invariant index <= |warnings|
        invariant forall k :: 0 <= k < index ==> warnings[k].id != id
      {
        index := index + 1;
      }
    }

    method RaiseWarning(id: Id, severity: Severity)
      modifies this
      ensures State() == Raise(old(State()), id, severity)
    {
      if Nameless(id) { return; }
      var existing := IndexOf(id);
      if existing == |warnings| {
        warnings := warnings + [Warning(id, severity, false)];
      } else {
        var escalated := Rank(severity) > Rank(warnings[existing].severity);
        warnings := warnings[existing := warnings[existing].(severity := severity)];
        if escalated { warnings := warnings[existing := warnings[existing].(acknowledged := false)]; }
        assert warnings == old(warnings)[existing := Rewarn(old(warnings)[existing], severity)];
      }
      var pending := UnacknowledgedIndices();
      currentUnacknowledged := Max(0, |pending| - 1);
    }

    method ClearWarning(id: Id)
      modifies this
      ensures State() == Clear(old(State()), id)
    {
      var kept: seq<Warning> := [];
      for i := 0 to |warnings|
        invariant kept == Without(warnings[..i], id)
      {
        assert warnings[..i + 1][..i] == warnings[..i];
        if warnings[i].id != id { kept := kept + [warnings[i]]; }
      }
      assert warnings[..|warnings|] == warnings;
      var previousSize := |warnings|;
      if |kept| == previousSize { return; }
      warnings := kept;
      var pending := UnacknowledgedIndices();
      currentUnacknowledged := if pending == [] then 0 else Min(currentUnacknowledged, |pending| - 1);
    }

    method AcknowledgeCurrent()
      modifies this
      ensures State() == Acknowledge(old(State()))
    {
      var pending := UnacknowledgedIndices();
      if pending == [] { return; }
      var pendingIndex := Clamp(currentUnacknowledged, |pending|);
      PendingAreOpen(warnings, pendingIndex);
      var at := pending[pendingIndex];
      warnings := warnings[at := warnings[at].(acknowledged := true)];
      var remaining := UnacknowledgedIndices();
      currentUnacknowledged := if remaining == [] then 0 else Min(pendingIndex, |remaining| - 1);
    }

    method MoveCurrent(delta: int)
      modifies this
      ensures State() == Move(old(State()), delta)
    {
      var pending := UnacknowledgedIndices();
      var count := |pending|;
      if count < 2 { return; }
      currentUnacknowledged := (currentUnacknowledged + delta + count) % count;
    }

    /** True when a visible warning consumes the action. */
    method HandleAction(action: Action) returns (consumed: bool)
      modifies this
      ensures consumed == Current(old(State())).Some?
      ensures State() == Handle(old(State()), action)
    {
      var pending := UnacknowledgedIndices();
      if pending == [] { return false; }
      match action {
        case NavigateUp => MoveCurrent(-1);
        case NavigateDown => MoveCurrent(1);
        case Activate => AcknowledgeCurrent();
        case MenuBack =>
      }
      return true;
    }
  }

  // ---- What every step keeps -------------------------------------------------

  ghost predicate UniqueIds(warnings: seq<Warning>) {
    forall i, j :: 0 <= i < j < |warnings| ==> warnings[i].id != warnings[j].id
  }

  /** The cursor points at a pending warning, or at 0 when there is none. */
  ghost predicate CursorValid(m: Manager) {
    0 <= m.cursor && (m.cursor < |Pending(m.warnings)| || (m.cursor == 0 && Pending(m.warnings) == []))
  }

  ghost predicate Ok(m: Manager) { UniqueIds(m.warnings) && CursorValid(m) }

  datatype Step = Raised(id: Id, severity: Severity) | Cleared(id: Id) | Acted(action: Action)

  function Next(m: Manager, step: Step): Manager {
    match step
    case Raised(id, severity) => Raise(m, id, severity)
    case Cleared(id) => Clear(m, id)
    case Acted(action) => Handle(m, action)
  }

  lemma {:induction false} WithoutHasNone(warnings: seq<Warning>, id: Id, w: Warning)
    ensures w in Without(warnings, id) <==> w in warnings && w.id != id
  {
    if warnings != [] {
      WithoutHasNone(warnings[..|warnings| - 1], id, w);
      assert w in warnings <==> w in warnings[..|warnings| - 1] || w == warnings[|warnings| - 1];
    }
  }

  lemma {:induction false} WithoutKeepsUnique(warnings: seq<Warning>, id: Id)
    requires UniqueIds(warnings)
    ensures UniqueIds(Without(warnings, id))
  {
    if warnings != [] {
      var front, last := warnings[..|warnings| - 1], warnings[|warnings| - 1];
      WithoutKeepsUnique(front, id);
      var kept := Without(front, id);
      forall i | 0 <= i < |kept| ensures kept[i].id != last.id {
        WithoutHasNone(front, id, kept[i]);
      }
    }
  }

  /** In every reachable state the ids are unique and the cursor is valid. */
  lemma StepKeepsOk(m: Manager, step: Step)
    requires Ok(m)
    ensures Ok(Next(m, step))
  {
    if step.Cleared? { WithoutKeepsUnique(m.warnings, step.id); }
  }

  // ---- Entries by id ---------------------------------------------------------

  /** The entry of an id. */
  function Entry(m: Manager, id: Id): (r: Option<Warning>)
    ensures r.Some? ==> r.value in m.warnings && r.value.id == id
  {
    var at := Find(m.warnings, id);
    if at == |m.warnings| then None else Some(m.warnings[at])
  }

  lemma EntryIs(m: Manager, at: nat)
    requires UniqueIds(m.warnings) && at < |m.warnings|
    ensures Entry(m, m.warnings[at].id) == Some(m.warnings[at])
  {
  }

  lemma EntryInIs(m: Manager, w: Warning)
    requires UniqueIds(m.warnings) && w in m.warnings
    ensures Entry(m, w.id) == Some(w)
  {
    var at :| 0 <= at < |m.warnings| && m.warnings[at] == w;
    EntryIs(m, at);
  }

  lemma FindAppended(warnings: seq<Warning>, w: Warning, x: Id)
    ensures Find(warnings + [w], x) ==
      if Find(warnings, x) < |warnings| then Find(warnings, x) else if w.id == x then |warnings| else |warnings| + 1
  {
    var r, n := Find(warnings + [w], x), Find(warnings, x);
    if n < |warnings| {
      assert (warnings + [w])[n].id == x;
    } else if w.id == x {
      assert (warnings + [w])[|warnings|].id == x;
    }
    assert r < |warnings| ==> warnings[r].id == x;
  }

  lemma FindUpdated(warnings: seq<Warning>, at: nat, w: Warning, x: Id)
    requires at < |warnings| && w.id == warnings[at].id
    ensures Find(warnings[at := w], x) == Find(warnings, x)
  {
    var r, n := Find(warnings[at := w], x), Find(warnings, x);
    assert r < |warnings| ==> warnings[r].id == x;
    assert n < |warnings| ==> warnings[at := w][n].id == x;
  }

  /** From information to caution or critical, or from caution to critical. */
  predicate Escalates(before: Severity, after: Severity) {
    || (before == Information && (after == Caution || after == Critical))
    || (before == Caution && after == Critical)
  }

  lemma RaiseEntry(m: Manager, id: Id, severity: Severity, x: Id)
    requires !Nameless(id)
    ensures Entry(Raise(m, id, severity), x) ==
      if x != id then Entry(m, x)
      else if Entry(m, x).None? then Some(Warning(id, severity, false))
      else
        var was := Entry(m, x).value;
        Some(Warning(id, severity, was.acknowledged && !Escalates(was.severity, severity)))
  {
    var at := Find(m.warnings, id);
    if at == |m.warnings| {
      FindAppended(m.warnings, Warning(id, severity, false), x);
    } else {
      FindUpdated(m.warnings, at, Rewarn(m.warnings[at], severity), x);
    }
  }

  lemma ClearEntry(m: Manager, id: Id, x: Id)
    requires Ok(m)
    ensures Entry(Clear(m, id), x) == if x == id then None else Entry(m, x)
  {
    var n := Clear(m, id);
    StepKeepsOk(m, Cleared(id));
    ClearedList(m, id);
    if Entry(n, x).Some? { WithoutHasNone(m.warnings, id, Entry(n, x).value); EntryInIs(m, Entry(n, x).value); }
    if x != id && Entry(m, x).Some? {
      WithoutHasNone(m.warnings, id, Entry(m, x).value);
      EntryInIs(n, Entry(m, x).value);
    }
  }

  lemma ClearedList(m: Manager, id: Id)
    ensures Clear(m, id).warnings == Without(m.warnings, id)
  {
    WithoutLength(m.warnings, id);
  }

  lemma {:induction false} WithoutLength(warnings: seq<Warning>, id: Id)
    ensures |Without(warnings, id)| <= |warnings|
    ensures |Without(warnings, id)| == |warnings| ==> Without(warnings, id) == warnings
  {
    if warnings != [] { WithoutLength(warnings[..|warnings| - 1], id); }
  }

  /** The driver's action acknowledges the warning shown, and changes no other entry. */
  lemma HandleEntry(m: Manager, action: Action, x: Id)
    requires Ok(m)
    ensures Entry(Handle(m, action), x) ==
      if action.Activate? && Current(m).Some? && m.warnings[Current(m).value].id == x
      then Some(m.warnings[Current(m).value].(acknowledged := true)) else Entry(m, x)
  {
    if action.Activate? && Current(m).Some? {
      AcknowledgedEntry(m, Current(m).value, Acknowledge(m).cursor, x);
    }
  }

  lemma AcknowledgedEntry(m: Manager, at: nat, cursor: int, x: Id)
    requires UniqueIds(m.warnings) && at < |m.warnings|
    ensures var w := m.warnings[at].(acknowledged := true);
      Entry(Manager(m.warnings[at := w], cursor), x) == if w.id == x then Some(w) else Entry(m, x)
  {
    FindUpdated(m.warnings, at, m.warnings[at].(acknowledged := true), x);
    EntryIs(m, at);
  }

  // ---- Acknowledged entries --------------------------------------------------

  function After(m: Manager, steps: seq<Step>): Manager
    decreases |steps|
  {
    if steps == [] then m else After(Next(m, steps[0]), steps[1..])
  }

  /** A step that can put an acknowledged warning back before the driver: it escalates
      the severity, or it removes the entry so that it can be raised anew. */
  ghost predicate Rearms(m: Manager, step: Step, id: Id) {
    match step
    case Raised(x, severity) =>
      x == id && !Nameless(id) && Entry(m, id).Some? && Escalates(Entry(m, id).value.severity, severity)
    case Cleared(x) => x == id
    case Acted(_) => false
  }

  ghost predicate NeverRearmed(m: Manager, steps: seq<Step>, id: Id)
    decreases |steps|
  {
    steps == [] || (!Rearms(m, steps[0], id) && NeverRearmed(Next(m, steps[0]), steps[1..], id))
  }

  lemma StepKeepsAcknowledged(m: Manager, step: Step, id: Id)
    requires Ok(m) && Entry(m, id).Some? && Entry(m, id).value.acknowledged
    ensures Rearms(m, step, id) <==>
      Entry(Next(m, step), id).None? || !Entry(Next(m, step), id).value.acknowledged
  {
    match step {
      case Raised(x, severity) => if !Nameless(x) { RaiseEntry(m, x, severity, id); }
      case Cleared(x) => ClearEntry(m, x, id);
      case Acted(action) => HandleEntry(m, action, id);
    }
  }

  /** An acknowledged warning stays acknowledged in every run that neither escalates
      nor clears it. */
  lemma {:induction false} AcknowledgedStays(m: Manager, steps: seq<Step>, id: Id)
    requires Ok(m) && Entry(m, id).Some? && Entry(m, id).value.acknowledged
    requires NeverRearmed(m, steps, id)
    ensures var n := After(m, steps); Ok(n) && Entry(n, id).Some? && Entry(n, id).value.acknowledged
    decreases |steps|
  {
    if steps != [] {
      StepKeepsOk(m, steps[0]);
      StepKeepsAcknowledged(m, steps[0], id);
      AcknowledgedStays(Next(m, steps[0]), steps[1..], id);
    }
  }

  /** The overlay is shown exactly while something is not acknowledged. */
  lemma OverlayIff(m: Manager)
    ensures Current(m).Some? <==> exists k :: 0 <= k < |m.warnings| && !m.warnings[k].acknowledged
  {
    if k :| 0 <= k < |m.warnings| && !m.warnings[k].acknowledged {
      OpenArePending(m.warnings, k);
    }
  }
}
