/** Which decoded samples are persisted: every rate group is native, off or limited
    to a rate, and a limited signal is logged greedily. */
module LogPolicy {
  import opened Options

  datatype Group = Off | Native | Periodic(intervalNs: int)

  datatype Config = Config(groups: map<string, Group>, assignments: map<string, string>, defaultGroup: string)
  {
    function GroupName(signal: string): string {
      if signal in assignments then assignments[signal] else defaultGroup
    }

    function GroupOf(signal: string): Option<Group> {
      if GroupName(signal) in groups then Some(groups[GroupName(signal)]) else None
    }
  }

  datatype Sample = Sample(name: string, timestampNs: int)

  type Times = map<string, int>

  /** What has been logged is too recent for another sample at `t`. */
  predicate TooSoon(previous: Option<int>, intervalNs: int, t: int) {
    previous.Some? && (t < previous.value || t - previous.value < intervalNs)
  }

  function Previous(last: Times, signal: string): Option<int> {
    if signal in last then Some(last[signal]) else None
  }

  predicate Logs(config: Config, last: Times, sample: Sample) {
    match config.GroupOf(sample.name)
    case None => false
    case Some(Off) => false
    case Some(Native) => true
    case Some(Periodic(d)) => !TooSoon(Previous(last, sample.name), d, sample.timestampNs)
  }

  function Remember(config: Config, last: Times, sample: Sample): Times {
    if Logs(config, last, sample) && config.GroupOf(sample.name).value.Periodic?
    then last[sample.name := sample.timestampNs] else last
  }

  // ---- The configuration file ------------------------------------------------

  datatype Mode = NativeMode | OffMode | OtherMode

  /** A member of `rate_groups`; `rateHz` is absent when it is not a number. */
  datatype GroupSpec = NotAnObject | GroupSpec(mode: Mode, rateHz: Option<real>)

  const NS_PER_SECOND := 1.0e9
  /** The largest qint64 as the double it is compared as. */
  const LONGEST_INTERVAL := 9223372036854775808.0

  function Ceiling(x: real): (r: int)
    ensures r as real - 1.0 < x <= r as real
  {
    if x.Floor as real == x then x.Floor else x.Floor + 1
  }

  function GroupFrom(spec: GroupSpec): Option<Group> {
    match spec
    case NotAnObject => None
    case GroupSpec(NativeMode, _) => Some(Native)
    case GroupSpec(OffMode, _) => Some(Off)
    case GroupSpec(OtherMode, None) => None
    case GroupSpec(OtherMode, Some(rateHz)) =>
      if rateHz <= 0.0 || NS_PER_SECOND / rateHz > LONGEST_INTERVAL then None
      else Some(Periodic(Ceiling(NS_PER_SECOND / rateHz)))
  }

  /** Samples this far apart come at most `rateHz` times a second. */
  predicate KeepsRate(intervalNs: real, rateHz: real) {
    intervalNs * rateHz >= NS_PER_SECOND
  }

  /** The interval is the least whole number of nanoseconds that keeps the rate. */
  lemma IntervalKeepsTheRate(rateHz: real)
    requires GroupFrom(GroupSpec(OtherMode, Some(rateHz))).Some?
    ensures var d := GroupFrom(GroupSpec(OtherMode, Some(rateHz))).value.intervalNs;
      d >= 1 && KeepsRate(d as real, rateHz) && !KeepsRate(d as real - 1.0, rateHz)
  {
    var x := NS_PER_SECOND / rateHz;
    Quotient(NS_PER_SECOND, rateHz);
    var d := Ceiling(x);
    assert GroupFrom(GroupSpec(OtherMode, Some(rateHz))) == Some(Periodic(d));
    RoundedUp(x, rateHz, d as real);
  }

  lemma RoundedUp(x: real, k: real, up: real)
    requires x > 0.0 && k > 0.0 && x * k == NS_PER_SECOND && up - 1.0 < x <= up
    ensures up > 0.0 && KeepsRate(up, k) && !KeepsRate(up - 1.0, k)
  {
    ScaleUp(x, up, k);
    ScaleStrictly(up - 1.0, x, k);
  }

  lemma Quotient(n: real, k: real)
    requires n > 0.0 && k > 0.0
    ensures n / k > 0.0 && (n / k) * k == n
  {
  }

  lemma ScaleUp(x: real, y: real, k: real)
    requires x <= y && k > 0.0
    ensures x * k <= y * k
  {
  }

  lemma ScaleStrictly(x: real, y: real, k: real)
    requires x < y && k > 0.0
    ensures x * k < y * k
  {
  }

  /** The file as parsed: members in key order, `None` for a value of a wrong type. */
  datatype File = File(
    groups: seq<(string, GroupSpec)>, defaultGroup: string, signals: seq<(string, Option<string>)>)

  predicate Acceptable(file: File, known: seq<string>) {
    && file.groups != []
    && (forall i :: 0 <= i < |file.groups| ==> GroupFrom(file.groups[i].1).Some?)
    && (exists i :: 0 <= i < |file.groups| && file.groups[i].0 == file.defaultGroup)
    && forall i :: 0 <= i < |file.signals| ==>
      && file.signals[i].0 in known
      && file.signals[i].1.Some?
      && exists j :: 0 <= j < |file.groups| && file.groups[j].0 == file.signals[i].1.value
  }

  /** What the last member of that name holds. */
  function LastNamed<T>(members: seq<(string, T)>, name: string): (r: Option<T>)
    ensures r.Some? <==> exists i :: 0 <= i < |members| && members[i].0 == name
  {
    if members == [] then None
    else
      var n := |members| - 1;
      if members[n].0 == name then Some(members[n].1) else LastNamed(members[..n], name)
  }

  lemma LastNamedNext<T>(members: seq<(string, T)>, i: nat, name: string)
    requires i < |members|
    ensures LastNamed(members[..i + 1], name)
      == if members[i].0 == name then Some(members[i].1) else LastNamed(members[..i], name)
  {
    assert members[..i + 1][..i] == members[..i];
  }

  /** The groups are those of the file, each made from its own member. */
  ghost predicate GroupsOf(groups: map<string, Group>, specs: seq<(string, GroupSpec)>) {
    forall g :: match LastNamed(specs, g)
      case None => g !in groups
      case Some(spec) => g in groups && GroupFrom(spec) == Some(groups[g])
  }

  /** The assignments are those of the file. */
  ghost predicate AssignmentsOf(assignments: map<string, string>, specs: seq<(string, Option<string>)>) {
    forall s :: match LastNamed(specs, s)
      case None => s !in assignments
      case Some(name) => s in assignments && name == Some(assignments[s])
  }

  method ReadGroups(specs: seq<(string, GroupSpec)>) returns (ok: bool, groups: map<string, Group>)
    ensures ok <==> forall i :: 0 <= i < |specs| ==> GroupFrom(specs[i].1).Some?
    ensures ok ==> GroupsOf(groups, specs)
  {
    groups := map[];
    for i := 0 to |specs|
      invariant forall j :: 0 <= j < i ==> GroupFrom(specs[j].1).Some?
      invariant GroupsOf(groups, specs[..i])
    {
      var group := GroupFrom(specs[i].1);
      if group.None? { return false, groups; }
      forall g { LastNamedNext(specs, i, g); }
      groups := groups[specs[i].0 := group.value];
    }
    assert specs[..|specs|] == specs;
    ok := true;
  }

  method ReadAssignments(specs: seq<(string, Option<string>)>, known: seq<string>, groups: map<string, Group>)
    returns (ok: bool, assignments: map<string, string>)
    ensures ok <==> forall i :: 0 <= i < |specs| ==>
      specs[i].0 in known && specs[i].1.Some? && specs[i].1.value in groups
    ensures ok ==> AssignmentsOf(assignments, specs)
    ensures ok ==> forall s :: s in assignments ==> assignments[s] in groups
  {
    assignments := map[];
    for i := 0 to |specs|
      invariant forall j :: 0 <= j < i ==> specs[j].0 in known && specs[j].1.Some? && specs[j].1.value in groups
      invariant AssignmentsOf(assignments, specs[..i])
      invariant forall s :: s in assignments ==> assignments[s] in groups
    {
      if specs[i].0 !in known { return false, assignments; }
      if specs[i].1.None? || specs[i].1.value !in groups { return false, assignments; }
      forall s { LastNamedNext(specs, i, s); }
      assignments := assignments[specs[i].0 := specs[i].1.value];
    }
    assert specs[..|specs|] == specs;
    ok := true;
  }

  /** The configuration is the one the file describes. */
  ghost predicate Describes(file: File, config: Config) {
    && GroupsOf(config.groups, file.groups) && AssignmentsOf(config.assignments, file.signals)
    && config.defaultGroup == file.defaultGroup
  }

  /** A loaded configuration gives every signal a defined group. */
  lemma EverySignalHasAGroup(file: File, known: seq<string>, config: Config, signal: string)
    requires Acceptable(file, known) && Describes(file, config)
    ensures config.GroupOf(signal).Some?
  {
    assert LastNamed(file.groups, file.defaultGroup).Some?;
    if signal in config.assignments {
      assert LastNamed(file.signals, signal).Some?;
      LastIsAMember(file.signals, signal);
      assert LastNamed(file.groups, config.assignments[signal]).Some?;
    }
  }

  lemma {:induction false} LastIsAMember<T>(members: seq<(string, T)>, name: string)
    requires LastNamed(members, name).Some?
    ensures exists i :: 0 <= i < |members| && members[i] == (name, LastNamed(members, name).value)
  {
    var n := |members| - 1;
    if members[n].0 != name {
      LastIsAMember(members[..n], name);
      var i :| 0 <= i < n && members[..n][i] == (name, LastNamed(members, name).value);
      assert members[i] == (name, LastNamed(members, name).value);
    } else {
      assert members[n] == (name, LastNamed(members, name).value);
    }
  }

  /** The name of the group the file gives a signal. */
  function GroupNamed(file: File, signal: string): string {
    var own := LastNamed(file.signals, signal);
    if own.Some? && own.value.Some? then own.value.value else file.defaultGroup
  }

  lemma GroupOfTheFile(file: File, known: seq<string>, config: Config, signal: string)
    requires Acceptable(file, known) && Describes(file, config)
    ensures var spec := LastNamed(file.groups, GroupNamed(file, signal));
      spec.Some? && config.GroupOf(signal) == GroupFrom(spec.value)
  {
    EverySignalHasAGroup(file, known, config, signal);
    if LastNamed(file.signals, signal).Some? { LastIsAMember(file.signals, signal); }
    assert config.GroupName(signal) == GroupNamed(file, signal);
  }

  /** A signal whose group asks for a rate is limited to the least whole interval that
      keeps that rate. */
  lemma RateOfTheFileIsKept(file: File, known: seq<string>, config: Config, signal: string, rateHz: real)
    requires Acceptable(file, known) && Describes(file, config)
    requires LastNamed(file.groups, GroupNamed(file, signal)) == Some(GroupSpec(OtherMode, Some(rateHz)))
    ensures var group := config.GroupOf(signal);
      && group.Some? && group.value.Periodic? && group.value.intervalNs >= 1
      && KeepsRate(group.value.intervalNs as real, rateHz)
      && !KeepsRate(group.value.intervalNs as real - 1.0, rateHz)
  {
    GroupOfTheFile(file, known, config, signal);
    IntervalKeepsTheRate(rateHz);
  }

  /** A group that makes the whole file unacceptable: it is not an object, it has neither
      a mode nor a rate, its rate is not positive, or its interval is beyond 64 bits. */
  predicate Refused(spec: GroupSpec) {
    || spec.NotAnObject?
    || (spec.mode.OtherMode? && spec.rateHz.None?)
    || (spec.mode.OtherMode? && spec.rateHz.Some? && spec.rateHz.value <= 0.0)
    || (spec.mode.OtherMode? && spec.rateHz.Some? && NS_PER_SECOND > LONGEST_INTERVAL * spec.rateHz.value)
  }

  lemma RefusedIff(spec: GroupSpec)
    ensures GroupFrom(spec).None? <==> Refused(spec)
  {
    if spec.GroupSpec? && spec.mode.OtherMode? && spec.rateHz.Some? && spec.rateHz.value > 0.0 {
      TooSlowIff(spec.rateHz.value);
    }
  }

  lemma TooSlowIff(rateHz: real)
    requires rateHz > 0.0
    ensures NS_PER_SECOND / rateHz > LONGEST_INTERVAL <==> NS_PER_SECOND > LONGEST_INTERVAL * rateHz
  {
    var x := NS_PER_SECOND / rateHz;
    Quotient(NS_PER_SECOND, rateHz);
    if x > LONGEST_INTERVAL {
      ScaleStrictly(LONGEST_INTERVAL, x, rateHz);
    } else {
      ScaleUp(x, LONGEST_INTERVAL, rateHz);
    }
  }

  /** An assignment that makes the whole file unacceptable: the signal is not known, its
      group is not a text, or there is no such group. */
  predicate RefusedAssignment(file: File, known: seq<string>, assignment: (string, Option<string>)) {
    assignment.0 !in known || assignment.1.None? || LastNamed(file.groups, assignment.1.value).None?
  }

  /** Exactly which files are refused: those without a group, with a refused group or
      assignment, or with a default group that is not defined. */
  lemma RefusedFileIff(file: File, known: seq<string>)
    ensures !Acceptable(file, known) <==>
      || |file.groups| == 0
      || (exists i :: 0 <= i < |file.groups| && Refused(file.groups[i].1))
      || LastNamed(file.groups, file.defaultGroup).None?
      || (exists i :: 0 <= i < |file.signals| && RefusedAssignment(file, known, file.signals[i]))
  {
    forall i | 0 <= i < |file.groups| ensures GroupFrom(file.groups[i].1).None? <==> Refused(file.groups[i].1) {
      RefusedIff(file.groups[i].1);
    }
    forall i | 0 <= i < |file.signals|
      ensures RefusedAssignment(file, known, file.signals[i]) <==>
        !(file.signals[i].0 in known && file.signals[i].1.Some?
          && exists j :: 0 <= j < |file.groups| && file.groups[j].0 == file.signals[i].1.value)
    {
    }
  }

  // ---- The policy object -----------------------------------------------------

  class DecodedLogPolicy {
    var groups: map<string, Group>
    var signalGroups: map<string, string>
    var defaultGroup: string
    var lastLoggedTimestampNs: Times

    function Settings(): Config
      reads this
    {
      Config(groups, signalGroups, defaultGroup)
    }

    constructor ()
      ensures Settings() == Config(map[], map[], "") && lastLoggedTimestampNs == map[]
    {
      groups, signalGroups, defaultGroup, lastLoggedTimestampNs := map[], map[], "", map[];
    }

    /** Replaces the policy or, for an unacceptable file, leaves it as it was. */
    method Load(file: File, known: seq<string>) returns (ok: bool)
      modifies this
      ensures ok <==> Acceptable(file, known)
      ensures ok ==> Describes(file, Settings()) && lastLoggedTimestampNs == map[]
      ensures !ok ==> Settings() == old(Settings()) && lastLoggedTimestampNs == old(lastLoggedTimestampNs)
    {
      if file.groups == [] { return false; }
      var newGroups;
      ok, newGroups := ReadGroups(file.groups);
      if !ok { return; }
      if file.defaultGroup !in newGroups { return false; }
      var newSignalGroups;
      ok, newSignalGroups := ReadAssignments(file.signals, known, newGroups);
      if !ok { return; }
      groups, signalGroups, defaultGroup := newGroups, newSignalGroups, file.defaultGroup;
      lastLoggedTimestampNs := map[];
    }

    method ShouldLog(sample: Sample) returns (log: bool)
      modifies this`lastLoggedTimestampNs
      ensures log == Logs(Settings(), old(lastLoggedTimestampNs), sample)
      ensures lastLoggedTimestampNs == Remember(Settings(), old(lastLoggedTimestampNs), sample)
    {
      var groupName := if sample.name in signalGroups then signalGroups[sample.name] else defaultGroup;
      if groupName !in groups || groups[groupName].Off? { return false; }
      if groups[groupName].Native? { return true; }
      if sample.name in lastLoggedTimestampNs {
        var previous := lastLoggedTimestampNs[sample.name];
        if sample.timestampNs < previous || sample.timestampNs - previous < groups[groupName].intervalNs {
          return false;
        }
      }
      lastLoggedTimestampNs := lastLoggedTimestampNs[sample.name := sample.timestampNs];
      return true;
    }
  }
}
