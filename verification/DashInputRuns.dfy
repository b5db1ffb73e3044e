/** Whole runs of the dash input controller against the physical wheel: a press
    never acts twice, and acts exactly once when no event is lost. */
module DashInputRuns {
  import opened Options
  import opened DashInput

  /** One physical change of a button, as the wheel module announces it. */
  datatype Edge = Edge(button: nat, pressed: bool, timestampNs: int, lengthMs: int)

  function Presses(edges: seq<Edge>, b: nat, n: nat): nat
    requires n <= |edges|
  {
    if n == 0 then 0
    else Presses(edges, b, n - 1) + if edges[n - 1].button == b && edges[n - 1].pressed then 1 else 0
  }

  /** `states[n]` says which buttons are held after `n` edges.  An edge is announced
      only when its button really changes. */
  ghost predicate Wheel(states: seq<Table>, edges: seq<Edge>) {
    && |states| == |edges| + 1
    && forall k {:trigger edges[k]} :: 0 <= k < |edges| ==>
         && edges[k].button < BUTTONS
         && states[k][edges[k].button] != edges[k].pressed
         && states[k + 1] == states[k][edges[k].button := edges[k].pressed]
  }

  /** Time never runs back. */
  ghost predicate Ordered(edges: seq<Edge>) {
    && (forall k :: 0 <= k < |edges| ==> edges[k].timestampNs >= 0)
    && (forall j, k :: 0 <= j < k < |edges| ==> edges[j].timestampNs <= edges[k].timestampNs)
  }

  ghost predicate DistinctTimes(edges: seq<Edge>) {
    forall j, k :: 0 <= j < k < |edges| ==> edges[j].timestampNs < edges[k].timestampNs
  }

  /** A batch takes the run from edge number `from` to `upto`.  It delivers some of
      the edges in between and perhaps a status read after `status` edges. */
  datatype Batch = Batch(delivered: seq<nat>, status: Option<nat>, upto: nat)

  ghost predicate Rising(ks: seq<nat>, from: nat, upto: nat) {
    && (forall i :: 0 <= i < |ks| ==> from <= ks[i] < upto)
    && (forall i, j :: 0 <= i < j < |ks| ==> ks[i] < ks[j])
  }

  /** What a batch can be: some of the edges in between, in order, and a status that
      was true at some time before its end. */
  ghost predicate Possible(b: Batch, from: nat, edges: seq<Edge>) {
    && from <= b.upto <= |edges|
    && Rising(b.delivered, from, b.upto)
    && (b.status.Some? ==> b.status.value <= b.upto)
  }

  /** The status is no older than an event of its batch or of an earlier batch, and no
      older than an earlier status: it was read after all of them. */
  ghost predicate StatusIsLatest(b: Batch, from: nat) {
    b.status.Some? ==> from <= b.status.value && Rising(b.delivered, from, b.status.value)
  }

  ghost predicate InOrder(b: Batch, from: nat, edges: seq<Edge>) {
    Possible(b, from, edges) && StatusIsLatest(b, from)
  }

  function Triple(e: Edge): seq<Sample> {
    [Sample(EventId, e.button, e.timestampNs), Sample(EventType, if e.pressed then 1 else 0, e.timestampNs),
     Sample(EventLength, e.lengthMs, e.timestampNs)]
  }

  function Triples(edges: seq<Edge>, ks: seq<nat>): seq<Sample>
    requires forall i :: 0 <= i < |ks| ==> ks[i] < |edges|
  {
    if ks == [] then [] else Triples(edges, ks[..|ks| - 1]) + Triple(edges[ks[|ks| - 1]])
  }

  function EventSamples(samples: seq<Sample>): seq<Sample> {
    if samples == [] then []
    else
      var last := samples[|samples| - 1];
      EventSamples(samples[..|samples| - 1]) + if IsEvent(last) then [last] else []
  }

  /** `samples` is a delivery of the batch: its events are whole triples in order,
      and its last status, if any, is truthful.  Other samples may be anywhere. */
  ghost predicate Carries(samples: seq<Sample>, b: Batch, states: seq<Table>, edges: seq<Edge>, from: nat)
    requires |states| == |edges| + 1 && Possible(b, from, edges)
  {
    && EventSamples(samples) == Triples(edges, b.delivered)
    && match LastStatus(samples)
       case None => b.status.None?
       case Some(value) => b.status.Some? && Mask(value) == states[b.status.value]
  }

  // ---- What a batch of triples collects to -----------------------------------

  function EntryOf(e: Edge): Entry {
    Entry(e.timestampNs, Some(e.button), Some(if e.pressed then 1 else 0), Some(e.lengthMs))
  }

  function Entries(edges: seq<Edge>, ks: seq<nat>): (entries: seq<Entry>)
    requires forall i :: 0 <= i < |ks| ==> ks[i] < |edges|
    ensures |entries| == |ks|
  {
    seq(|ks|, i requires 0 <= i < |ks| => EntryOf(edges[ks[i]]))
  }

  /** Of edges with equal timestamps only the last survives in the map. */
  function Survive(edges: seq<Edge>, js: seq<nat>, k: nat): (r: seq<nat>)
    requires k < |edges| && forall i :: 0 <= i < |js| ==> js[i] < |edges|
    ensures forall i :: 0 <= i < |r| ==> r[i] < |edges|
    ensures |r| > 0 && r[|r| - 1] == k
  {
    if js != [] && edges[js[|js| - 1]].timestampNs == edges[k].timestampNs
    then js[..|js| - 1] + [k]
    else js + [k]
  }

  function Survivors(edges: seq<Edge>, ks: seq<nat>): (js: seq<nat>)
    requires forall i :: 0 <= i < |ks| ==> ks[i] < |edges|
    ensures forall i :: 0 <= i < |js| ==> js[i] < |edges|
    ensures |ks| > 0 ==> |js| > 0 && js[|js| - 1] == ks[|ks| - 1]
  {
    if ks == [] then [] else Survive(edges, Survivors(edges, ks[..|ks| - 1]), ks[|ks| - 1])
  }

  /** All but the last of these edges are older than the last. */
  ghost predicate LastIsNewest(edges: seq<Edge>, js: seq<nat>)
    requires forall i :: 0 <= i < |js| ==> js[i] < |edges|
  {
    forall i :: 0 <= i < |js| - 1 ==> edges[js[i]].timestampNs < edges[js[|js| - 1]].timestampNs
  }

  lemma SurviveRises(edges: seq<Edge>, js: seq<nat>, k: nat, from: nat, upto: nat)
    requires Rising(js, from, upto) && from <= k < upto <= |edges| && LastIsNewest(edges, js)
    requires js != [] ==> js[|js| - 1] < k && edges[js[|js| - 1]].timestampNs <= edges[k].timestampNs
    ensures Rising(Survive(edges, js, k), from, upto) && LastIsNewest(edges, Survive(edges, js, k))
  {
    AppendRises(js, k, from, upto);
    if js != [] { AppendRises(js[..|js| - 1], k, from, upto); }
    SurviveIsNewest(edges, js, k);
  }

  lemma AppendRises(js: seq<nat>, k: nat, from: nat, upto: nat)
    requires Rising(js, from, upto) && from <= k < upto && (js != [] ==> js[|js| - 1] < k)
    ensures Rising(js + [k], from, upto)
  {
  }

  lemma SurviveIsNewest(edges: seq<Edge>, js: seq<nat>, k: nat)
    requires k < |edges| && forall i :: 0 <= i < |js| ==> js[i] < |edges|
    requires LastIsNewest(edges, js)
    requires js != [] ==> edges[js[|js| - 1]].timestampNs <= edges[k].timestampNs
    ensures LastIsNewest(edges, Survive(edges, js, k))
  {
  }

  lemma {:induction false} SurvivorsRise(edges: seq<Edge>, ks: seq<nat>, from: nat, upto: nat)
    requires Rising(ks, from, upto) && upto <= |edges|
    requires Ordered(edges)
    ensures Rising(Survivors(edges, ks), from, upto) && LastIsNewest(edges, Survivors(edges, ks))
  {
    if ks != [] {
      var before, k := ks[..|ks| - 1], ks[|ks| - 1];
      SurvivorsRise(edges, before, from, upto);
      if before != [] { assert before[|before| - 1] < k; }
      SurviveRises(edges, Survivors(edges, before), k, from, upto);
    }
  }

  lemma NewerSurvives(edges: seq<Edge>, js: seq<nat>, k: nat)
    requires k < |edges| && DistinctTimes(edges) && forall i :: 0 <= i < |js| ==> js[i] < k
    ensures Survive(edges, js, k) == js + [k]
  {
  }

  lemma {:induction false} AllSurvive(edges: seq<Edge>, ks: seq<nat>, from: nat, upto: nat)
    requires Rising(ks, from, upto) && upto <= |edges|
    requires DistinctTimes(edges)
    ensures Survivors(edges, ks) == ks
  {
    if ks != [] {
      var before, k := ks[..|ks| - 1], ks[|ks| - 1];
      AllSurvive(edges, before, from, upto);
      NewerSurvives(edges, before, k);
      FrontAndLast(ks);
    }
  }

  lemma FrontAndLast(ks: seq<nat>)
    requires ks != []
    ensures ks[..|ks| - 1] + [ks[|ks| - 1]] == ks
  {
  }

  lemma {:induction false} PutAtEnd(entries: seq<Entry>, sample: Sample)
    requires forall i :: 0 <= i < |entries| ==> entries[i].timestampNs < sample.timestampNs
    ensures Put(entries, sample) == entries + [SetField(Entry(sample.timestampNs, None, None, None), sample)]
  {
    if entries != [] {
      PutAtEnd(entries[1..], sample);
    }
  }

  lemma {:induction false} PutInLast(entries: seq<Entry>, last: Entry, sample: Sample)
    requires forall i :: 0 <= i < |entries| ==> entries[i].timestampNs < sample.timestampNs
    requires last.timestampNs == sample.timestampNs
    ensures Put(entries + [last], sample) == entries + [SetField(last, sample)]
  {
    if entries != [] {
      assert (entries + [last])[1..] == entries[1..] + [last];
      PutInLast(entries[1..], last, sample);
    }
  }

  lemma {:induction false} CollectIgnoresOthers(samples: seq<Sample>)
    ensures Collect(samples) == Collect(EventSamples(samples))
  {
    if samples != [] {
      var before, last := samples[..|samples| - 1], samples[|samples| - 1];
      CollectIgnoresOthers(before);
      if IsEvent(last) {
        assert (EventSamples(before) + [last])[..|EventSamples(before)|] == EventSamples(before);
      } else {
        assert EventSamples(samples) == EventSamples(before);
      }
    }
  }

  lemma CollectAppend(samples: seq<Sample>, last: Sample)
    requires IsEvent(last)
    ensures Collect(samples + [last]) == Put(Collect(samples), last)
  {
    assert (samples + [last])[..|samples|] == samples;
  }

  lemma CollectTriple(samples: seq<Sample>, e: Edge, older: seq<Entry>)
    requires forall i :: 0 <= i < |older| ==> older[i].timestampNs < e.timestampNs
    requires || Collect(samples) == older
             || (exists last: Entry :: last.timestampNs == e.timestampNs && Collect(samples) == older + [last])
    ensures Collect(samples + Triple(e)) == older + [EntryOf(e)]
  {
    var t := Triple(e);
    var first := Entry(e.timestampNs, None, None, None);
    CollectAppend(samples, t[0]);
    if Collect(samples) == older {
      PutAtEnd(older, t[0]);
    } else {
      first :| first.timestampNs == e.timestampNs && Collect(samples) == older + [first];
      PutInLast(older, first, t[0]);
    }
    var one := SetField(first, t[0]);
    CollectAppend(samples + [t[0]], t[1]);
    PutInLast(older, one, t[1]);
    var two := SetField(one, t[1]);
    CollectAppend(samples + [t[0]] + [t[1]], t[2]);
    PutInLast(older, two, t[2]);
    assert samples + [t[0]] + [t[1]] + [t[2]] == samples + t;
  }

  lemma LastSurvivorIsOlder(edges: seq<Edge>, before: seq<nat>, k: nat, from: nat, upto: nat)
    requires Rising(before, from, upto) && upto <= k < |edges| && Ordered(edges)
    ensures var js := Survivors(edges, before);
      && LastIsNewest(edges, js)
      && (js != [] ==> edges[js[|js| - 1]].timestampNs <= edges[k].timestampNs)
  {
    SurvivorsRise(edges, before, from, upto);
  }

  lemma {:induction false} CollectTriples(edges: seq<Edge>, ks: seq<nat>, from: nat, upto: nat)
    requires Rising(ks, from, upto) && upto <= |edges|
    requires Ordered(edges)
    ensures Collect(Triples(edges, ks)) == Entries(edges, Survivors(edges, ks))
    decreases |ks|
  {
    if ks != [] {
      var before, k := ks[..|ks| - 1], ks[|ks| - 1];
      assert Rising(before, from, k);
      CollectTriples(edges, before, from, k);
      LastSurvivorIsOlder(edges, before, k, from, k);
      CollectLast(edges, Triples(edges, before), Survivors(edges, before), k);
    }
  }

  lemma CollectLast(edges: seq<Edge>, samples: seq<Sample>, js: seq<nat>, k: nat)
    requires k < |edges| && forall i :: 0 <= i < |js| ==> js[i] < |edges|
    requires Collect(samples) == Entries(edges, js)
    requires forall i :: 0 <= i < |js| - 1 ==> edges[js[i]].timestampNs < edges[k].timestampNs
    requires js != [] ==> edges[js[|js| - 1]].timestampNs <= edges[k].timestampNs
    ensures Collect(samples + Triple(edges[k])) == Entries(edges, Survive(edges, js, k))
  {
    var all := Entries(edges, js);
    if js != [] && edges[js[|js| - 1]].timestampNs == edges[k].timestampNs {
      var older := all[..|js| - 1];
      assert all == older + [all[|js| - 1]];
      CollectTriple(samples, edges[k], older);
      assert older + [EntryOf(edges[k])] == Entries(edges, js[..|js| - 1] + [k]);
    } else {
      CollectTriple(samples, edges[k], all);
      assert all + [EntryOf(edges[k])] == Entries(edges, js + [k]);
    }
  }

  // ---- The invariant for one dash button -------------------------------------

  function Count(effects: seq<Effect>, b: nat): nat {
    if effects == [] then 0 else (if effects[0] == Action(b) then 1 else 0) + Count(effects[1..], b)
  }

  lemma {:induction false} CountConcat(x: seq<Effect>, y: seq<Effect>, b: nat)
    ensures Count(x + y, b) == Count(x, b) + Count(y, b)
  {
    if x == [] {
      assert x + y == y;
    } else {
      assert (x + y)[1..] == x[1..] + y;
      CountConcat(x[1..], y, b);
    }
  }

  /** After `presses` physical presses of button `b`, now held or not, the
      controller has acted `count` times.  A press it has not noticed yet is still
      owed.  With `exact` the table is up to date and every press has acted. */
  ghost predicate Ok(s: Controller, b: nat, held: bool, presses: nat, count: nat, exact: bool)
    requires b < DASH_BUTTONS
  {
    && count + (if s.known[b] && !s.pressed[b] && held then 1 else 0) <= presses
    && (!s.known[b] ==> count == 0)
    && (s.statusInitialized ==> s.known[b])
    && (exact ==> count == presses && (s.known[b] ==> s.pressed[b] == held))
  }

  ghost predicate OkAt(s: Controller, b: nat, states: seq<Table>, edges: seq<Edge>, n: nat, count: nat, exact: bool)
    requires b < DASH_BUTTONS && |states| == |edges| + 1 && n <= |edges|
  {
    Ok(s, b, states[n][b], Presses(edges, b, n), count, exact)
  }

  lemma SkipEdge(s: Controller, b: nat, states: seq<Table>, edges: seq<Edge>, k: nat, count: nat)
    requires b < DASH_BUTTONS && Wheel(states, edges) && k < |edges|
    requires OkAt(s, b, states, edges, k, count, false)
    ensures OkAt(s, b, states, edges, k + 1, count, false)
  {
  }

  lemma TakeEdge(s: Controller, b: nat, states: seq<Table>, edges: seq<Edge>, k: nat, count: nat, exact: bool)
    requires b < DASH_BUTTONS && Wheel(states, edges) && k < |edges|
    requires OkAt(s, b, states, edges, k, count, exact)
    requires exact ==> s.lastEventTimestampNs < edges[k].timestampNs
    ensures var o := ProcessEntry(s, EntryOf(edges[k]));
      && OkAt(o.state, b, states, edges, k + 1, count + Count(o.effects, b), exact)
      && (o.state.lastEventTimestampNs == s.lastEventTimestampNs
        || o.state.lastEventTimestampNs == edges[k].timestampNs)
  {
    var e := edges[k];
    if s.lastEventTimestampNs < e.timestampNs {
      var one := UpdateButton(s.(lastEventTimestampNs := e.timestampNs), e.button, e.pressed);
      var more := if e.pressed then [] else [Released(e.button, e.lengthMs)];
      CountConcat(one.effects, more, b);
    }
  }

  /** The controller has seen nothing newer than the edges from `n` on. */
  ghost predicate Recent(s: Controller, edges: seq<Edge>, n: nat) {
    forall k :: n <= k < |edges| ==> s.lastEventTimestampNs < edges[k].timestampNs
  }

  lemma AcceptedKeepsRecent(s: Controller, edges: seq<Edge>, k: nat)
    requires k < |edges| && DistinctTimes(edges) && Recent(s, edges, k)
    ensures Recent(ProcessEntry(s, EntryOf(edges[k])).state, edges, k + 1)
  {
  }

  lemma FirstEntry(s: Controller, edges: seq<Edge>, js: seq<nat>, b: nat)
    requires js != [] && forall i :: 0 <= i < |js| ==> js[i] < |edges|
    ensures var one := ProcessEntry(s, EntryOf(edges[js[0]]));
      var rest := ProcessEntries(one.state, Entries(edges, js[1..]));
      var all := ProcessEntries(s, Entries(edges, js));
      && all.state == rest.state
      && Count(all.effects, b) == Count(one.effects, b) + Count(rest.effects, b)
  {
    assert Entries(edges, js)[1..] == Entries(edges, js[1..]);
    var one := ProcessEntry(s, EntryOf(edges[js[0]]));
    CountConcat(one.effects, ProcessEntries(one.state, Entries(edges, js[1..])).effects, b);
  }

  lemma {:induction false} EdgesKeepRecent(s: Controller, edges: seq<Edge>, js: seq<nat>, from: nat, upto: nat)
    requires Rising(js, from, upto) && from <= upto <= |edges| && DistinctTimes(edges) && Recent(s, edges, from)
    ensures Recent(ProcessEntries(s, Entries(edges, js)).state, edges, upto)
    decreases |js|
  {
    if js != [] {
      AcceptedKeepsRecent(s, edges, js[0]);
      EdgesKeepRecent(ProcessEntry(s, EntryOf(edges[js[0]])).state, edges, js[1..], js[0] + 1, upto);
      FirstEntry(s, edges, js, 0);
    }
  }

  lemma {:induction false} TakeEdges(
    s: Controller, b: nat, states: seq<Table>, edges: seq<Edge>, js: seq<nat>, from: nat, upto: nat, count: nat,
    exact: bool)
    requires b < DASH_BUTTONS && Wheel(states, edges) && from <= upto <= |edges|
    requires Rising(js, from, upto)
    requires OkAt(s, b, states, edges, from, count, exact)
    requires exact ==> DistinctTimes(edges) && |js| == upto - from
    requires exact ==> Recent(s, edges, from)
    ensures var o := ProcessEntries(s, Entries(edges, js));
      OkAt(o.state, b, states, edges, upto, count + Count(o.effects, b), exact)
    decreases upto - from
  {
    if from < upto {
      if js != [] && js[0] == from {
        var one := ProcessEntry(s, EntryOf(edges[from]));
        TakeEdge(s, b, states, edges, from, count, exact);
        if exact { AcceptedKeepsRecent(s, edges, from); }
        TakeEdges(one.state, b, states, edges, js[1..], from + 1, upto, count + Count(one.effects, b), exact);
        FirstEntry(s, edges, js, b);
      } else {
        if exact { RisingIsShort(js, from + 1, upto); }
        SkipEdge(s, b, states, edges, from, count);
        TakeEdges(s, b, states, edges, js, from + 1, upto, count, exact);
      }
    }
  }

  lemma {:induction false} RisingIsShort(ks: seq<nat>, from: nat, upto: nat)
    requires Rising(ks, from, upto) && from <= upto
    ensures |ks| <= upto - from
    decreases |ks|
  {
    if ks != [] {
      RisingIsShort(ks[..|ks| - 1], from, ks[|ks| - 1]);
    }
  }

  /** Buttons already passed by a status frame are not touched again. */
  lemma {:induction false} StatusLeaves(s: Controller, first: bool, mask: Table, button: nat, b: nat)
    requires b < button <= BUTTONS
    ensures var o := StatusFrom(s, first, mask, button);
      && o.state.known[b] == s.known[b] && o.state.pressed[b] == s.pressed[b]
      && o.state.statusInitialized == s.statusInitialized && Count(o.effects, b) == 0
    decreases BUTTONS - button
  {
    if button < BUTTONS {
      StatusLeaves(StatusButton(s, first, button, mask[button]).state, first, mask, button + 1, b);
      OtherButton(s, first, button, mask[button], b);
      StatusFirst(s, first, mask, button, b);
    }
  }

  lemma OtherButton(s: Controller, first: bool, button: nat, pressed: bool, b: nat)
    requires button < BUTTONS && b < BUTTONS && button != b
    ensures var o := StatusButton(s, first, button, pressed);
      && o.state.known[b] == s.known[b] && o.state.pressed[b] == s.pressed[b]
      && o.state.statusInitialized == s.statusInitialized && Count(o.effects, b) == 0
  {
  }

  lemma StatusHits(s: Controller, first: bool, mask: Table, b: nat)
    requires b < DASH_BUTTONS
    ensures var o := StatusButton(s, first, b, mask[b]);
      && o.state.known[b] && o.state.pressed[b] == mask[b] && o.state.statusInitialized == s.statusInitialized
      && Count(o.effects, b) == if mask[b] && !(if s.known[b] then s.pressed[b] else first) then 1 else 0
  {
  }

  lemma StatusFirst(s: Controller, first: bool, mask: Table, button: nat, b: nat)
    requires button < BUTTONS
    ensures var one := StatusButton(s, first, button, mask[button]);
      var rest := StatusFrom(one.state, first, mask, button + 1);
      var o := StatusFrom(s, first, mask, button);
      o.state == rest.state && Count(o.effects, b) == Count(one.effects, b) + Count(rest.effects, b)
  {
    var one := StatusButton(s, first, button, mask[button]);
    CountConcat(one.effects, StatusFrom(one.state, first, mask, button + 1).effects, b);
  }

  /** From a status on a button is known and has the state the status shows; the dash
      acts on it exactly when it was known as released and is now shown as pressed. */
  lemma {:induction false} StatusActs(s: Controller, first: bool, mask: Table, button: nat, b: nat)
    requires button <= b < DASH_BUTTONS
    ensures var o := StatusFrom(s, first, mask, button);
      && o.state.known[b] && o.state.pressed[b] == mask[b] && o.state.statusInitialized == s.statusInitialized
      && Count(o.effects, b) == if mask[b] && !(if s.known[b] then s.pressed[b] else first) then 1 else 0
    decreases b - button
  {
    var one := StatusButton(s, first, button, mask[button]);
    StatusFirst(s, first, mask, button, b);
    if button == b {
      StatusHits(s, first, mask, b);
      StatusLeaves(one.state, first, mask, button + 1, b);
    } else {
      OtherButton(s, first, button, mask[button], b);
      StatusActs(one.state, first, mask, button + 1, b);
    }
  }

  /** What one status does about a dash button, in any state: afterwards the button is
      known as shown, and it has acted, once, if it is shown as pressed and was known as
      released, or was not known and this is not the first status. */
  lemma StatusIs(s: Controller, mask: Table, b: nat)
    requires b < 4
    ensures var o := ProcessStatus(s, mask);
      && o.state.statusInitialized && o.state.known[b] && o.state.pressed[b] == mask[b]
      && Count(o.effects, b)
        == if mask[b] && !(if s.known[b] then s.pressed[b] else !s.statusInitialized) then 1 else 0
  {
    StatusActs(s.(statusInitialized := true), !s.statusInitialized, mask, 0, b);
  }

  lemma {:induction false} StatusKeepsTime(s: Controller, first: bool, mask: Table, button: nat)
    requires button <= BUTTONS
    ensures StatusFrom(s, first, mask, button).state.lastEventTimestampNs == s.lastEventTimestampNs
    decreases BUTTONS - button
  {
    if button < BUTTONS {
      StatusKeepsTime(StatusButton(s, first, button, mask[button]).state, first, mask, button + 1);
    }
  }

  lemma TakeStatus(s: Controller, mask: Table, b: nat, presses: nat, count: nat, exact: bool)
    requires b < DASH_BUTTONS && Ok(s, b, mask[b], presses, count, exact)
    ensures var o := ProcessStatus(s, mask);
      && Ok(o.state, b, mask[b], presses, count + Count(o.effects, b), exact)
      && o.state.lastEventTimestampNs == s.lastEventTimestampNs
  {
    var t := s.(statusInitialized := true);
    StatusActs(t, !s.statusInitialized, mask, 0, b);
    StatusKeepsTime(t, !s.statusInitialized, mask, 0);
  }

  lemma {:induction false} SkipEdges(s: Controller, b: nat, states: seq<Table>, edges: seq<Edge>, from: nat,
    upto: nat, count: nat)
    requires b < DASH_BUTTONS && Wheel(states, edges) && from <= upto <= |edges|
    requires OkAt(s, b, states, edges, from, count, false)
    ensures OkAt(s, b, states, edges, upto, count, false)
    decreases upto - from
  {
    if from < upto {
      SkipEdge(s, b, states, edges, from, count);
      SkipEdges(s, b, states, edges, from + 1, upto, count);
    }
  }

  /** Every edge of the batch is delivered, in a stream without equal timestamps. */
  ghost predicate Complete(b: Batch, from: nat, edges: seq<Edge>) {
    DistinctTimes(edges) && |b.delivered| == b.upto - from
  }

  lemma CollectBatch(samples: seq<Sample>, edges: seq<Edge>, ks: seq<nat>, from: nat, upto: nat)
    requires Rising(ks, from, upto) && upto <= |edges| && Ordered(edges)
    requires EventSamples(samples) == Triples(edges, ks)
    ensures Collect(samples) == Entries(edges, Survivors(edges, ks))
  {
    CollectIgnoresOthers(samples);
    CollectTriples(edges, ks, from, upto);
  }

  lemma TakeBatch(s: Controller, samples: seq<Sample>, batch: Batch, b: nat, states: seq<Table>, edges: seq<Edge>,
    from: nat, count: nat, exact: bool)
    requires b < DASH_BUTTONS && Wheel(states, edges) && Ordered(edges) && InOrder(batch, from, edges)
    requires Carries(samples, batch, states, edges, from)
    requires exact ==> Complete(batch, from, edges) && Recent(s, edges, from)
    requires OkAt(s, b, states, edges, from, count, exact)
    ensures var o := ProcessSamples(s, samples);
      && OkAt(o.state, b, states, edges, batch.upto, count + Count(o.effects, b), exact)
      && (exact ==> Recent(o.state, edges, batch.upto))
  {
    var js := Survivors(edges, batch.delivered);
    CollectBatch(samples, edges, batch.delivered, from, batch.upto);
    if exact { AllSurvive(edges, batch.delivered, from, batch.upto); }
    match LastStatus(samples) {
      case None =>
        SurvivorsRise(edges, batch.delivered, from, batch.upto);
        TakeEdges(s, b, states, edges, js, from, batch.upto, count, exact);
        if exact { EdgesKeepRecent(s, edges, js, from, batch.upto); }
      case Some(value) =>
        SurvivorsRise(edges, batch.delivered, from, batch.status.value);
        if exact { RisingIsShort(js, from, batch.status.value); }
        TakeBatchWithStatus(s, js, Mask(value), b, states, edges, from, batch.status.value, batch.upto, count, exact);
    }
  }

  lemma TakeBatchWithStatus(s: Controller, js: seq<nat>, mask: Table, b: nat, states: seq<Table>, edges: seq<Edge>,
    from: nat, n: nat, upto: nat, count: nat, exact: bool)
    requires b < DASH_BUTTONS && Wheel(states, edges) && from <= n <= upto <= |edges|
    requires Rising(js, from, n) && mask == states[n]
    requires exact ==> DistinctTimes(edges) && |js| == n - from && n == upto && Recent(s, edges, from)
    requires OkAt(s, b, states, edges, from, count, exact)
    ensures var events := ProcessEntries(s, Entries(edges, js));
      var o := ProcessStatus(events.state, mask).After(events.effects);
      && OkAt(o.state, b, states, edges, upto, count + Count(o.effects, b), exact)
      && (exact ==> Recent(o.state, edges, upto))
  {
    var events := ProcessEntries(s, Entries(edges, js));
    TakeEdges(s, b, states, edges, js, from, n, count, exact);
    if exact { EdgesKeepRecent(s, edges, js, from, n); }
    var c := count + Count(events.effects, b);
    TakeStatus(events.state, mask, b, Presses(edges, b, n), c, exact);
    var status := ProcessStatus(events.state, mask);
    CountConcat(events.effects, status.effects, b);
    if !exact { SkipEdges(status.state, b, states, edges, n, upto, c + Count(status.effects, b)); }
  }

  // ---- Whole runs ------------------------------------------------------------

  function Run(s: Controller, deliveries: seq<seq<Sample>>): Outcome
    decreases |deliveries|
  {
    if deliveries == [] then Outcome(s, [])
    else
      var one := ProcessSamples(s, deliveries[0]);
      Run(one.state, deliveries[1..]).After(one.effects)
  }

  /** Batch after batch in order, from edge number `from` on. */
  ghost predicate Delivers(deliveries: seq<seq<Sample>>, batches: seq<Batch>, states: seq<Table>, edges: seq<Edge>,
    from: nat)
    requires |states| == |edges| + 1
    decreases |batches|
  {
    && |deliveries| == |batches|
    && (batches != [] ==>
          && InOrder(batches[0], from, edges)
          && Carries(deliveries[0], batches[0], states, edges, from)
          && Delivers(deliveries[1..], batches[1..], states, edges, batches[0].upto))
  }

  /** Nothing between `from` and the end of the run is lost. */
  ghost predicate Lossless(batches: seq<Batch>, edges: seq<Edge>, from: nat)
    decreases |batches|
  {
    batches != [] ==>
      from <= batches[0].upto && Complete(batches[0], from, edges) && Lossless(batches[1..], edges, batches[0].upto)
  }

  function End(batches: seq<Batch>, from: nat): nat
    decreases |batches|
  {
    if batches == [] then from else End(batches[1..], batches[0].upto)
  }

  lemma {:induction false} RunFrom(s: Controller, deliveries: seq<seq<Sample>>, batches: seq<Batch>, b: nat,
    states: seq<Table>, edges: seq<Edge>, from: nat, count: nat, exact: bool)
    requires b < DASH_BUTTONS && Wheel(states, edges) && Ordered(edges) && from <= |edges|
    requires Delivers(deliveries, batches, states, edges, from)
    requires exact ==> Lossless(batches, edges, from) && Recent(s, edges, from)
    requires OkAt(s, b, states, edges, from, count, exact)
    ensures End(batches, from) <= |edges|
    ensures var o := Run(s, deliveries);
      OkAt(o.state, b, states, edges, End(batches, from), count + Count(o.effects, b), exact)
    decreases |batches|
  {
    if batches != [] {
      var one := ProcessSamples(s, deliveries[0]);
      TakeBatch(s, deliveries[0], batches[0], b, states, edges, from, count, exact);
      RunFrom(one.state, deliveries[1..], batches[1..], b, states, edges, batches[0].upto,
              count + Count(one.effects, b), exact);
      CountConcat(one.effects, Run(one.state, deliveries[1..]).effects, b);
    }
  }

  /** No press acts twice: in every run whose statuses are truthful and read after
      everything delivered before them, in their own batch or an earlier one, whatever
      events are lost, a dash button never acts more often than it was pressed. */
  lemma NoDuplicateActions(deliveries: seq<seq<Sample>>, batches: seq<Batch>, b: nat, states: seq<Table>,
    edges: seq<Edge>)
    requires b < DASH_BUTTONS && Wheel(states, edges) && Ordered(edges)
    requires Delivers(deliveries, batches, states, edges, 0)
    ensures End(batches, 0) <= |edges|
    ensures Count(Run(INITIAL, deliveries).effects, b) <= Presses(edges, b, End(batches, 0))
  {
    RunFrom(INITIAL, deliveries, batches, b, states, edges, 0, 0, false);
  }

  /** When no event is lost and no two edges share a timestamp, every press acts once. */
  lemma EveryPressActsOnce(deliveries: seq<seq<Sample>>, batches: seq<Batch>, b: nat, states: seq<Table>,
    edges: seq<Edge>)
    requires b < DASH_BUTTONS && Wheel(states, edges) && Ordered(edges)
    requires Delivers(deliveries, batches, states, edges, 0) && Lossless(batches, edges, 0)
    ensures End(batches, 0) <= |edges|
    ensures Count(Run(INITIAL, deliveries).effects, b) == Presses(edges, b, End(batches, 0))
  {
    RunFrom(INITIAL, deliveries, batches, b, states, edges, 0, 0, true);
  }

  // ---- Buttons that are not the dash's ---------------------------------------

  lemma {:induction false} EventsOfOthers(s: Controller, entries: seq<Entry>, b: nat)
    requires b >= 4
    ensures Count(ProcessEntries(s, entries).effects, b) == 0
    decreases |entries|
  {
    if entries != [] {
      var one := ProcessEntry(s, entries[0]);
      EventsOfOthers(one.state, entries[1..], b);
      CountConcat(one.effects, ProcessEntries(one.state, entries[1..]).effects, b);
    }
  }

  lemma {:induction false} StatusOfOthers(s: Controller, first: bool, mask: Table, button: nat, b: nat)
    requires button <= BUTTONS && b >= 4
    ensures Count(StatusFrom(s, first, mask, button).effects, b) == 0
    decreases BUTTONS - button
  {
    if button < BUTTONS {
      StatusOfOthers(StatusButton(s, first, button, mask[button]).state, first, mask, button + 1, b);
      StatusFirst(s, first, mask, button, b);
    }
  }

  lemma BatchOfOthers(s: Controller, samples: seq<Sample>, b: nat)
    requires b >= 4
    ensures Count(ProcessSamples(s, samples).effects, b) == 0
  {
    var events := ProcessEntries(s, Collect(samples));
    EventsOfOthers(s, Collect(samples), b);
    if LastStatus(samples).Some? {
      var mask := Mask(LastStatus(samples).value);
      StatusOfOthers(events.state.(statusInitialized := true), !events.state.statusInitialized, mask, 0, b);
      CountConcat(events.effects, ProcessStatus(events.state, mask).effects, b);
    }
  }

  /** The four upper buttons never act on the dash, in any run. */
  lemma {:induction false} OnlyDashButtonsAct(s: Controller, deliveries: seq<seq<Sample>>, b: nat)
    requires b >= 4
    ensures Count(Run(s, deliveries).effects, b) == 0
    decreases |deliveries|
  {
    if deliveries != [] {
      var one := ProcessSamples(s, deliveries[0]);
      BatchOfOthers(s, deliveries[0], b);
      OnlyDashButtonsAct(one.state, deliveries[1..], b);
      CountConcat(one.effects, Run(one.state, deliveries[1..]).effects, b);
    }
  }

  // ---- Old events -----------------------------------------------------------

  ghost predicate AllOld(entries: seq<Entry>, timestampNs: int) {
    forall i :: 0 <= i < |entries| ==> entries[i].timestampNs <= timestampNs
  }

  lemma {:induction false} PutKeepsOld(entries: seq<Entry>, sample: Sample, timestampNs: int)
    requires AllOld(entries, timestampNs) && sample.timestampNs <= timestampNs
    ensures AllOld(Put(entries, sample), timestampNs)
  {
    if entries != [] && sample.timestampNs > entries[0].timestampNs {
      PutKeepsOld(entries[1..], sample, timestampNs);
    }
  }

  lemma {:induction false} CollectOld(samples: seq<Sample>, timestampNs: int)
    requires forall i :: 0 <= i < |samples| && IsEvent(samples[i]) ==> samples[i].timestampNs <= timestampNs
    ensures AllOld(Collect(samples), timestampNs)
  {
    if samples != [] {
      CollectOld(samples[..|samples| - 1], timestampNs);
      if IsEvent(samples[|samples| - 1]) {
        PutKeepsOld(Collect(samples[..|samples| - 1]), samples[|samples| - 1], timestampNs);
      }
    }
  }

  lemma {:induction false} OldEntriesDoNothing(s: Controller, entries: seq<Entry>)
    requires AllOld(entries, s.lastEventTimestampNs)
    ensures ProcessEntries(s, entries) == Outcome(s, [])
  {
    if entries != [] {
      OldEntriesDoNothing(s, entries[1..]);
    }
  }

  /** Redelivered events, in any mixture and completeness, change nothing. */
  lemma RedeliveryChangesNothing(s: Controller, samples: seq<Sample>)
    requires LastStatus(samples).None?
    requires forall i :: 0 <= i < |samples| && IsEvent(samples[i]) ==> samples[i].timestampNs <= s.lastEventTimestampNs
    ensures ProcessSamples(s, samples) == Outcome(s, [])
  {
    CollectOld(samples, s.lastEventTimestampNs);
    OldEntriesDoNothing(s, Collect(samples));
  }
}
