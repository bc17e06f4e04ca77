/** Runs of the host selector: any interleaving of discovery, check results, sorting, transport
    errors and selections, under a clock that does not run backwards.  A selection reads the errors
    of the hosts one after another, and errors may change between two readings. */
module SelectorRuns {
  import opened Types
  import opened Selector

  /** What the configuration guarantees: the fallback exists, and it and the preferred host are
      never members of the discovered list. */
  predicate Configured(v: View) {
    v.fallback != null && forall h :: h in v.hosts ==> h != v.fallback && h != v.prefer
  }

  predicate Healthy(v: View, h: Host) {
    h in v.hosts && h !in v.failing
  }

  ghost predicate SomeHealthy(v: View) {
    exists h :: h in v.hosts && Healthy(v, h)
  }

  /** A listed host without error has the identity. */
  ghost predicate Serves(v: View, id: string) {
    exists h :: h in v.hosts && Healthy(v, h) && h.id == id
  }

  // ---------- one selection ----------

  /** The selection is a listed host without error, or the fallback, and that exactly when no
      listed host is without error. */
  ghost predicate Safe(v: View) {
    && v.selected != null
    && (v.selected == v.fallback || Healthy(v, v.selected))
    && (v.selected == v.fallback <==> !SomeHealthy(v))
  }

  lemma SelectionIsSafe(v: View, now: int, later: int, interval: nat)
    requires Configured(v)
    ensures Safe(AfterSelect(v, now, later, interval))
  {
    var v' := AfterSelect(v, now, later, interval);
    var first := First(v.hosts, v.failing, None);
    FirstMeans(v.hosts, v.failing, None);
    if v.selected != null {
      FirstMeans(v.hosts, v.failing, Some(v.selected.id));
    }
    if v.prefer != null {
      FirstMeans(v.hosts, v.failing, Some(v.prefer.id));
    }
    if first == null {
      forall h
        ensures !Healthy(v', h)
      {
        assert h in v.hosts ==> !Matches(h, v.failing, None);
      }
    } else {
      assert Healthy(v', first);
    }
  }

  /** The documented order: the selected host within the sticky period, else the preferred one,
      else the first in the list, else the fallback. */
  lemma SelectionOrder(v: View, now: int, later: int, interval: nat)
    requires Configured(v)
    ensures var selected := AfterSelect(v, now, later, interval).selected;
      if now < v.stickyUntil && v.selected != null && Serves(v, v.selected.id) then
        selected != null && selected.id == v.selected.id
      else if v.prefer != null && Serves(v, v.prefer.id) then selected != null && selected.id == v.prefer.id
      else if SomeHealthy(v) then selected == First(v.hosts, v.failing, None)
      else selected == v.fallback
  {
    if v.selected != null {
      FirstServes(v, v.selected.id);
    }
    if v.prefer != null {
      FirstServes(v, v.prefer.id);
    }
    if h :| Healthy(v, h) {
      assert Matches(h, v.failing, None);
    }
    FirstMeans(v.hosts, v.failing, None);
    var first := First(v.hosts, v.failing, None);
    if first != null {
      assert Healthy(v, first);
    }
  }

  lemma FirstServes(v: View, id: string)
    ensures var first := First(v.hosts, v.failing, Some(id));
      if Serves(v, id) then first != null && first.id == id else first == null
  {
    var first := First(v.hosts, v.failing, Some(id));
    FirstMeans(v.hosts, v.failing, Some(id));
    if first != null {
      assert Healthy(v, first);
    }
    if h :| Healthy(v, h) && h.id == id {
      assert Matches(h, v.failing, Some(id));
    }
  }

  /** A host whose request failed, selected still or not, is not the selection afterwards, unless
      it is the fallback and no listed host is without error. */
  lemma FailedHostIsDropped(v: View, h: Host, now: int, later: int, interval: nat)
    requires Configured(v)
    ensures AfterSelect(Marked(v, h), now, later, interval).selected == h <==>
      h == v.fallback && !SomeHealthy(v)
  {
    var m := Marked(v, h);
    SelectionIsSafe(m, now, later, interval);
    var v' := AfterSelect(m, now, later, interval);
    if h == v.fallback {
      forall x
        ensures Healthy(v', x) <==> Healthy(v, x)
      {
      }
    }
  }

  // ---------- errors as they are read ----------

  /** The view of a selection that has read the hosts clean, and no others, to be without error. */
  function AsRead(v: View, clean: seq<Host>): View {
    v.(hosts := clean, failing := {})
  }

  function SelectFrom(v: View, clean: seq<Host>, now: int, later: int, interval: nat): View {
    AfterSelect(AsRead(v, clean), now, later, interval).(hosts := v.hosts, failing := v.failing)
  }

  /** The hosts without error, in order. */
  function Clean(hosts: seq<Host>, failing: set<Host>): seq<Host> {
    if hosts == [] then [] else
      Clean(hosts[..|hosts| - 1], failing) +
      if hosts[|hosts| - 1] in failing then [] else [hosts[|hosts| - 1]]
  }

  lemma FirstOfMore(hosts: seq<Host>, h: Host, wanted: Option<string>)
    ensures First(hosts + [h], {}, wanted) ==
      if First(hosts, {}, wanted) != null then First(hosts, {}, wanted) else if Matches(h, {}, wanted) then h else null
  {
    assert (hosts + [h])[..|hosts|] == hosts;
  }

  lemma {:induction false} FirstOfClean(hosts: seq<Host>, failing: set<Host>, wanted: Option<string>)
    ensures First(Clean(hosts, failing), {}, wanted) == First(hosts, failing, wanted)
  {
    if hosts != [] {
      var clean, last := Clean(hosts[..|hosts| - 1], failing), hosts[|hosts| - 1];
      FirstOfClean(hosts[..|hosts| - 1], failing, wanted);
      FirstOfMore(clean, last, wanted);
      assert Clean(hosts, failing) == if last in failing then clean else clean + [last];
    }
  }

  lemma FirstLikeOfClean(hosts: seq<Host>, failing: set<Host>, like: Host?)
    ensures FirstLike(Clean(hosts, failing), {}, like) == FirstLike(hosts, failing, like)
  {
    if like != null {
      FirstOfClean(hosts, failing, Some(like.id));
    }
  }

  /** When errors do not change meanwhile, a selection goes by the errors as they are. */
  lemma UndisturbedSelection(v: View, now: int, later: int, interval: nat)
    ensures SelectFrom(v, Clean(v.hosts, v.failing), now, later, interval) == AfterSelect(v, now, later, interval)
  {
    FirstOfClean(v.hosts, v.failing, None);
    FirstLikeOfClean(v.hosts, v.failing, v.selected);
    FirstLikeOfClean(v.hosts, v.failing, v.prefer);
    assert Chosen(AsRead(v, Clean(v.hosts, v.failing)), now) == Chosen(v, now);
  }

  /** What would be read after both the selected and the preferred host were found does not matter. */
  lemma EarlyExit(v: View, clean: seq<Host>, more: seq<Host>, now: int, later: int, interval: nat)
    requires FirstLike(clean, {}, v.selected) != null && FirstLike(clean, {}, v.prefer) != null
    ensures SelectFrom(v, clean + more, now, later, interval) == SelectFrom(v, clean, now, later, interval)
  {
    LikeImpliesFirst(clean, {}, v.selected);
    assert (clean + more)[..|clean|] == clean;
    AllFound(AsRead(v, clean + more), |clean|);
    assert Chosen(AsRead(v, clean + more), now) == Chosen(AsRead(v, clean), now);
  }

  // ---------- runs ----------

  /** A selection under way: how many hosts it has read, and those it has read without error. */
  datatype Scan = Scan(read: nat, clean: seq<Host>)

  datatype State = State(view: View, clock: int, scan: Option<Scan>)

  datatype Event =
    | Discovered
    | HostError(h: Host, failed: bool)
    | ListSorted
    | ScanStarted
    | HostRead
    | Selection(now: int, later: int)

  /** Only errors change while a selection is under way: it holds the selector's lock. */
  ghost predicate Step(interval: nat, s: State, e: Event, s': State) {
    match e
    case Discovered =>
      s.scan.None? && s'.clock == s.clock && s'.scan == None && DiscoverStep(s.view, s'.view)
    case HostError(h, failed) =>
      s' == s.(view := s.view.(failing := if !failed then s.view.failing - {h}
        else if h in s.view.hosts then s.view.failing + {h} else s.view.failing))
    case ListSorted =>
      && s.scan.None? && multiset(s'.view.hosts) == multiset(s.view.hosts)
      && s' == s.(view := s.view.(hosts := s'.view.hosts))
    case ScanStarted => s.scan.None? && s' == s.(scan := Some(Scan(0, [])))
    case HostRead =>
      && s.scan.Some? && s.scan.value.read < |s.view.hosts|
      && s' == s.(scan := Some(AfterRead(s.view, s.scan.value)))
    case Selection(now, later) =>
      && s.scan.Some? && s.scan.value.read == |s.view.hosts| && s.clock <= now <= later
      && s' == State(SelectFrom(s.view, s.scan.value.clean, now, later, interval), later, None)
  }

  function AfterRead(v: View, scan: Scan): Scan
    requires scan.read < |v.hosts|
  {
    var h := v.hosts[scan.read];
    Scan(scan.read + 1, if h in v.failing then scan.clean else scan.clean + [h])
  }

  /** As NewSelector leaves it, or a quick one once started. */
  ghost predicate Initial(interval: nat, s: State) {
    && s.view.fallback != null && s.view.hosts == [] && s.view.failing == {}
    && s.view.selected in {null, s.view.fallback}
    && s.view.stickyUntil <= s.clock + 5 * interval && s.scan.None?
  }

  ghost predicate IsRun(interval: nat, states: seq<State>, events: seq<Event>) {
    Connected(interval, states, events) && Initial(interval, states[0])
  }

  /** A sequence of steps, from any state. */
  ghost predicate Connected(interval: nat, states: seq<State>, events: seq<Event>) {
    && |states| == |events| + 1
    && forall i :: 0 <= i < |events| ==> Step(interval, states[i], events[i], states[i + 1])
  }

  ghost predicate Inv(interval: nat, s: State) {
    && Configured(s.view) && s.view.stickyUntil <= s.clock + 5 * interval
    && (s.scan.Some? ==> forall h :: h in s.scan.value.clean ==> h in s.view.hosts)
  }

  lemma StepKeepsInv(interval: nat, s: State, e: Event, s': State)
    requires Inv(interval, s) && Step(interval, s, e, s')
    ensures Inv(interval, s') && s.clock <= s'.clock
    ensures s'.view.fallback == s.view.fallback
    ensures s.view.selected != null ==> s'.view.selected != null
    ensures s.view.stickyUntil <= s'.view.stickyUntil
    ensures e.Selection? ==> Safe(AsRead(s'.view, s.scan.value.clean))
    ensures !e.Selection? ==> s'.view.selected == s.view.selected && s'.view.stickyUntil == s.view.stickyUntil
  {
    match e
    case ListSorted =>
      forall h | h in s'.view.hosts
        ensures h in s.view.hosts
      {
        assert h in multiset(s'.view.hosts);
      }
    case Selection(now, later) => SelectionIsSafe(AsRead(s.view, s.scan.value.clean), now, later, interval);
    case _ =>
  }

  lemma {:induction false} RunKeepsInv(interval: nat, states: seq<State>, events: seq<Event>, k: nat)
    requires IsRun(interval, states, events) && k < |states|
    ensures Inv(interval, states[k])
    decreases k
  {
    if k > 0 {
      RunKeepsInv(interval, states, events, k - 1);
      StepKeepsInv(interval, states[k - 1], events[k - 1], states[k]);
    }
  }

  /** From the first selection on there is always a host selected; the sticky deadline never moves back. */
  lemma {:induction false} SelectionIsNeverLost(interval: nat, states: seq<State>, events: seq<Event>, i: nat, j: nat)
    requires IsRun(interval, states, events) && i <= j < |states|
    ensures states[i].view.selected != null ==> states[j].view.selected != null
    ensures states[i].view.stickyUntil <= states[j].view.stickyUntil
    decreases j
  {
    if i < j {
      SelectionIsNeverLost(interval, states, events, i, j - 1);
      RunKeepsInv(interval, states, events, j - 1);
      StepKeepsInv(interval, states[j - 1], events[j - 1], states[j]);
    }
  }

  // ---------- what a selection has read ----------

  /** h was listed without error in some state after b. */
  ghost predicate HealthySince(states: seq<State>, b: nat, k: nat, h: Host) {
    exists m :: b < m <= k < |states| && Healthy(states[m].view, h)
  }

  ghost predicate FailingSince(states: seq<State>, b: nat, k: nat, h: Host) {
    exists m :: b < m <= k < |states| && h in states[m].view.failing
  }

  /** The selection under way in state k began in state b; it has read from the one list every host
      with an error it had meanwhile, or without error when it was. */
  ghost predicate ReadSince(states: seq<State>, b: nat, k: nat)
    requires k < |states| && states[k].scan.Some?
  {
    var hosts, scan := states[k].view.hosts, states[k].scan.value;
    && b < k && states[b].scan.None?
    && (forall m :: b < m <= k ==> states[m].scan.Some? && states[m].view.hosts == hosts)
    && (forall h :: h in scan.clean ==> HealthySince(states, b, k, h))
    && scan.read <= |hosts|
    && (forall i :: 0 <= i < scan.read ==> hosts[i] in scan.clean || FailingSince(states, b, k, hosts[i]))
  }

  lemma {:induction false} ScansRead(interval: nat, states: seq<State>, events: seq<Event>, k: nat) returns (b: nat)
    requires IsRun(interval, states, events) && k < |states| && states[k].scan.Some?
    ensures ReadSince(states, b, k)
    decreases k
  {
    assert k > 0 && Step(interval, states[k - 1], events[k - 1], states[k]);
    if events[k - 1].ScanStarted? {
      b := k - 1;
    } else {
      b := ScansRead(interval, states, events, k - 1);
      ReadOn(interval, states, events, b, k);
    }
  }

  lemma ReadOn(interval: nat, states: seq<State>, events: seq<Event>, b: nat, k: nat)
    requires Connected(interval, states, events) && 0 < k < |states| && states[k - 1].scan.Some?
    requires states[k].scan.Some? && ReadSince(states, b, k - 1)
    ensures ReadSince(states, b, k)
  {
    var s, s' := states[k - 1], states[k];
    assert Step(interval, s, events[k - 1], s');
    forall h | HealthySince(states, b, k - 1, h)
      ensures HealthySince(states, b, k, h)
    {
    }
    forall h | FailingSince(states, b, k - 1, h)
      ensures FailingSince(states, b, k, h)
    {
    }
    if events[k - 1].HostRead? {
      var h := s.view.hosts[s.scan.value.read];
      assert h in s.view.failing ==> FailingSince(states, b, k, h);
      assert h !in s.view.failing ==> Healthy(s.view, h) && HealthySince(states, b, k, h);
    }
  }

  /** Every selection of every run is safe for the errors as it read them, each at some time since
      it began in state b: the selected host was without error, or it is the fallback and every
      listed host had an error.  If errors did not change meanwhile, it is safe for the errors as
      they are. */
  lemma EverySelectionIsSafe(interval: nat, states: seq<State>, events: seq<Event>, k: nat) returns (b: nat)
    requires IsRun(interval, states, events) && k < |events| && events[k].Selection?
    ensures b < k && events[b].ScanStarted?
    ensures var v := states[k + 1].view;
      && v.selected != null && v.hosts == states[b].view.hosts
      && (if v.selected == v.fallback then forall h :: h in v.hosts ==> FailingSince(states, b, k, h)
          else HealthySince(states, b, k, v.selected))
    ensures (forall m :: b < m <= k ==> states[m].view.failing == states[k].view.failing) ==> Safe(states[k + 1].view)
  {
    RunKeepsInv(interval, states, events, k);
    StepKeepsInv(interval, states[k], events[k], states[k + 1]);
    b := ScansRead(interval, states, events, k);
    assert Step(interval, states[b], events[b], states[b + 1]);
    var v, clean := states[k + 1].view, states[k].scan.value.clean;
    if v.selected == v.fallback {
      forall h | h in v.hosts
        ensures FailingSince(states, b, k, h)
      {
        assert Healthy(AsRead(v, clean), h) <==> h in clean;
      }
    } else {
      assert v.selected in clean;
    }
  }

  /** A host that is listed without error all along is read without error. */
  lemma HealthyIsRead(states: seq<State>, b: nat, k: nat, h: Host)
    requires k < |states| && states[k].scan.Some? && ReadSince(states, b, k)
    requires states[k].scan.value.read == |states[k].view.hosts|
    requires forall m :: b < m <= k ==> Healthy(states[m].view, h)
    ensures h in states[k].scan.value.clean
  {
    assert Healthy(states[k].view, h);
  }

  // ---------- stickiness ----------

  /** Every selection reads a host of the identity without error, and the clock before the deadline. */
  ghost predicate StaysServed(states: seq<State>, events: seq<Event>, id: string, deadline: int, i: nat, j: nat)
    requires i <= j < |states| && |states| == |events| + 1
  {
    forall k :: i <= k < j && events[k].Selection? ==>
      states[k].scan.Some? && Serves(AsRead(states[k].view, states[k].scan.value.clean), id) && events[k].now < deadline
  }

  /** One step of a run keeps a selection whose identity is served before the deadline. */
  lemma StickyStep(interval: nat, s: State, e: Event, s': State, id: string)
    requires Inv(interval, s) && Step(interval, s, e, s')
    requires s.view.selected != null && s.view.selected.id == id
    requires e.Selection? ==> Serves(AsRead(s.view, s.scan.value.clean), id) && e.now < s.view.stickyUntil
    ensures s'.view.selected != null && s'.view.selected.id == id
  {
    StepKeepsInv(interval, s, e, s');
    if e.Selection? {
      SelectionOrder(AsRead(s.view, s.scan.value.clean), e.now, e.later, interval);
    }
  }

  /** A selection with a sticky deadline holds that identity until the deadline, whatever else appears. */
  lemma {:induction false} StickinessHolds(interval: nat, states: seq<State>, events: seq<Event>, id: string, i: nat,
    j: nat)
    requires IsRun(interval, states, events) && i <= j < |states|
    requires states[i].view.selected != null && states[i].view.selected.id == id
    requires StaysServed(states, events, id, states[i].view.stickyUntil, i, j)
    ensures states[j].view.selected != null && states[j].view.selected.id == id
    decreases j
  {
    if i < j {
      assert StaysServed(states, events, id, states[i].view.stickyUntil, i, j - 1);
      StickinessHolds(interval, states, events, id, i, j - 1);
      SelectionIsNeverLost(interval, states, events, i, j - 1);
      RunKeepsInv(interval, states, events, j - 1);
      StickyStep(interval, states[j - 1], events[j - 1], states[j], id);
    }
  }

  /** A host of the identity that is listed without error from state i on serves every selection
      that begins from then on. */
  lemma HealthyStaysServed(interval: nat, states: seq<State>, events: seq<Event>, h: Host, deadline: int, i: nat,
    j: nat)
    requires IsRun(interval, states, events) && i <= j < |states| && states[i].scan.None?
    requires forall m :: i <= m < j ==> Healthy(states[m].view, h)
    requires forall k :: i <= k < j && events[k].Selection? ==> events[k].now < deadline
    ensures StaysServed(states, events, h.id, deadline, i, j)
  {
    forall k | i <= k < j && events[k].Selection?
      ensures states[k].scan.Some? && Serves(AsRead(states[k].view, states[k].scan.value.clean), h.id)
    {
      assert Step(interval, states[k], events[k], states[k + 1]);
      var b := ScansRead(interval, states, events, k);
      HealthyIsRead(states, b, k, h);
      assert Healthy(AsRead(states[k].view, states[k].scan.value.clean), h);
    }
  }

  /** A host chosen by a selection, at the second reading of its clock, keeps the selection for
      five check intervals. */
  lemma ChosenForFiveIntervals(interval: nat, states: seq<State>, events: seq<Event>, i: nat, j: nat)
    requires IsRun(interval, states, events) && i < j < |states| && events[i].Selection?
    requires states[i].view.selected != states[i + 1].view.selected || states[i].view.stickyUntil <= events[i].now
    requires states[i + 1].view.selected != null
    requires StaysServed(states, events, states[i + 1].view.selected.id, events[i].later + 5 * interval, i + 1, j)
    ensures states[j].view.selected != null && states[j].view.selected.id == states[i + 1].view.selected.id
  {
    RunKeepsInv(interval, states, events, i);
    assert Step(interval, states[i], events[i], states[i + 1]);
    SelectionIsSafe(AsRead(states[i].view, states[i].scan.value.clean), events[i].now, events[i].later, interval);
    StickinessHolds(interval, states, events, states[i + 1].view.selected.id, i + 1, j);
  }

  // ---------- the end of stickiness ----------

  /** A selection that keeps the host before the deadline leaves the deadline as it is; any other
      sets it five check intervals after its second reading of the clock. */
  lemma DeadlineMoves(v: View, now: int, later: int, interval: nat)
    requires Configured(v)
    ensures var v' := AfterSelect(v, now, later, interval);
      v'.stickyUntil == if v'.selected == v.selected && now < v.stickyUntil then v.stickyUntil else later + 5 * interval
  {
    SelectionIsSafe(v, now, later, interval);
  }

  /** Selection i set the deadline, and those up to j came before it and kept the host. */
  ghost predicate KeptSince(interval: nat, states: seq<State>, events: seq<Event>, i: nat, j: nat)
    requires i < j < |states| && |states| == |events| + 1
  {
    && events[i].Selection?
    && (states[i].view.selected != states[i + 1].view.selected || states[i].view.stickyUntil <= events[i].now)
    && forall m :: i < m < j && events[m].Selection? ==>
      events[m].now < events[i].later + 5 * interval && states[m + 1].view.selected == states[i + 1].view.selected
  }

  lemma {:induction false} DeadlineStays(interval: nat, states: seq<State>, events: seq<Event>, i: nat, j: nat)
    requires IsRun(interval, states, events) && i < j < |states| && KeptSince(interval, states, events, i, j)
    ensures states[j].view.stickyUntil == events[i].later + 5 * interval
    ensures states[j].view.selected == states[i + 1].view.selected
    decreases j
  {
    RunKeepsInv(interval, states, events, j - 1);
    StepKeepsInv(interval, states[j - 1], events[j - 1], states[j]);
    var s, e := states[j - 1], events[j - 1];
    if i + 1 < j {
      DeadlineStays(interval, states, events, i, j - 1);
    }
    if e.Selection? {
      DeadlineMoves(AsRead(s.view, s.scan.value.clean), e.now, e.later, interval);
    }
  }

  /** Once the deadline has passed, the next selection takes the preferred host if it reads it
      without error, however often the selected one was kept before. */
  lemma StickinessEnds(interval: nat, states: seq<State>, events: seq<Event>, i: nat, k: nat)
    requires IsRun(interval, states, events) && i < k < |events| && KeptSince(interval, states, events, i, k)
    requires events[k].Selection? && events[i].later + 5 * interval <= events[k].now
    requires var v := states[k].view;
      v.prefer != null && states[k].scan.Some? && Serves(AsRead(v, states[k].scan.value.clean), v.prefer.id)
    ensures states[k + 1].view.selected != null && states[k + 1].view.selected.id == states[k].view.prefer.id
  {
    DeadlineStays(interval, states, events, i, k);
    RunKeepsInv(interval, states, events, k);
    assert Step(interval, states[k], events[k], states[k + 1]);
    SelectionOrder(AsRead(states[k].view, states[k].scan.value.clean), events[k].now, events[k].later, interval);
  }

  // ---------- the code takes these steps ----------

  /** A new selector, and a quick one that has been started, are where runs begin. */
  lemma NewSelectorIsInitial(interval: nat, v: View, clock: int)
    requires v.fallback != null && v == View([], {}, v.selected, v.stickyUntil, v.prefer, v.fallback)
    requires v.selected in {null, v.fallback} && v.stickyUntil <= clock
    ensures IsRun(interval, [State(v, clock, None)], [])
  {
  }

  /** Steps follow steps. */
  lemma Joined(interval: nat, states: seq<State>, events: seq<Event>, states': seq<State>, events': seq<Event>)
    requires Connected(interval, states, events) && Connected(interval, states', events')
    requires states[|events|] == states'[0]
    ensures Connected(interval, states + states'[1..], events + events')
    ensures (states + states'[1..])[|events + events'|] == states'[|events'|]
    ensures IsRun(interval, states, events) ==> IsRun(interval, states + states'[1..], events + events')
  {
    var all, es := states + states'[1..], events + events';
    forall i | 0 <= i < |es|
      ensures Step(interval, all[i], es[i], all[i + 1])
    {
      if i >= |events| {
        assert all[i] == states'[i - |events|] && all[i + 1] == states'[i + 1 - |events|];
        assert es[i] == events'[i - |events|];
      }
    }
  }

  /** The hosts in error once those in probed have been checked. */
  function FailingOnce(before: set<Host>, after: set<Host>, probed: set<Host>): set<Host> {
    (before - probed) + (after * probed)
  }

  function Members(hosts: seq<Host>): set<Host> {
    set h | h in hosts
  }

  /** Checks report one host at a time. */
  lemma {:induction false} ProbesAreSteps(interval: nat, s: State, hosts: seq<Host>, after: set<Host>)
    returns (states: seq<State>, events: seq<Event>)
    requires forall h :: h in hosts ==> h in s.view.hosts
    ensures Connected(interval, states, events) && states[0] == s
    ensures states[|events|] == s.(view := s.view.(failing := FailingOnce(s.view.failing, after, Members(hosts))))
  {
    if hosts == [] {
      states, events := [s], [];
      assert FailingOnce(s.view.failing, after, {}) == s.view.failing;
    } else {
      var init, h := hosts[..|hosts| - 1], hosts[|hosts| - 1];
      assert hosts == init + [h];
      assert Members(hosts) == Members(init) + {h};
      states, events := ProbesAreSteps(interval, s, init, after);
      var next := s.(view := s.view.(failing := FailingOnce(s.view.failing, after, Members(hosts))));
      assert Step(interval, states[|events|], HostError(h, h in after), next);
      Joined(interval, states, events, [states[|events|], next], [HostError(h, h in after)]);
      assert [states[|events|], next][1..] == [next];
      states, events := states + [next], events + [HostError(h, h in after)];
    }
  }

  /** Reading every host, without anything else in between. */
  lemma {:induction false} ReadsAreSteps(interval: nat, s: State, n: nat)
    returns (states: seq<State>, events: seq<Event>)
    requires s.scan == Some(Scan(0, [])) && n <= |s.view.hosts|
    ensures Connected(interval, states, events) && states[0] == s
    ensures states[|events|] == s.(scan := Some(Scan(n, Clean(s.view.hosts[..n], s.view.failing))))
  {
    if n == 0 {
      states, events := [s], [];
    } else {
      states, events := ReadsAreSteps(interval, s, n - 1);
      var last := states[|events|];
      assert s.view.hosts[..n][..n - 1] == s.view.hosts[..n - 1];
      assert AfterRead(s.view, last.scan.value) == Scan(n, Clean(s.view.hosts[..n], s.view.failing));
      var next := s.(scan := Some(Scan(n, Clean(s.view.hosts[..n], s.view.failing))));
      assert Step(interval, last, HostRead, next);
      Joined(interval, states, events, [last, next], [HostRead]);
      assert [last, next][1..] == [next];
      states, events := states + [next], events + [HostRead];
    }
  }

  /** What selectHost does on its own is a selection. */
  lemma SelectIsSteps(interval: nat, s: State, now: int, later: int)
    returns (states: seq<State>, events: seq<Event>)
    requires s.scan.None? && s.clock <= now <= later
    ensures Connected(interval, states, events) && states[0] == s
    ensures states[|events|] == State(AfterSelect(s.view, now, later, interval), later, None)
  {
    var begun := s.(scan := Some(Scan(0, [])));
    var n := |s.view.hosts|;
    assert s.view.hosts[..n] == s.view.hosts;
    var middle, es := ReadsAreSteps(interval, begun, n);
    Joined(interval, [s, begun], [ScanStarted], middle, es);
    states, events := [s, begun] + middle[1..], [ScanStarted] + es;
    UndisturbedSelection(s.view, now, later, interval);
    var last, end := states[|events|], State(AfterSelect(s.view, now, later, interval), later, None);
    assert Step(interval, last, Selection(now, later), end);
    Joined(interval, states, events, [last, end], [Selection(now, later)]);
    assert [last, end][1..] == [end];
    states, events := states + [end], events + [Selection(now, later)];
  }

  /** checkHosts is a sequence of check results, a sort and a selection. */
  lemma CheckIsSteps(interval: nat, s: State, v': View, now: int, later: int)
    returns (states: seq<State>, events: seq<Event>)
    requires CheckedAndSelected(s.view, v', now, later, interval) && s.clock <= now <= later && s.scan.None?
    ensures Connected(interval, states, events) && states[0] == s && states[|events|] == State(v', later, None)
  {
    var v := s.view;
    states, events := ProbesAreSteps(interval, s, v.hosts, v'.failing);
    SameMembers(v.hosts, v'.hosts);
    assert FailingOnce(v.failing, v'.failing, Members(v.hosts)) == v'.failing;
    var probed := s.(view := v.(failing := v'.failing));
    var sorted := probed.(view := probed.view.(hosts := v'.hosts));
    assert sorted.view == v.(hosts := v'.hosts, failing := v'.failing);
    assert Step(interval, probed, ListSorted, sorted);
    var more, es := SelectIsSteps(interval, sorted, now, later);
    Joined(interval, [probed, sorted], [ListSorted], more, es);
    more, es := [probed, sorted] + more[1..], [ListSorted] + es;
    Joined(interval, states, events, more, es);
    states, events := states + more[1..], events + es;
  }

  lemma SameMembers(a: seq<Host>, b: seq<Host>)
    requires multiset(a) == multiset(b)
    ensures Members(a) == Members(b)
  {
    assert forall h :: h in a <==> h in multiset(a);
    assert forall h :: h in b <==> h in multiset(b);
  }

  /** The first discovery is a discovery followed by such a check. */
  lemma FirstDiscoveryIsSteps(interval: nat, s: State, found: View, v': View, now: int, later: int)
    returns (states: seq<State>, events: seq<Event>)
    requires DiscoverStep(s.view, found) && CheckedAndSelected(found, v', now, later, interval)
    requires s.clock <= now <= later && s.scan.None?
    ensures Connected(interval, states, events) && states[0] == s && states[|events|] == State(v', later, None)
  {
    var next := s.(view := found);
    var more, es := CheckIsSteps(interval, next, v', now, later);
    Joined(interval, [s, next], [Discovered], more, es);
    states, events := [s, next] + more[1..], [Discovered] + es;
  }

  /** A failed request is a host error followed by a selection. */
  lemma FailureIsSteps(interval: nat, s: State, h: Host, now: int, later: int)
    returns (states: seq<State>, events: seq<Event>)
    requires s.clock <= now <= later && s.scan.None?
    ensures Connected(interval, states, events) && states[0] == s && events != [] && events[0] == HostError(h, true)
    ensures states[|events|] == State(AfterSelect(Marked(s.view, h), now, later, interval), later, None)
  {
    var m := s.(view := Marked(s.view, h));
    assert Step(interval, s, HostError(h, true), m);
    var more, es := SelectIsSteps(interval, m, now, later);
    Joined(interval, [s, m], [HostError(h, true)], more, es);
    states, events := [s, m] + more[1..], [HostError(h, true)] + es;
  }
}
