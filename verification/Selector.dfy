/** The host selector (pkg/permissions/internal/selecthost/selector.go, host.go, helpers.go,
    http.go): discovery, checks, selection, and the switch after a transport error. */
module Selector {
  import opened Types
  import opened HostIdentity

  datatype Error = HostRemoved | Failure(message: string)

  /** One check request: how long it took, and how it failed. */
  datatype Probe = Probe(duration: nat, failure: Option<Error>)

  datatype Results = Results(checks: nat, totalDuration: nat, errors: seq<Error>) {
    function Average(): nat {
      if checks == 0 then 0 else totalDuration / checks
    }
  }

  function Summary(probes: seq<Probe>): Results {
    if probes == [] then Results(0, 0, []) else
      var before, p := Summary(probes[..|probes| - 1]), probes[|probes| - 1];
      Results(before.checks + 1, before.totalDuration + p.duration,
        before.errors + if p.failure.Some? then [p.failure.value] else [])
  }

  function LastError(errors: seq<Error>): Option<Error> {
    if errors == [] then None else Some(errors[|errors| - 1])
  }

  class Host {
    const id: string
    const record: Record
    const host: string
    const port: string
    var err: Option<Error>
    var lastCheck: Results

    constructor (target: string, port: string, srv: Record)
      ensures id == NewHostID(target, port, srv) && record == srv && host == TrimDots(target) && this.port == port
      ensures err == None && lastCheck == Results(0, 0, [])
    {
      this.host := TrimDots(target);
      this.id := NewHostID(target, port, srv);
      this.record := srv;
      this.port := port;
      this.err := None;
      this.lastCheck := Results(0, 0, []);
    }

    function Standing(): Standing
      reads this
    {
      HostIdentity.Standing(err.Some?, record.priority, record.weight, lastCheck.Average())
    }

    method SetError(e: Error)
      modifies this`err
      ensures err == Some(e)
    {
      err := Some(e);
    }

    /** One request per probe; the last error sticks, and a check without errors clears it. */
    method Check(probes: seq<Probe>)
      modifies this`err, this`lastCheck
      ensures lastCheck == Summary(probes) && err == LastError(Summary(probes).errors)
      ensures err == if lastCheck.errors == [] then None else Some(lastCheck.errors[|lastCheck.errors| - 1])
    {
      var checks: nat, totalDuration: nat, errors: seq<Error> := 0, 0, [];
      for i := 0 to |probes|
        invariant Results(checks, totalDuration, errors) == Summary(probes[..i])
      {
        assert probes[..i + 1][..i] == probes[..i];
        if probes[i].failure.Some? {
          errors := errors + [probes[i].failure.value];
        }
        checks := checks + 1;
        totalDuration := totalDuration + probes[i].duration;
      }
      assert probes[..|probes|] == probes;
      lastCheck := Results(checks, totalDuration, errors);
      if |errors| != 0 {
        err := Some(errors[|errors| - 1]);
      } else {
        err := None;
      }
    }
  }

  /** A check leaves no error exactly when every probe succeeded. */
  lemma {:induction false} CleanCheck(probes: seq<Probe>)
    ensures LastError(Summary(probes).errors) == None <==> forall p :: p in probes ==> p.failure.None?
    ensures Summary(probes).checks == |probes|
  {
    if probes != [] {
      var init, last := probes[..|probes| - 1], probes[|probes| - 1];
      CleanCheck(init);
      assert probes == init + [last];
    }
  }

  /** The results of one probe, and of probes after others: durations and errors add up. */
  lemma {:induction false} SummaryAddsUp(ps: seq<Probe>, qs: seq<Probe>, p: Probe)
    ensures Summary([p]) == Results(1, p.duration, if p.failure.Some? then [p.failure.value] else [])
    ensures var a, b, c := Summary(ps), Summary(qs), Summary(ps + qs);
      c.checks == a.checks + b.checks && c.totalDuration == a.totalDuration + b.totalDuration
      && c.errors == a.errors + b.errors
  {
    assert [p][..0] == [];
    if qs == [] {
      assert ps + qs == ps;
    } else {
      SummaryAddsUp(ps, qs[..|qs| - 1], p);
      assert (ps + qs)[..|ps + qs| - 1] == ps + qs[..|qs| - 1];
    }
  }

  /** a has the lower priority, or then the lower weight, or then the lower average duration, or they tie. */
  ghost predicate NoLater(a: Host, b: Host)
    reads a, b
  {
    || a.record.priority < b.record.priority
    || (a.record.priority == b.record.priority && a.record.weight < b.record.weight)
    || (a.record.priority == b.record.priority && a.record.weight == b.record.weight &&
      Mean(a.lastCheck.totalDuration, a.lastCheck.checks) <= Mean(b.lastCheck.totalDuration, b.lastCheck.checks))
  }

  function Mean(total: nat, count: nat): nat {
    if count == 0 then 0 else total / count
  }

  lemma InOrderMeans(a: Host, b: Host)
    requires !Before(b.Standing(), a.Standing())
    ensures a.err.Some? ==> b.err.Some?
    ensures a.err.Some? == b.err.Some? ==> NoLater(a, b)
  {
    BeforeComparesRanks(b.Standing(), a.Standing());
  }

  // ---------- selection, on values ----------

  /** What selection depends on; failing holds the listed hosts with an error. */
  datatype View = View(hosts: seq<Host>, failing: set<Host>, selected: Host?, stickyUntil: int, prefer: Host?,
    fallback: Host?)

  predicate Matches(h: Host, failing: set<Host>, wanted: Option<string>) {
    h !in failing && (wanted.Some? ==> h.id == wanted.value)
  }

  /** The first host without error, of the wanted identity if there is one. */
  function First(hosts: seq<Host>, failing: set<Host>, wanted: Option<string>): Host? {
    if hosts == [] then null else
      var r := First(hosts[..|hosts| - 1], failing, wanted);
      if r != null then r else if Matches(hosts[|hosts| - 1], failing, wanted) then hosts[|hosts| - 1] else null
  }

  lemma {:induction false} FirstMeans(hosts: seq<Host>, failing: set<Host>, wanted: Option<string>)
    ensures var r := First(hosts, failing, wanted);
      && (r == null <==> forall h :: h in hosts ==> !Matches(h, failing, wanted))
      && (r != null ==> r in hosts && Matches(r, failing, wanted))
  {
    if hosts != [] {
      FirstMeans(hosts[..|hosts| - 1], failing, wanted);
      assert hosts == hosts[..|hosts| - 1] + [hosts[|hosts| - 1]];
    }
  }

  function FirstLike(hosts: seq<Host>, failing: set<Host>, like: Host?): Host? {
    if like == null then null else First(hosts, failing, Some(like.id))
  }

  function Chosen(v: View, now: int): Host? {
    var kept := FirstLike(v.hosts, v.failing, v.selected);
    var preferred := FirstLike(v.hosts, v.failing, v.prefer);
    var first := First(v.hosts, v.failing, None);
    if kept != null && now < v.stickyUntil then kept
    else if preferred != null then preferred
    else if first != null then first
    else v.fallback
  }

  /** The selection with its two readings of the clock. */
  function AfterSelect(v: View, now: int, later: int, interval: nat): View {
    var chosen := Chosen(v, now);
    if chosen == null || (chosen == v.selected && now < v.stickyUntil) then v
    else v.(selected := chosen, stickyUntil := later + 5 * interval)
  }

  lemma {:induction false} FirstOfPrefix(hosts: seq<Host>, failing: set<Host>, wanted: Option<string>, i: nat)
    requires i <= |hosts| && First(hosts[..i], failing, wanted) != null
    ensures First(hosts, failing, wanted) == First(hosts[..i], failing, wanted)
  {
    if i < |hosts| {
      assert hosts[..|hosts| - 1][..i] == hosts[..i];
      FirstOfPrefix(hosts[..|hosts| - 1], failing, wanted, i);
    } else {
      assert hosts[..i] == hosts;
    }
  }

  lemma LikeImpliesFirst(hosts: seq<Host>, failing: set<Host>, like: Host?)
    ensures FirstLike(hosts, failing, like) != null ==> First(hosts, failing, None) != null
  {
    if FirstLike(hosts, failing, like) != null {
      FirstMeans(hosts, failing, Some(like.id));
      FirstMeans(hosts, failing, None);
      assert Matches(FirstLike(hosts, failing, like), failing, None);
    }
  }

  lemma NextFirst(hosts: seq<Host>, failing: set<Host>, wanted: Option<string>, i: nat)
    requires i < |hosts|
    ensures var before := First(hosts[..i], failing, wanted);
      First(hosts[..i + 1], failing, wanted) == if before != null then before
        else if Matches(hosts[i], failing, wanted) then hosts[i] else null
  {
    assert hosts[..i + 1][..i] == hosts[..i];
  }

  lemma NextFirstLike(hosts: seq<Host>, failing: set<Host>, like: Host?, i: nat)
    requires i < |hosts|
    ensures var before := FirstLike(hosts[..i], failing, like);
      FirstLike(hosts[..i + 1], failing, like) ==
        if before != null then before
        else if like != null && Matches(hosts[i], failing, Some(like.id)) then hosts[i] else null
  {
    if like != null {
      NextFirst(hosts, failing, Some(like.id), i);
    }
  }

  // ---------- discovery, on values ----------

  /** The hosts by identity; of several with one identity, the last. */
  function Tracked(hosts: seq<Host>): (m: map<string, Host>)
    ensures forall k :: k in m ==> m[k] in hosts && m[k].id == k
    ensures forall h :: h in hosts ==> h.id in m
  {
    if hosts == [] then map[] else
      assert hosts == hosts[..|hosts| - 1] + [hosts[|hosts| - 1]];
      Tracked(hosts[..|hosts| - 1])[hosts[|hosts| - 1].id := hosts[|hosts| - 1]]
  }

  function Keys(srvs: seq<Record>): set<string> {
    set srv | srv in srvs :: KeyOf(srv)
  }

  // ---------- sorting, on values ----------

  ghost predicate Sorted(hosts: seq<Host>, standing: map<Host, Standing>)
    requires forall h :: h in hosts ==> h in standing
  {
    forall i, j :: 0 <= i < j < |hosts| ==> !Before(standing[hosts[j]], standing[hosts[i]])
  }

  function Insert(h: Host, hosts: seq<Host>, standing: map<Host, Standing>): (r: seq<Host>)
    requires h in standing && forall x :: x in hosts ==> x in standing
    ensures multiset(r) == multiset(hosts) + multiset{h}
    ensures h in r && (forall x :: x in hosts ==> x in r) && (forall x :: x in r ==> x in hosts || x == h)
  {
    if hosts == [] then [h]
    else if Before(standing[h], standing[hosts[|hosts| - 1]]) then
      assert hosts == hosts[..|hosts| - 1] + [hosts[|hosts| - 1]];
      Insert(h, hosts[..|hosts| - 1], standing) + [hosts[|hosts| - 1]]
    else hosts + [h]
  }

  /** sort.Sort; any sorted permutation would do. */
  function Sort(hosts: seq<Host>, standing: map<Host, Standing>): (r: seq<Host>)
    requires forall h :: h in hosts ==> h in standing
    ensures multiset(r) == multiset(hosts)
    ensures (forall x :: x in hosts ==> x in r) && (forall x :: x in r ==> x in hosts)
  {
    if hosts == [] then [] else
      assert hosts == hosts[..|hosts| - 1] + [hosts[|hosts| - 1]];
      Insert(hosts[|hosts| - 1], Sort(hosts[..|hosts| - 1], standing), standing)
  }

  lemma {:induction false} InsertKeepsSorted(h: Host, hosts: seq<Host>, standing: map<Host, Standing>)
    requires h in standing && (forall x :: x in hosts ==> x in standing) && Sorted(hosts, standing)
    ensures Sorted(Insert(h, hosts, standing), standing)
  {
    if hosts != [] {
      var init, last := hosts[..|hosts| - 1], hosts[|hosts| - 1];
      if Before(standing[h], standing[last]) {
        InsertKeepsSorted(h, init, standing);
        var r := Insert(h, init, standing);
        forall i | 0 <= i < |r|
          ensures !Before(standing[last], standing[r[i]])
        {
          if r[i] != h {
            assert r[i] in init;
          }
        }
      } else {
        forall i | 0 <= i < |hosts|
          ensures !Before(standing[h], standing[hosts[i]])
        {
        }
      }
    }
  }

  lemma {:induction false} SortSorts(hosts: seq<Host>, standing: map<Host, Standing>)
    requires forall h :: h in hosts ==> h in standing
    ensures Sorted(Sort(hosts, standing), standing)
  {
    if hosts != [] {
      SortSorts(hosts[..|hosts| - 1], standing);
      InsertKeepsSorted(hosts[|hosts| - 1], Sort(hosts[..|hosts| - 1], standing), standing);
    }
  }

  // ---------- the selector ----------

  class Selector {
    const target: string
    const checkInterval: nat
    const quick: bool
    var hosts: seq<Host>
    var selected: Host?
    var prefer: Host?
    var fallback: Host?
    var stickyUntil: int
    var started: bool
    var checked: bool

    /** The target is the fallback unless the options name another; nothing is selected yet. */
    constructor (target: string, port: string, checkInterval: nat, quick: bool, preferred: Option<(string, string)>,
      zeroTime: int)
      ensures this.target == target && this.checkInterval == checkInterval && this.quick == quick
      ensures hosts == [] && selected == null && stickyUntil == zeroTime && !started && !checked
      ensures Seen() == View([], {}, null, zeroTime, prefer, fallback)
      ensures fallback != null && fresh(fallback) && fallback.err == None && fallback.host == TrimDots(target)
      ensures fallback.port == port
      ensures prefer != null <==> preferred.Some?
      ensures prefer != null ==>
        fresh(prefer) && prefer.id == NewHostID(preferred.value.0, preferred.value.1, Record("", 0, 0, 0))
    {
      this.target, this.checkInterval, this.quick := target, checkInterval, quick;
      hosts, selected, stickyUntil, started, checked := [], null, zeroTime, false, false;
      fallback := new Host(target, port, Record("", 0, 0, 0));
      if preferred.Some? {
        prefer := new Host(preferred.value.0, preferred.value.1, Record("", 0, 0, 0));
      } else {
        prefer := null;
      }
    }

    function Failing(): set<Host>
      reads this`hosts, hosts
    {
      set h | h in hosts && h.err.Some?
    }

    function Seen(): View
      reads this, hosts
    {
      View(hosts, Failing(), selected, stickyUntil, prefer, fallback)
    }

    /** The first host without error, and the first ones like the selected and the preferred host. */
    method Scan() returns (first: Host?, kept: Host?, preferred: Host?)
      ensures first == First(hosts, Failing(), None)
      ensures kept == FirstLike(hosts, Failing(), selected)
      ensures preferred == FirstLike(hosts, Failing(), prefer)
    {
      first, kept, preferred := null, null, null;
      ghost var failing := Failing();
      for i := 0 to |hosts|
        invariant first == First(hosts[..i], failing, None)
        invariant kept == FirstLike(hosts[..i], failing, selected)
        invariant preferred == FirstLike(hosts[..i], failing, prefer)
      {
        NextFirst(hosts, failing, None, i);
        NextFirstLike(hosts, failing, selected, i);
        NextFirstLike(hosts, failing, prefer, i);
        var host := hosts[i];
        if host.err != None {
          continue;
        }
        if first == null {
          first := host;
        }
        if kept == null && selected != null && selected.id == host.id {
          kept := host;
        }
        if preferred == null && prefer != null && prefer.id == host.id {
          preferred := host;
        }
        if first != null && kept != null && preferred != null {
          AllFound(Seen(), i + 1);
          return;
        }
      }
      assert hosts[..|hosts|] == hosts;
    }

    method SelectHost(now: int, later: int)
      modifies this`selected, this`stickyUntil
      ensures Seen() == AfterSelect(old(Seen()), now, later, checkInterval)
    {
      var current := selected;
      var first, chosen, preferred := Scan();
      LikeImpliesFirst(hosts, Failing(), selected);
      var sticky := now < stickyUntil;
      if chosen != null && sticky {
      } else if preferred != null {
        chosen := preferred;
      } else if first != null {
        chosen := first;
      } else if fallback != null {
        chosen := fallback;
      }
      assert chosen == Chosen(Seen(), now);
      if current != chosen && chosen != null {
        selected := chosen;
        stickyUntil := later + 5 * checkInterval;
      } else if chosen != null && current == chosen && !sticky {
        stickyUntil := later + 5 * checkInterval;
      }
    }

    /** Matches records to hosts by identity, position by position. */
    method MatchHosts(srvs: seq<Record>) returns (added: seq<Host>, matched: seq<Host>)
      ensures |matched| == |srvs| && forall i :: 0 <= i < |srvs| ==> MatchedTo(matched[i], srvs[i], Tracked(hosts))
      ensures forall h :: h in matched ==> h.id in Tracked(hosts) || (fresh(h) && h.err == None && h in added)
      ensures forall h :: h in added ==> h in matched && h.id !in Tracked(hosts)
    {
      var tracked := Tracked(hosts);
      added, matched := [], [];
      for i := 0 to |srvs|
        invariant |matched| == i && forall j :: 0 <= j < i ==> MatchedTo(matched[j], srvs[j], tracked)
        invariant forall h :: h in matched ==> h.id in tracked || (fresh(h) && h.err == None && h in added)
        invariant forall h :: h in added ==> h in matched && h.id !in tracked
      {
        var srv := srvs[i];
        if KeyOf(srv) in tracked {
          matched := matched + [tracked[KeyOf(srv)]];
        } else {
          NewHostHasKey(srv);
          var host := new Host(srv.target, Decimal(srv.port as nat), srv);
          matched := matched + [host];
          added := added + [host];
        }
      }
    }

    method MarkRemoved(keys: set<string>) returns (removed: seq<Host>)
      modifies set h | h in hosts :: h`err
      ensures forall h :: h in removed <==> h in hosts && h.id !in keys
      ensures forall h :: h in hosts ==> h.err == if h.id in keys then old(h.err) else Some(HostRemoved)
    {
      removed := [];
      for i := 0 to |hosts|
        invariant forall h :: h in removed <==> h in hosts[..i] && h.id !in keys
        invariant forall h :: h in hosts ==> h.err == if h in removed then Some(HostRemoved) else old(h.err)
      {
        assert hosts[..i + 1] == hosts[..i] + [hosts[i]];
        if hosts[i].id !in keys {
          hosts[i].SetError(HostRemoved);
          removed := removed + [hosts[i]];
        }
      }
      assert hosts[..|hosts|] == hosts;
    }

    /** Hosts that survive stay the same objects, new ones are without error, and exactly the
        vanished ones are marked. */
    method DiffHosts(srvs: seq<Record>) returns (added: seq<Host>, removed: seq<Host>, matched: seq<Host>)
      modifies set h | h in hosts :: h`err
      ensures |matched| == |srvs| && forall i :: 0 <= i < |srvs| ==> MatchedTo(matched[i], srvs[i], Tracked(hosts))
      ensures forall h :: h in matched ==> h.id in Tracked(hosts) || (fresh(h) && h.err == None && h in added)
      ensures forall h :: h in added ==> h in matched && h.id !in Tracked(hosts)
      ensures forall h :: h in removed <==> h in hosts && h.id !in Keys(srvs)
      ensures forall h :: h in hosts ==> h.err == if h.id in Keys(srvs) then old(h.err) else Some(HostRemoved)
    {
      added, matched := MatchHosts(srvs);
      removed := MarkRemoved(Keys(srvs));
    }

    /** The locked part of discovery: the list of hosts becomes the list of records. */
    method Discover(srvs: seq<Record>)
      modifies this`hosts, set h | h in hosts :: h`err
      ensures |hosts| == |srvs| && forall i :: 0 <= i < |srvs| ==> MatchedTo(hosts[i], srvs[i], Tracked(old(hosts)))
      ensures DiscoverStep(old(Seen()), Seen()) && Ids(hosts) == Keys(srvs)
      ensures forall h :: h in hosts ==> h in old(hosts) || (fresh(h) && h.err == None)
      ensures forall h :: h in old(hosts) && h.id !in Keys(srvs) ==> h.err == Some(HostRemoved)
    {
      var added, removed, matched := DiffHosts(srvs);
      MatchedIds(matched, srvs, Tracked(hosts));
      hosts := matched;
    }

    /** No host is Before an earlier one. */
    ghost predicate InOrder()
      reads this`hosts, hosts
    {
      forall i, j :: 0 <= i < j < |hosts| ==> !Before(hosts[j].Standing(), hosts[i].Standing())
    }

    /** One check per listed host. */
    method ProbeAll(probes: seq<seq<Probe>>)
      requires |probes| == |hosts|
      modifies hosts
      ensures Checked(hosts, Verdicts(hosts, probes))
    {
      for i := 0 to |hosts|
        invariant Checked(hosts[..i], Verdicts(hosts[..i], probes[..i]))
      {
        NextVerdict(hosts, probes, i);
        ghost var before := Verdicts(hosts[..i], probes[..i]);
        hosts[i].Check(probes[i]);
        forall h | h in hosts[..i + 1]
          ensures var m := before[hosts[i] := Summary(probes[i])];
            h.lastCheck == m[h] && h.err == LastError(m[h].errors)
        {
          assert h == hosts[i] || h in hosts[..i];
        }
      }
      assert hosts[..|hosts|] == hosts && probes[..|probes|] == probes;
    }

    method SortHosts()
      modifies this`hosts
      ensures multiset(hosts) == multiset(old(hosts)) && InOrder()
      ensures Ids(hosts) == Ids(old(hosts))
      ensures BestFirst()
    {
      var standing := map h | h in hosts :: h.Standing();
      SortSorts(hosts, standing);
      ghost var listed := hosts;
      hosts := Sort(hosts, standing);
      assert forall h :: h in hosts <==> h in listed;
      SortedIsBestFirst();
    }

    /** Hosts without error come first; among them, and among the others, none is later than the next. */
    ghost predicate BestFirst()
      reads this`hosts, hosts
    {
      forall i, j :: 0 <= i < j < |hosts| ==>
        && (hosts[i].err.Some? ==> hosts[j].err.Some?)
        && (hosts[i].err.Some? == hosts[j].err.Some? ==> NoLater(hosts[i], hosts[j]))
    }

    lemma SortedIsBestFirst()
      requires InOrder()
      ensures BestFirst()
    {
      forall i, j | 0 <= i < j < |hosts|
        ensures hosts[i].err.Some? ==> hosts[j].err.Some?
        ensures hosts[i].err.Some? == hosts[j].err.Some? ==> NoLater(hosts[i], hosts[j])
      {
        InOrderMeans(hosts[i], hosts[j]);
      }
    }

    /** In order, the first error-free host is the first of all, no host is Before it, and no
        error-free host has a lower priority, weight or average duration. */
    lemma FirstIsBest()
      requires InOrder()
      ensures var first := First(hosts, Failing(), None);
        first != null ==>
          && first == hosts[0] && (forall h :: h in hosts ==> !Before(h.Standing(), first.Standing()))
          && forall h :: h in hosts && h.err.None? ==> NoLater(first, h)
    {
      var first := First(hosts, Failing(), None);
      FirstMeans(hosts, Failing(), None);
      if first != null {
        var k :| 0 <= k < |hosts| && hosts[k] == first;
        if k > 0 {
          assert !Before(hosts[k].Standing(), hosts[0].Standing());
        }
        assert First(hosts[..1], Failing(), None) == hosts[0];
        FirstOfPrefix(hosts, Failing(), None, 1);
        forall h | h in hosts
          ensures !Before(h.Standing(), first.Standing())
        {
          var j :| 0 <= j < |hosts| && hosts[j] == h;
        }
        forall h | h in hosts && h.err.None?
          ensures NoLater(first, h)
        {
          InOrderMeans(first, h);
        }
      }
    }

    method CheckHosts(probes: seq<seq<Probe>>, now: int, later: int)
      requires |probes| == |hosts|
      modifies this`hosts, this`selected, this`stickyUntil, hosts
      ensures multiset(hosts) == multiset(old(hosts)) && InOrder()
      ensures Ids(hosts) == Ids(old(hosts))
      ensures Checked(old(hosts), Verdicts(old(hosts), probes))
      ensures CheckedAndSelected(old(Seen()), Seen(), now, later, checkInterval)
      ensures BestFirst()
    {
      if |hosts| == 0 {
        assert Failing() == {};
        SelectHost(now, later);
        return;
      }
      ProbeAll(probes);
      SortHosts();
      ghost var sorted := Seen();
      SelectHost(now, later);
      assert Seen().hosts == sorted.hosts && Seen().failing == sorted.failing;
    }

    /** Discovery; the first one also checks the hosts and selects one.  found is the list as
        discovered, before that check. */
    method DiscoverRecords(srvs: seq<Record>, probes: seq<seq<Probe>>, now: int, later: int)
      returns (ghost found: View)
      requires |probes| == |srvs|
      modifies this`hosts, this`checked, this`selected, this`stickyUntil, hosts
      ensures checked && Ids(hosts) == Keys(srvs) && DiscoverStep(old(Seen()), found)
      ensures old(checked) ==> Seen() == found
      ensures !old(checked) ==> CheckedAndSelected(found, Seen(), now, later, checkInterval)
    {
      if checked {
        Discover(srvs);
        found := Seen();
      } else {
        found := DiscoverAndCheck(srvs, probes, now, later);
        checked := true;
      }
    }

    method DiscoverAndCheck(srvs: seq<Record>, probes: seq<seq<Probe>>, now: int, later: int)
      returns (ghost found: View)
      requires |probes| == |srvs|
      modifies this`hosts, this`selected, this`stickyUntil, hosts
      ensures Ids(hosts) == Keys(srvs) && DiscoverStep(old(Seen()), found)
      ensures CheckedAndSelected(found, Seen(), now, later, checkInterval)
    {
      Discover(srvs);
      found := Seen();
      CheckHosts(probes, now, later);
    }

    /** Starts once.  A quick selector selects its fallback and leaves the first discovery to the
        background, where it may come at any later time; otherwise that discovery is part of it. */
    method Start(srvs: seq<Record>, probes: seq<seq<Probe>>, now: int, later: int)
      returns (background: bool, ghost found: View)
      requires |probes| == |srvs|
      modifies this`started, this`hosts, this`checked, this`selected, this`stickyUntil, hosts
      ensures started && background == (!old(started) && quick && fallback != null)
      ensures old(started) ==> Seen() == old(Seen())
      ensures background ==> Seen() == old(Seen()).(selected := fallback)
      ensures !old(started) && !background ==> checked && DiscoverStep(old(Seen()), found)
      ensures !old(started) && !background && old(checked) ==> Seen() == found
      ensures !old(started) && !background && !old(checked) ==>
        CheckedAndSelected(found, Seen(), now, later, checkInterval)
    {
      if started {
        return false, Seen();
      }
      started := true;
      if quick && fallback != null {
        selected := fallback;
        return true, Seen();
      }
      found := DiscoverRecords(srvs, probes, now, later);
      background := false;
    }

    /** GetHost, once started: the selected host, if there is one. */
    method GetHost() returns (host: Host?)
      ensures host == selected
    {
      host := selected;
    }

    /** A request for the target goes to the host that GetHost returned, which need no longer be
        selected when the request fails: then it is marked and a selection follows.  The request
        is not retried. */
    method RoundTrip(requestHost: string, host: Host, failure: Option<Error>, now: int, later: int)
      returns (used: Host?)
      modifies this`selected, this`stickyUntil, host`err
      ensures used == if requestHost == target then host else null
      ensures requestHost != target || failure.None? ==> Seen() == old(Seen()) && host.err == old(host.err)
      ensures requestHost == target && failure.Some? ==> host.err == failure
      ensures requestHost == target && failure.Some? ==>
        Seen() == AfterSelect(Marked(old(Seen()), host), now, later, checkInterval)
    {
      if requestHost != target {
        return null;
      }
      used := host;
      if failure.Some? {
        host.SetError(failure.value);
        assert Seen() == Marked(old(Seen()), host);
        SelectHost(now, later);
      }
    }
  }

  /** The list, probed and sorted, and then the selection made from it. */
  ghost predicate CheckedAndSelected(v: View, v': View, now: int, later: int, interval: nat) {
    && (forall h :: h in v.failing ==> h in v.hosts)
    && multiset(v'.hosts) == multiset(v.hosts) && (forall h :: h in v'.failing ==> h in v'.hosts)
    && v' == AfterSelect(v.(hosts := v'.hosts, failing := v'.failing), now, later, interval)
  }

  lemma MatchedIds(hosts: seq<Host>, srvs: seq<Record>, tracked: map<string, Host>)
    requires |hosts| == |srvs| && forall i :: 0 <= i < |srvs| ==> MatchedTo(hosts[i], srvs[i], tracked)
    ensures Ids(hosts) == Keys(srvs) && forall h :: h in hosts ==> h.id in Keys(srvs)
    ensures forall h :: h in hosts && h.id in tracked ==> h == tracked[h.id]
  {
    forall h | h in hosts
      ensures h.id in Keys(srvs) && (h.id in tracked ==> h == tracked[h.id])
    {
      var i :| 0 <= i < |hosts| && hosts[i] == h;
      assert MatchedTo(hosts[i], srvs[i], tracked) && srvs[i] in srvs;
    }
    forall k | k in Keys(srvs)
      ensures k in Ids(hosts)
    {
      var i :| 0 <= i < |srvs| && KeyOf(srvs[i]) == k;
      assert hosts[i] in hosts;
    }
  }

  function Marked(v: View, h: Host): View {
    v.(failing := v.failing + if h in v.hosts then {h} else {})
  }

  /** The results of each host; of several checks of one host, the last. */
  function Verdicts(hosts: seq<Host>, probes: seq<seq<Probe>>): (m: map<Host, Results>)
    requires |probes| == |hosts|
    ensures forall h :: h in hosts ==> h in m
  {
    if hosts == [] then map[] else
      var n := |hosts| - 1;
      assert hosts == hosts[..n] + [hosts[n]];
      Verdicts(hosts[..n], probes[..n])[hosts[n] := Summary(probes[n])]
  }

  lemma NextVerdict(hosts: seq<Host>, probes: seq<seq<Probe>>, i: nat)
    requires |probes| == |hosts| && i < |hosts|
    ensures hosts[..i + 1] == hosts[..i] + [hosts[i]]
    ensures Verdicts(hosts[..i + 1], probes[..i + 1]) ==
      Verdicts(hosts[..i], probes[..i])[hosts[i] := Summary(probes[i])]
  {
    assert hosts[..i + 1][..i] == hosts[..i] && probes[..i + 1][..i] == probes[..i];
  }

  ghost predicate Checked(hosts: seq<Host>, verdicts: map<Host, Results>)
    requires forall h :: h in hosts ==> h in verdicts
    reads hosts
  {
    forall h :: h in hosts ==> h.lastCheck == verdicts[h] && h.err == LastError(verdicts[h].errors)
  }

  function Ids(hosts: seq<Host>): set<string> {
    set h | h in hosts :: h.id
  }

  /** Discovery replaces the list: survivors keep their state, newcomers are without error and
      unknown to the selector. */
  ghost predicate DiscoverStep(v: View, v': View) {
    && v' == v.(hosts := v'.hosts, failing := v'.failing)
    && (forall h :: h in v'.failing ==> h in v'.hosts)
    && forall h :: h in v'.hosts ==>
         || (h in v.hosts && (h in v'.failing <==> h in v.failing))
         || (h !in v.hosts && h !in v'.failing && h != v.selected && h != v.prefer && h != v.fallback)
  }


  /** Of several tracked hosts with one identity the last one counts. */
  lemma {:induction false} LastTracked(hosts: seq<Host>, i: nat)
    requires i < |hosts| && forall j :: i < j < |hosts| ==> hosts[j].id != hosts[i].id
    ensures hosts[i].id in Tracked(hosts) && Tracked(hosts)[hosts[i].id] == hosts[i]
  {
    var init := hosts[..|hosts| - 1];
    if i < |init| {
      assert init[i] == hosts[i];
      LastTracked(init, i);
    }
  }

  /** The host of a record: the tracked one of that identity, or one made from the record. */
  predicate MatchedTo(h: Host, srv: Record, tracked: map<string, Host>) {
    && h.id == KeyOf(srv)
    && (h.id in tracked ==> h == tracked[h.id])
    && (h.id !in tracked ==> h.record == srv)
  }

  lemma AllFound(v: View, i: nat)
    requires i <= |v.hosts|
    requires First(v.hosts[..i], v.failing, None) != null
    requires FirstLike(v.hosts[..i], v.failing, v.selected) != null
    requires FirstLike(v.hosts[..i], v.failing, v.prefer) != null
    ensures First(v.hosts, v.failing, None) == First(v.hosts[..i], v.failing, None)
    ensures FirstLike(v.hosts, v.failing, v.selected) == FirstLike(v.hosts[..i], v.failing, v.selected)
    ensures FirstLike(v.hosts, v.failing, v.prefer) == FirstLike(v.hosts[..i], v.failing, v.prefer)
  {
    FirstOfPrefix(v.hosts, v.failing, None, i);
    FirstOfPrefix(v.hosts, v.failing, Some(v.selected.id), i);
    FirstOfPrefix(v.hosts, v.failing, Some(v.prefer.id), i);
  }
}
