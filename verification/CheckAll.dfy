/** The check of many permissions at once by a pool of workers (internal/api/permissions.go):
    a closed channel of requests, a buffered channel of results, a collector, and a context
    that may end at any time.  Every interleaving is a run of Step. */
module CheckAll {
  import opened Types

  // ---------- the request list ----------

  datatype CheckAction = CheckAction(resourceID: string, action: string)

  predicate WellFormed(check: CheckAction, validID: string -> bool) {
    check.action != "" && validID(check.resourceID)
  }

  /** The indices queued for the workers, and those in error. */
  method QueueRequests(checks: seq<CheckAction>, validID: string -> bool) returns (requests: seq<nat>, errs: seq<nat>)
    ensures errs == [] <==> forall check :: check in checks ==> check.action != "" && validID(check.resourceID)
    ensures errs == [] ==> requests == Indices(|checks|)
  {
    requests, errs := [], [];
    for i := 0 to |checks|
      invariant forall e :: e in errs ==> e < i && !WellFormed(checks[e], validID)
      invariant errs == [] ==> requests == Indices(i) && forall j :: 0 <= j < i ==> WellFormed(checks[j], validID)
    {
      if checks[i].action == "" {
        errs := errs + [i];
        continue;
      }
      if !validID(checks[i].resourceID) {
        errs := errs + [i];
        continue;
      }
      requests := requests + [i];
    }
    if errs != [] {
      assert errs[0] in errs;
    }
  }

  function Indices(n: nat): seq<nat> {
    seq(n, i => i)
  }

  // ---------- workers, channels, collector ----------

  /** What the engine answers: nil, ErrActionNotAssigned, ErrInvalidAction, or any other error. */
  datatype Verdict = Allowed | Denied | Invalid | Internal

  /** No request: the result a worker sends when it sees that the context has ended. */
  datatype Result = Result(request: Option<nat>, verdict: Verdict)

  datatype Worker = Idle | Checking(request: nat) | Holding(result: Result) | Stopped

  datatype Status = OK | BadRequest | Forbidden | InternalServerError

  datatype State = State(
    requests: seq<nat>,
    workers: seq<Worker>,
    results: seq<Result>,
    expired: bool,
    internalErrors: nat,
    unauthorizedErrors: nat,
    badRequestErrors: nat,
    collected: seq<Result>,
    timeouts: nat,
    checks: seq<nat>)

  datatype Event = Take(w: nat) | Quit(w: nat) | Finish(w: nat, verdict: Verdict) | SeeExpiry(w: nat) | Send(w: nat) |
    Receive | TimeOut | Expire

  /** The collector has gone round once per requested check. */
  predicate Finished(s: State, n: nat) {
    |s.collected| + s.timeouts >= n
  }

  function FinalStatus(s: State): Status {
    if s.internalErrors != 0 then InternalServerError
    else if s.unauthorizedErrors != 0 then Forbidden
    else if s.badRequestErrors != 0 then BadRequest
    else OK
  }

  predicate Initial(s: State, n: nat) {
    && s.requests == Indices(n)
    && (forall w :: w in s.workers ==> w == Idle)
    && s.results == [] && !s.expired
    && s.internalErrors == s.unauthorizedErrors == s.badRequestErrors == 0
    && s.collected == [] && s.timeouts == 0 && s.checks == []
  }

  /** The engine gives its verdict; a check that outlives the context may fail instead. */
  predicate Answers(verdicts: seq<Verdict>, expired: bool, request: nat, verdict: Verdict) {
    request < |verdicts| && (verdict == verdicts[request] || (expired && verdict == Internal))
  }

  predicate Step(verdicts: seq<Verdict>, s: State, e: Event, s': State) {
    match e
    case Take(w) =>
      && w < |s.workers| && s.workers[w] == Idle && s.requests != []
      && s' == s.(requests := s.requests[1..], workers := s.workers[w := Checking(s.requests[0])])
    case Quit(w) =>
      && w < |s.workers| && s.workers[w] == Idle && s.requests == []
      && s' == s.(workers := s.workers[w := Stopped])
    case Finish(w, verdict) =>
      && w < |s.workers| && s.workers[w].Checking? && Answers(verdicts, s.expired, s.workers[w].request, verdict)
      && s' == s.(
        workers := s.workers[w := Holding(Result(Some(s.workers[w].request), verdict))],
        checks := s.checks + [s.workers[w].request])
    case SeeExpiry(w) =>
      && w < |s.workers| && s.workers[w] == Idle && s.expired
      && s' == s.(workers := s.workers[w := Holding(Result(None, Internal))])
    case Send(w) =>
      && w < |s.workers| && s.workers[w].Holding? && |s.results| < |verdicts|
      && s' == s.(workers := s.workers[w := Idle], results := s.results + [s.workers[w].result])
    case Receive =>
      && !Finished(s, |verdicts|) && s.results != []
      && s' == Collect(s, s.results[0]).(results := s.results[1..], collected := s.collected + [s.results[0]])
    case TimeOut =>
      && !Finished(s, |verdicts|) && s.expired
      && s' == s.(internalErrors := s.internalErrors + 1, timeouts := s.timeouts + 1)
    case Expire =>
      s' == s.(expired := true)
  }

  function Collect(s: State, result: Result): State {
    match result.verdict
    case Allowed => s
    case Denied => s.(unauthorizedErrors := s.unauthorizedErrors + 1)
    case Invalid => s.(badRequestErrors := s.badRequestErrors + 1)
    case Internal => s.(internalErrors := s.internalErrors + 1)
  }

  predicate IsRun(verdicts: seq<Verdict>, states: seq<State>, events: seq<Event>) {
    && |states| == |events| + 1
    && Initial(states[0], |verdicts|)
    && forall i :: 0 <= i < |events| ==> Step(verdicts, states[i], events[i], states[i + 1])
  }

  // ---------- where every request is ----------

  function One(b: bool): nat {
    if b then 1 else 0
  }

  function InCheck(workers: seq<Worker>, i: nat): nat {
    if workers == [] then 0 else InCheck(workers[..|workers| - 1], i) + One(Checks(workers[|workers| - 1], i))
  }

  predicate Holds(w: Worker, i: nat) {
    w.Holding? && About(w.result, i)
  }

  predicate About(r: Result, i: nat) {
    r.request.Some? && r.request.value == i
  }

  predicate Checks(w: Worker, i: nat) {
    w.Checking? && w.request == i
  }

  function Held(workers: seq<Worker>, i: nat): nat {
    if workers == [] then 0 else Held(workers[..|workers| - 1], i) + One(Holds(workers[|workers| - 1], i))
  }

  function Asked(results: seq<Result>, i: nat): nat {
    if results == [] then 0 else Asked(results[..|results| - 1], i) + One(About(results[|results| - 1], i))
  }

  function Count(xs: seq<nat>, i: nat): nat {
    if xs == [] then 0 else Count(xs[..|xs| - 1], i) + One(xs[|xs| - 1] == i)
  }

  lemma {:induction false} WorkerChanges(ws: seq<Worker>, w: nat, x: Worker, i: nat)
    requires w < |ws|
    ensures InCheck(ws[w := x], i) + One(Checks(ws[w], i)) == InCheck(ws, i) + One(Checks(x, i))
    ensures Held(ws[w := x], i) + One(Holds(ws[w], i)) == Held(ws, i) + One(Holds(x, i))
    ensures Rank(ws[w := x]) + RankOf(ws[w]) == Rank(ws) + RankOf(x)
  {
    var init, last, vs := ws[..|ws| - 1], |ws| - 1, ws[w := x];
    if w == last {
      assert vs[..last] == init && vs[last] == x;
    } else {
      assert vs[..last] == init[w := x] && vs[last] == ws[last];
      WorkerChanges(init, w, x, i);
    }
  }

  lemma {:induction false} AskedFirst(rs: seq<Result>, i: nat)
    requires rs != []
    ensures Asked(rs, i) == One(About(rs[0], i)) + Asked(rs[1..], i)
  {
    if |rs| > 1 {
      var init := rs[..|rs| - 1];
      AskedFirst(init, i);
      assert rs[1..][..|rs| - 2] == init[1..];
    }
  }

  lemma {:induction false} CountFirst(xs: seq<nat>, i: nat)
    requires xs != []
    ensures Count(xs, i) == One(xs[0] == i) + Count(xs[1..], i)
  {
    if |xs| > 1 {
      var init := xs[..|xs| - 1];
      CountFirst(init, i);
      assert xs[1..][..|xs| - 2] == init[1..];
    }
  }

  /** Request i is queued, in check, or was checked, once; its check is held, queued or collected, once. */
  predicate AccountedAt(s: State, n: nat, i: nat) {
    && Count(s.requests, i) + InCheck(s.workers, i) + Count(s.checks, i) == One(i < n)
    && Count(s.checks, i) == Held(s.workers, i) + Asked(s.results, i) + Asked(s.collected, i)
  }

  ghost predicate Accounted(s: State, n: nat) {
    forall i: nat :: AccountedAt(s, n, i)
  }

  predicate Credible(verdicts: seq<Verdict>, expired: bool, r: Result) {
    match r.request
    case Some(i) => Answers(verdicts, expired, i, r.verdict)
    case None => expired && r.verdict == Internal
  }

  ghost predicate Counted(s: State) {
    && (s.internalErrors != 0 <==> s.timeouts > 0 || exists r :: r in s.collected && r.verdict == Internal)
    && (s.unauthorizedErrors != 0 <==> exists r :: r in s.collected && r.verdict == Denied)
    && (s.badRequestErrors != 0 <==> exists r :: r in s.collected && r.verdict == Invalid)
    && (s.timeouts > 0 ==> s.expired)
  }

  ghost predicate Honest(verdicts: seq<Verdict>, s: State) {
    && (forall r :: r in s.results || r in s.collected ==> Credible(verdicts, s.expired, r))
    && (forall w :: w in s.workers && w.Holding? ==> Credible(verdicts, s.expired, w.result))
  }

  ghost predicate Inv(verdicts: seq<Verdict>, s: State) {
    && Accounted(s, |verdicts|) && Honest(verdicts, s) && Counted(s)
    && |s.collected| + s.timeouts <= |verdicts| && |s.results| <= |verdicts|
    && (forall w :: w in s.workers && w == Stopped ==> s.requests == [])
  }

  lemma {:induction false} IdleWorkers(ws: seq<Worker>, i: nat)
    requires forall w :: w in ws ==> w == Idle
    ensures InCheck(ws, i) == Held(ws, i) == 0 && Rank(ws) == |ws|
  {
    if ws != [] {
      var init := ws[..|ws| - 1];
      assert forall w :: w in init ==> w in ws;
      IdleWorkers(init, i);
      assert ws[|ws| - 1] in ws;
    }
  }

  lemma {:induction false} CountIndices(n: nat, i: nat)
    ensures Count(Indices(n), i) == One(i < n)
  {
    if n > 0 {
      CountIndices(n - 1, i);
      assert Indices(n)[..n - 1] == Indices(n - 1);
    }
  }

  lemma CountLast(xs: seq<nat>, x: nat, i: nat)
    ensures Count(xs + [x], i) == Count(xs, i) + One(x == i)
  {
    assert (xs + [x])[..|xs|] == xs;
  }

  lemma AskedLast(rs: seq<Result>, r: Result, i: nat)
    ensures Asked(rs + [r], i) == Asked(rs, i) + One(About(r, i))
  {
    assert (rs + [r])[..|rs|] == rs;
  }

  lemma TakeKeepsAccounts(verdicts: seq<Verdict>, s: State, w: nat, s': State, i: nat)
    requires AccountedAt(s, |verdicts|, i) && Step(verdicts, s, Take(w), s')
    ensures AccountedAt(s', |verdicts|, i)
  {
    CountFirst(s.requests, i);
    WorkerChanges(s.workers, w, Checking(s.requests[0]), i);
  }

  lemma FinishKeepsAccounts(verdicts: seq<Verdict>, s: State, w: nat, verdict: Verdict, s': State, i: nat)
    requires AccountedAt(s, |verdicts|, i) && Step(verdicts, s, Finish(w, verdict), s')
    ensures AccountedAt(s', |verdicts|, i)
  {
    CountLast(s.checks, s.workers[w].request, i);
    WorkerChanges(s.workers, w, Holding(Result(Some(s.workers[w].request), verdict)), i);
  }

  lemma SendKeepsAccounts(verdicts: seq<Verdict>, s: State, w: nat, s': State, i: nat)
    requires AccountedAt(s, |verdicts|, i) && Step(verdicts, s, Send(w), s')
    ensures AccountedAt(s', |verdicts|, i)
  {
    AskedLast(s.results, s.workers[w].result, i);
    WorkerChanges(s.workers, w, Idle, i);
  }

  lemma ReceiveMoves(results: seq<Result>, collected: seq<Result>, i: nat)
    requires results != []
    ensures Asked(results[1..], i) + Asked(collected + [results[0]], i) == Asked(results, i) + Asked(collected, i)
  {
    AskedFirst(results, i);
    AskedLast(collected, results[0], i);
  }

  lemma ReceiveKeepsAccounts(s: State, s': State, n: nat, i: nat)
    requires AccountedAt(s, n, i) && s.results != []
    requires s'.results == s.results[1..] && s'.collected == s.collected + [s.results[0]]
    requires s'.workers == s.workers && s'.checks == s.checks && s'.requests == s.requests
    ensures AccountedAt(s', n, i)
  {
    ReceiveMoves(s.results, s.collected, i);
  }

  lemma StepKeepsAccounts(verdicts: seq<Verdict>, s: State, e: Event, s': State, i: nat)
    requires AccountedAt(s, |verdicts|, i) && Step(verdicts, s, e, s')
    ensures AccountedAt(s', |verdicts|, i)
  {
    match e
    case Take(w) => TakeKeepsAccounts(verdicts, s, w, s', i);
    case Quit(w) => WorkerChanges(s.workers, w, Stopped, i);
    case Finish(w, verdict) => FinishKeepsAccounts(verdicts, s, w, verdict, s', i);
    case SeeExpiry(w) => WorkerChanges(s.workers, w, Holding(Result(None, Internal)), i);
    case Send(w) => SendKeepsAccounts(verdicts, s, w, s', i);
    case Receive => ReceiveKeepsAccounts(s, s', |verdicts|, i);
    case TimeOut =>
    case Expire =>
  }

  lemma StepKeepsHonest(verdicts: seq<Verdict>, s: State, e: Event, s': State)
    requires Honest(verdicts, s) && Step(verdicts, s, e, s')
    ensures Honest(verdicts, s')
  {
    forall r | r in s'.results || r in s'.collected
      ensures Credible(verdicts, s'.expired, r)
    {
      assert r in s.results || r in s.collected ||
        (e.Send? && s.workers[e.w] in s.workers && r == s.workers[e.w].result);
    }
    forall w | w in s'.workers && w.Holding?
      ensures Credible(verdicts, s'.expired, w.result)
    {
      assert w in s.workers || w == s'.workers[e.w];
    }
  }

  lemma CollectKeepsCounted(s: State, result: Result, rest: seq<Result>)
    requires Counted(s)
    ensures Counted(Collect(s, result).(results := rest, collected := s.collected + [result]))
  {
    var collected := s.collected + [result];
    assert collected[|s.collected|] == result;
    forall r
      ensures r in collected <==> r in s.collected || r == result
    {
    }
  }

  lemma StepKeepsCounted(verdicts: seq<Verdict>, s: State, e: Event, s': State)
    requires Counted(s) && Step(verdicts, s, e, s')
    ensures Counted(s')
  {
    match e
    case Receive => CollectKeepsCounted(s, s.results[0], s.results[1..]);
    case TimeOut =>
    case Expire =>
    case _ =>
      assert s'.collected == s.collected;
  }

  lemma StepKeepsInv(verdicts: seq<Verdict>, s: State, e: Event, s': State)
    requires Inv(verdicts, s) && Step(verdicts, s, e, s')
    ensures Inv(verdicts, s')
  {
    forall i: nat
      ensures AccountedAt(s', |verdicts|, i)
    {
      StepKeepsAccounts(verdicts, s, e, s', i);
    }
    StepKeepsHonest(verdicts, s, e, s');
    StepKeepsCounted(verdicts, s, e, s');
    forall w | w in s'.workers && w == Stopped
      ensures s'.requests == []
    {
      assert w in s.workers || e.Quit?;
    }
  }

  lemma {:induction false} RunKeepsInv(verdicts: seq<Verdict>, states: seq<State>, events: seq<Event>, k: nat)
    requires IsRun(verdicts, states, events) && k < |states|
    ensures Inv(verdicts, states[k])
    decreases k
  {
    if k == 0 {
      forall i: nat
        ensures AccountedAt(states[0], |verdicts|, i)
      {
        IdleWorkers(states[0].workers, i);
        CountIndices(|verdicts|, i);
      }
      assert forall w :: w in states[0].workers ==> w == Idle;
    } else {
      RunKeepsInv(verdicts, states, events, k - 1);
      StepKeepsInv(verdicts, states[k - 1], events[k - 1], states[k]);
    }
  }

  // ---------- what the final status means ----------

  /** The status the verdicts call for: 500 before 403 before 400. */
  function StatusOf(verdicts: seq<Verdict>): Status {
    if Internal in verdicts then InternalServerError
    else if Denied in verdicts then Forbidden
    else if Invalid in verdicts then BadRequest
    else OK
  }

  /** The requests the results are about. */
  function Requests(rs: seq<Result>): seq<nat> {
    if rs == [] then [] else
      Requests(rs[..|rs| - 1]) + (if rs[|rs| - 1].request.Some? then [rs[|rs| - 1].request.value] else [])
  }

  lemma {:induction false} RequestsCount(rs: seq<Result>, i: nat)
    ensures Count(Requests(rs), i) == Asked(rs, i)
    ensures |Requests(rs)| <= |rs|
    ensures (forall r :: r in rs ==> r.request.Some?) ==> |Requests(rs)| == |rs|
  {
    if rs != [] {
      var init, last := rs[..|rs| - 1], rs[|rs| - 1];
      RequestsCount(init, i);
      assert rs == init + [last];
      if last.request.Some? {
        assert Requests(rs) == Requests(init) + [last.request.value];
        CountLast(Requests(init), last.request.value, i);
      } else {
        assert Requests(rs) == Requests(init);
      }
    }
  }

  lemma {:induction false} AskedMember(rs: seq<Result>, i: nat)
    ensures Asked(rs, i) > 0 ==> exists r :: r in rs && r.request == Some(i)
  {
    if Asked(rs, i) > 0 && !About(rs[|rs| - 1], i) {
      AskedMember(rs[..|rs| - 1], i);
    }
  }

  lemma {:induction false} CountIsMultiplicity(xs: seq<nat>, i: nat)
    ensures multiset(xs)[i] == Count(xs, i)
  {
    if xs != [] {
      CountIsMultiplicity(xs[..|xs| - 1], i);
      assert xs == xs[..|xs| - 1] + [xs[|xs| - 1]];
    }
  }

  /** n numbers below n, none twice, are all the numbers below n. */
  lemma EachOnce(xs: seq<nat>, n: nat)
    requires forall i: nat :: Count(xs, i) <= One(i < n)
    requires |xs| >= n
    ensures forall i: nat :: Count(xs, i) == One(i < n)
    ensures |xs| == n
  {
    var a, b := multiset(xs), multiset(Indices(n));
    forall i: nat
      ensures a[i] == Count(xs, i) && b[i] == One(i < n)
    {
      CountIsMultiplicity(xs, i);
      CountIsMultiplicity(Indices(n), i);
      CountIndices(n, i);
    }
    assert a <= b;
    assert |b - a| == |b| - |a|;
    assert b == a + (b - a);
    assert b - a == multiset{};
  }

  lemma AllOnce(xs: seq<nat>, n: nat)
    requires forall i: nat :: Count(xs, i) == One(i < n)
    ensures |xs| == n
  {
    var a, b := multiset(xs), multiset(Indices(n));
    forall i: nat
      ensures a[i] == b[i]
    {
      CountIsMultiplicity(xs, i);
      CountIsMultiplicity(Indices(n), i);
      CountIndices(n, i);
    }
    assert a == b;
    assert |a| == |xs| && |b| == |Indices(n)|;
  }

  /** If no internal error was counted, every request was checked exactly once and its verdict collected. */
  lemma EverythingCollected(verdicts: seq<Verdict>, s: State)
    requires Inv(verdicts, s) && Finished(s, |verdicts|)
    requires s.internalErrors == 0 || !s.expired
    ensures forall i: nat :: Count(s.checks, i) == Asked(s.collected, i) == One(i < |verdicts|)
    ensures s.timeouts == 0 && |s.collected| == |verdicts|
    ensures forall r :: r in s.collected ==>
      r.request.Some? && r.request.value < |verdicts| && r.verdict == verdicts[r.request.value]
    ensures forall i :: 0 <= i < |verdicts| ==> Result(Some(i), verdicts[i]) in s.collected
  {
    forall r | r in s.collected
      ensures r.request.Some? && r.request.value < |verdicts| && r.verdict == verdicts[r.request.value]
    {
      assert Credible(verdicts, s.expired, r);
    }
    CollectedOnce(verdicts, s);
    forall i | 0 <= i < |verdicts|
      ensures Result(Some(i), verdicts[i]) in s.collected
    {
      assert Asked(s.collected, i) == 1;
      AskedMember(s.collected, i);
      var r :| r in s.collected && r.request == Some(i);
      assert r == Result(Some(i), verdicts[i]);
    }
  }

  lemma CollectedOnce(verdicts: seq<Verdict>, s: State)
    requires Accounted(s, |verdicts|) && |s.collected| >= |verdicts|
    requires forall r :: r in s.collected ==> r.request.Some?
    ensures forall i: nat :: Count(s.checks, i) == Asked(s.collected, i) == One(i < |verdicts|)
  {
    var xs := Requests(s.collected);
    RequestsCount(s.collected, 0);
    forall i: nat
      ensures Count(xs, i) == Asked(s.collected, i) <= Count(s.checks, i) <= One(i < |verdicts|)
    {
      RequestsCount(s.collected, i);
      assert AccountedAt(s, |verdicts|, i);
    }
    EachOnce(xs, |verdicts|);
  }

  /** The status is what the verdicts call for, or it is 500 and the context had ended. */
  lemma StatusIsSound(verdicts: seq<Verdict>, s: State)
    requires Inv(verdicts, s) && Finished(s, |verdicts|)
    ensures FinalStatus(s) == StatusOf(verdicts) || (FinalStatus(s) == InternalServerError && s.expired)
    ensures !s.expired ==>
      && (FinalStatus(s) == InternalServerError <==> Internal in verdicts)
      && (FinalStatus(s) == Forbidden <==> Internal !in verdicts && Denied in verdicts)
      && (FinalStatus(s) == BadRequest <==> Internal !in verdicts && Denied !in verdicts && Invalid in verdicts)
  {
    if s.internalErrors == 0 || !s.expired {
      EverythingCollected(verdicts, s);
      forall v
        ensures v in verdicts <==> exists r :: r in s.collected && r.verdict == v
      {
        if v in verdicts {
          var i :| 0 <= i < |verdicts| && verdicts[i] == v;
          assert Result(Some(i), verdicts[i]) in s.collected;
        }
      }
    }
  }

  /** Success, under every interleaving: each requested pair was checked exactly once, and allowed. */
  lemma CheckAllIsSound(verdicts: seq<Verdict>, states: seq<State>, events: seq<Event>, k: nat)
    requires IsRun(verdicts, states, events) && k < |states| && Finished(states[k], |verdicts|)
    requires FinalStatus(states[k]) == OK
    ensures forall i: nat :: i < |verdicts| ==> Count(states[k].checks, i) == 1 && verdicts[i] == Allowed
    ensures |states[k].checks| == |verdicts|
  {
    RunKeepsInv(verdicts, states, events, k);
    EverythingCollected(verdicts, states[k]);
    StatusIsSound(verdicts, states[k]);
    AllOnce(states[k].checks, |verdicts|);
    forall i: nat | i < |verdicts|
      ensures verdicts[i] == Allowed
    {
      assert verdicts[i] in verdicts;
    }
  }

  /** While the context lasts, one result per request is collected and the status is exactly
      the one the verdicts call for. */
  lemma WithoutExpiryStatusIsExact(verdicts: seq<Verdict>, states: seq<State>, events: seq<Event>, k: nat)
    requires IsRun(verdicts, states, events) && k < |states| && Finished(states[k], |verdicts|) && !states[k].expired
    ensures FinalStatus(states[k]) == StatusOf(verdicts)
    ensures forall i: nat :: i < |verdicts| ==> Asked(states[k].collected, i) == 1
    ensures |states[k].collected| == |verdicts|
  {
    RunKeepsInv(verdicts, states, events, k);
    EverythingCollected(verdicts, states[k]);
    StatusIsSound(verdicts, states[k]);
  }

  // ---------- progress ----------

  function RankOf(w: Worker): nat {
    match w
    case Idle => 1
    case Checking(_) => 4
    case Holding(_) => 3
    case Stopped => 0
  }

  function Rank(workers: seq<Worker>): nat {
    if workers == [] then 0 else Rank(workers[..|workers| - 1]) + RankOf(workers[|workers| - 1])
  }

  function Work(s: State): nat {
    4 * |s.requests| + Rank(s.workers) + |s.results|
  }

  lemma StepsDoWork(verdicts: seq<Verdict>, s: State, e: Event, s': State)
    requires Step(verdicts, s, e, s') && !s'.expired
    ensures Work(s') < Work(s) && !s.expired
  {
    if e.Take? || e.Quit? || e.Finish? || e.SeeExpiry? || e.Send? {
      WorkerChanges(s.workers, e.w, s'.workers[e.w], 0);
    }
  }

  /** A run during which the context lasts takes at most 4 steps a request and one a worker. */
  lemma {:induction false} RunsAreBounded(verdicts: seq<Verdict>, states: seq<State>, events: seq<Event>)
    requires IsRun(verdicts, states, events) && !states[|events|].expired
    ensures |events| + Work(states[|events|]) <= 4 * |verdicts| + |states[0].workers|
  {
    var n := |events|;
    if n == 0 {
      IdleWorkers(states[0].workers, 0);
    } else {
      assert Step(verdicts, states[n - 1], events[n - 1], states[n]);
      StepsDoWork(verdicts, states[n - 1], events[n - 1], states[n]);
      RunsAreBounded(verdicts, states[..n], events[..n - 1]);
    }
  }

  /** What the next event could be. */
  function NextEvent(verdicts: seq<Verdict>, s: State, w: nat): Event
    requires w < |s.workers|
  {
    match s.workers[w]
    case Idle => if s.requests == [] then Quit(w) else Take(w)
    case Checking(i) => Finish(w, if i < |verdicts| then verdicts[i] else Internal)
    case Holding(_) => Send(w)
    case Stopped => Receive
  }

  ghost predicate Enabled(verdicts: seq<Verdict>, s: State, e: Event) {
    exists s' :: Step(verdicts, s, e, s')
  }

  lemma WorkerCanMove(verdicts: seq<Verdict>, s: State, w: nat)
    requires w < |s.workers| && s.workers[w] != Stopped && |s.results| < |verdicts|
    requires s.workers[w].Checking? ==> s.workers[w].request < |verdicts|
    ensures Enabled(verdicts, s, NextEvent(verdicts, s, w))
  {
    var e := NextEvent(verdicts, s, w);
    match e
    case Take(_) => assert Step(verdicts, s, e,
      s.(requests := s.requests[1..], workers := s.workers[w := Checking(s.requests[0])]));
    case Quit(_) => assert Step(verdicts, s, e, s.(workers := s.workers[w := Stopped]));
    case Finish(_, v) =>
      var i := s.workers[w].request;
      assert Step(verdicts, s, e, s.(workers := s.workers[w := Holding(Result(Some(i), v))], checks := s.checks + [i]));
    case Send(_) => assert Step(verdicts, s, e,
      s.(workers := s.workers[w := Idle], results := s.results + [s.workers[w].result]));
  }

  lemma CollectorCanMove(verdicts: seq<Verdict>, s: State)
    requires !Finished(s, |verdicts|) && (s.results != [] || s.expired)
    ensures Enabled(verdicts, s, Receive) || Enabled(verdicts, s, TimeOut)
  {
    if s.expired {
      assert Step(verdicts, s, TimeOut, s.(internalErrors := s.internalErrors + 1, timeouts := s.timeouts + 1));
    } else {
      assert Step(verdicts, s, Receive,
        Collect(s, s.results[0]).(results := s.results[1..], collected := s.collected + [s.results[0]]));
    }
  }

  /** No deadlock: until the collector is done, something other than waiting for the deadline can happen. */
  lemma NeverStuck(verdicts: seq<Verdict>, s: State)
    requires Inv(verdicts, s) && !Finished(s, |verdicts|) && (s.workers != [] || s.expired)
    ensures exists e: Event :: !e.Expire? && Enabled(verdicts, s, e)
  {
    if s.expired || s.results != [] {
      CollectorCanMove(verdicts, s);
    } else if w: nat :| w < |s.workers| && s.workers[w] != Stopped {
      if s.workers[w].Checking? {
        CheckingIsInCheck(s.workers, w);
        assert AccountedAt(s, |verdicts|, s.workers[w].request);
      }
      WorkerCanMove(verdicts, s, w);
    } else {
      AllStopped(verdicts, s);
    }
  }

  /** Workers stop only when every request has been collected. */
  lemma AllStopped(verdicts: seq<Verdict>, s: State)
    requires Inv(verdicts, s) && s.workers != [] && !s.expired && s.results == []
    requires forall w: nat :: w < |s.workers| ==> s.workers[w] == Stopped
    ensures Finished(s, |verdicts|)
  {
    assert s.workers[0] in s.workers;
    var xs := Requests(s.collected);
    forall i: nat
      ensures Count(xs, i) == One(i < |verdicts|)
    {
      assert AccountedAt(s, |verdicts|, i);
      NobodyBusy(s.workers, i);
      RequestsCount(s.collected, i);
    }
    AllOnce(xs, |verdicts|);
    RequestsCount(s.collected, 0);
  }

  lemma {:induction false} CheckingIsInCheck(ws: seq<Worker>, w: nat)
    requires w < |ws| && ws[w].Checking?
    ensures InCheck(ws, ws[w].request) > 0
  {
    if w < |ws| - 1 {
      CheckingIsInCheck(ws[..|ws| - 1], w);
    }
  }

  lemma {:induction false} NobodyBusy(ws: seq<Worker>, i: nat)
    requires forall w: nat :: w < |ws| ==> ws[w] == Stopped
    ensures InCheck(ws, i) == Held(ws, i) == 0
  {
    if ws != [] {
      NobodyBusy(ws[..|ws| - 1], i);
    }
  }
}
