/** The scan-set process: narrowing a set of addresses by repeated scans. */
module ScanSets {
  import opened Wrappers
  import opened Bytes
  import opened Simd32Patterns
  import opened PatternStructs

  /** Whether the bytes read at an address still match a pattern. */
  predicate MatchesPattern(data: seq<byte>, bytes: seq<byte>, mask: Option<seq<byte>>) {
    match mask
    case None => data == bytes
    case Some(m) => ApplyMask(data, m) == ApplyMask(bytes, m)
  }

  function ApplyMask(bin: seq<byte>, mask: seq<byte>): seq<byte> {
    var n := if |bin| <= |mask| then |bin| else |mask|;
    AndLanes(bin[..n], mask[..n])
  }

  /** Re-reading agrees with scanning: the masked bytes are equal iff the byte pattern matches. */
  lemma RereadAgreesWithScan(data: seq<byte>, bytes: seq<byte>, mask: Option<seq<byte>>)
    requires |data| == |bytes| && (mask.Some? ==> |mask.value| == |bytes|)
    requires mask.Some? ==> forall i :: 0 <= i < |bytes| ==> mask.value[i] == 0 || mask.value[i] == 0xFF
    ensures MatchesPattern(data, bytes, mask) <==> BytePatternOf(bytes, mask).Matches(data)
  {
  }

  /** Whatever the mask, re-reading compares bit by bit what it keeps, as far as both go. */
  lemma RereadComparesBits(data: seq<byte>, bytes: seq<byte>, mask: seq<byte>)
    requires |data| == |bytes|
    ensures MatchesPattern(data, bytes, Some(mask)) <==>
      forall i :: 0 <= i < |bytes| && i < |mask| ==> And(data[i], mask[i]) == And(bytes[i], mask[i])
  {
    var n := if |data| <= |mask| then |data| else |mask|;
    var a, b := ApplyMask(data, mask), ApplyMask(bytes, mask);
    assert |a| == |b| == n;
    assert forall i :: 0 <= i < n ==> a[i] == And(data[i], mask[i]) && b[i] == And(bytes[i], mask[i]);
  }

  type Caller = nat
  type Reason = string

  /** The process state; `waiters` holds the callers of `await` that have not been answered. */
  datatype State = State(current: Option<set<nat>>, pending: set<nat>, scanning: bool, waiters: seq<Caller>) {

    function AddMatch(addr: nat): State {
      this.(pending := pending + {addr})
    }

    function ScanDone(): State {
      var committed := match current
        case None => pending
        case Some(existing) => existing * pending;
      State(Some(committed), {}, false, [])
    }

    function ScanError(): State {
      this.(pending := {}, scanning := false, waiters := [])
    }

    function NextScanDone(matching: set<nat>): State {
      this.(current := Some(matching), scanning := false, waiters := [])
    }

    function Await(from: Caller): State {
      if !scanning then this else this.(waiters := [from] + waiters)
    }

    function Reset(): State {
      State(None, {}, false, [])
    }

    function StartScan(): State {
      if scanning then this else this.(scanning := true, pending := {})
    }

    /** A next scan starts only from a committed set. */
    function StartNextScan(): State {
      if scanning || current.None? then this else this.(scanning := true)
    }
  }

  const INIT := State(None, {}, false, [])

  /** What the process waits for: a scan sending matches and then its end, or a re-read of known addresses. */
  datatype Job =
    | Scan(toSend: seq<nat>, found: set<nat>, error: Option<Reason>)
    | NextScan(matching: set<nat>, filter: Filter)

  /** A next scan's reads and the pattern they are compared with. */
  datatype Filter = Filter(read: nat -> Option<seq<byte>>, bytes: seq<byte>, mask: Option<seq<byte>>) {
    predicate Keeps(addr: nat) {
      read(addr).Some? && MatchesPattern(read(addr).value, bytes, mask)
    }
  }

  datatype Commit = Found(addrs: set<nat>) | Filtered(filter: Filter) {
    predicate Accepts(addr: nat) {
      match this
      case Found(addrs) => addr in addrs
      case Filtered(filter) => filter.Keeps(addr)
    }
  }

  /**
    * The process with the jobs that still send to it, and what has happened: the commits since the
    * last reset, every call of `await`, and how those calls ended.
    */
  datatype World = World(
    state: State,
    jobs: seq<Job>,
    commits: seq<Commit>,
    awaited: multiset<Caller>,
    answered: multiset<Caller>,
    dropped: multiset<Caller>)

  const START := World(INIT, [], [], multiset{}, multiset{}, multiset{})

  /** The messages the process handles; a job's messages arrive in the order it sends them. */
  datatype Event =
    | CastScan(matches: seq<nat>, error: Option<Reason>)
    | CastNextScan(filter: Filter)
    | JobSends(job: nat)
    | CallAwait(from: Caller)
    | CallReset

  function Elements(addrs: seq<nat>): set<nat> {
    set a | a in addrs
  }

  function Without(jobs: seq<Job>, i: nat): seq<Job>
    requires i < |jobs|
  {
    jobs[..i] + jobs[i + 1..]
  }

  function Step(w: World, e: Event): World {
    match e
    case CastScan(matches, error) =>
      if w.state.scanning then
        w
      else
        w.(state := w.state.StartScan(), jobs := w.jobs + [Scan(matches, Elements(matches), error)])
    case CastNextScan(filter) =>
      if w.state.scanning || w.state.current.None? then
        w
      else
        var matching := set a | a in w.state.current.value && filter.Keeps(a);
        w.(state := w.state.StartNextScan(), jobs := w.jobs + [NextScan(matching, filter)])
    case JobSends(i) =>
      if i >= |w.jobs| then w else JobStep(w, i)
    case CallAwait(from) =>
      w.(state := w.state.Await(from),
         awaited := w.awaited + multiset{from},
         answered := if w.state.scanning then w.answered else w.answered + multiset{from})
    case CallReset =>
      w.(state := w.state.Reset(), commits := [], dropped := w.dropped + multiset(w.state.waiters))
  }

  /** A job's next message: a match, or the end of the job, which answers everyone waiting. */
  function JobStep(w: World, i: nat): World
    requires i < |w.jobs|
  {
    var answered := w.answered + multiset(w.state.waiters);
    match w.jobs[i]
    case Scan(toSend, found, error) =>
      if toSend != [] then
        w.(state := w.state.AddMatch(toSend[0]), jobs := w.jobs[i := Scan(toSend[1..], found, error)])
      else if error.Some? then
        w.(state := w.state.ScanError(), jobs := Without(w.jobs, i), answered := answered)
      else
        w.(state := w.state.ScanDone(), jobs := Without(w.jobs, i), answered := answered,
           commits := w.commits + [Found(found)])
    case NextScan(matching, filter) =>
      w.(state := w.state.NextScanDone(matching), jobs := Without(w.jobs, i), answered := answered,
         commits := w.commits + [Filtered(filter)])
  }

  function Run(events: seq<Event>): World {
    if events == [] then START else Step(Run(events[..|events| - 1]), events[|events| - 1])
  }

  /** No reset is handled while a scan is in progress. */
  predicate Calm(events: seq<Event>) {
    events != [] ==>
      && Calm(events[..|events| - 1])
      && (events[|events| - 1] == CallReset ==> !Run(events[..|events| - 1]).state.scanning)
  }

  /** In every run, callers wait only while a scan is in progress, and every call is answered once, waits, or was dropped. */
  ghost predicate AwaitsAccountedFor(w: World) {
    && (w.state.waiters != [] ==> w.state.scanning)
    && w.awaited == w.answered + multiset(w.state.waiters) + w.dropped
  }

  /** `current` is the intersection of everything committed since the last reset. */
  ghost predicate CurrentIsIntersection(w: World) {
    match w.state.current
    case None => w.commits == []
    case Some(addrs) =>
      && w.commits != [] && w.commits[0].Found?
      && forall a: nat :: a in addrs <==> forall i :: 0 <= i < |w.commits| ==> w.commits[i].Accepts(a)
  }

  /** The one outstanding job works on what the process holds. */
  ghost predicate JobMatchesState(w: World, job: Job) {
    match job
    case Scan(toSend, found, _) => w.state.pending + Elements(toSend) == found
    case NextScan(matching, filter) =>
      && w.state.pending == {} && w.state.current.Some?
      && matching == set a | a in w.state.current.value && filter.Keeps(a)
  }

  ghost predicate Inv(w: World) {
    && AwaitsAccountedFor(w)
    && CurrentIsIntersection(w)
    && w.dropped == multiset{}
    && |w.jobs| <= 1
    && (w.state.scanning <==> |w.jobs| == 1)
    && (w.jobs == [] ==> w.state.pending == {})
    && (|w.jobs| == 1 ==> JobMatchesState(w, w.jobs[0]))
  }

  /** Either a job goes on and nobody is answered, or it ends and everyone is. */
  lemma JobStepAccountsForAwaits(w: World, i: nat)
    requires AwaitsAccountedFor(w) && i < |w.jobs|
    ensures AwaitsAccountedFor(JobStep(w, i))
  {
  }

  lemma AwaitAccountsForAwaits(w: World, from: Caller)
    requires AwaitsAccountedFor(w)
    ensures AwaitsAccountedFor(Step(w, CallAwait(from)))
  {
  }

  lemma ResetAccountsForAwaits(w: World)
    requires AwaitsAccountedFor(w)
    ensures AwaitsAccountedFor(Step(w, CallReset))
  {
  }

  lemma StepAccountsForAwaits(w: World, e: Event)
    requires AwaitsAccountedFor(w)
    ensures AwaitsAccountedFor(Step(w, e))
  {
    match e
    case JobSends(i) =>
      hide JobStep;
      if i < |w.jobs| {
        JobStepAccountsForAwaits(w, i);
      }
    case CallAwait(from) =>
      hide Step;
      AwaitAccountsForAwaits(w, from);
    case CallReset =>
      hide Step;
      ResetAccountsForAwaits(w);
    case _ =>
  }

  lemma {:induction false} EveryAwaitAnsweredAtMostOnce(events: seq<Event>)
    ensures AwaitsAccountedFor(Run(events))
  {
    if events != [] {
      EveryAwaitAnsweredAtMostOnce(events[..|events| - 1]);
      StepAccountsForAwaits(Run(events[..|events| - 1]), events[|events| - 1]);
    }
  }

  lemma FoundCommits(w: World, found: set<nat>)
    requires CurrentIsIntersection(w) && w.state.pending == found
    ensures CurrentIsIntersection(w.(state := w.state.ScanDone(), commits := w.commits + [Found(found)]))
  {
    var after := w.(state := w.state.ScanDone(), commits := w.commits + [Found(found)]);
    forall a: nat
      ensures a in after.state.current.value <==> forall i :: 0 <= i < |after.commits| ==> after.commits[i].Accepts(a)
    {
      AppendAccepts(w.commits, Found(found), a);
    }
  }

  lemma FilterCommits(w: World, filter: Filter)
    requires CurrentIsIntersection(w) && w.state.current.Some?
    ensures var matching := set a | a in w.state.current.value && filter.Keeps(a);
      CurrentIsIntersection(w.(state := w.state.NextScanDone(matching), commits := w.commits + [Filtered(filter)]))
  {
    var matching := set a | a in w.state.current.value && filter.Keeps(a);
    var after := w.(state := w.state.NextScanDone(matching), commits := w.commits + [Filtered(filter)]);
    forall a: nat
      ensures a in matching <==> forall i :: 0 <= i < |after.commits| ==> after.commits[i].Accepts(a)
    {
      AppendAccepts(w.commits, Filtered(filter), a);
    }
  }

  lemma AppendAccepts(commits: seq<Commit>, c: Commit, a: nat)
    ensures (forall i :: 0 <= i < |commits + [c]| ==> (commits + [c])[i].Accepts(a))
        <==> (forall i :: 0 <= i < |commits| ==> commits[i].Accepts(a)) && c.Accepts(a)
  {
    var all := commits + [c];
    assert all[|commits|] == c;
    assert forall i :: 0 <= i < |commits| ==> all[i] == commits[i];
  }

  lemma MatchArrivesKeepsInv(w: World, toSend: seq<nat>, found: set<nat>, error: Option<Reason>)
    requires Inv(w) && w.jobs == [Scan(toSend, found, error)] && toSend != []
    ensures Inv(JobStep(w, 0))
  {
  }

  lemma JobEndsKeepsInv(w: World)
    requires Inv(w) && |w.jobs| == 1 && (w.jobs[0].Scan? ==> w.jobs[0].toSend == [])
    ensures Inv(JobStep(w, 0))
  {
    StepAccountsForAwaits(w, JobSends(0));
    assert Without(w.jobs, 0) == [];
    match w.jobs[0]
    case Scan(toSend, found, error) =>
      if error.None? {
        FoundCommits(w, found);
      }
    case NextScan(matching, filter) =>
      FilterCommits(w, filter);
  }

  lemma JobKeepsInv(w: World, i: nat)
    requires Inv(w)
    ensures Inv(Step(w, JobSends(i)))
  {
    if i < |w.jobs| {
      if w.jobs[0].Scan? && w.jobs[0].toSend != [] {
        MatchArrivesKeepsInv(w, w.jobs[0].toSend, w.jobs[0].found, w.jobs[0].error);
      } else {
        JobEndsKeepsInv(w);
      }
    }
  }

  lemma CallKeepsInv(w: World, e: Event)
    requires Inv(w) && !e.JobSends? && (e.CallReset? ==> !w.state.scanning)
    ensures Inv(Step(w, e))
  {
    StepAccountsForAwaits(w, e);
  }

  lemma StepKeepsInv(w: World, e: Event)
    requires Inv(w) && (e.CallReset? ==> !w.state.scanning)
    ensures Inv(Step(w, e))
  {
    hide Inv, Step;
    match e
    case JobSends(i) => JobKeepsInv(w, i);
    case _ => CallKeepsInv(w, e);
  }

  /**
    * In every run without a reset while scanning, at most one job is outstanding, the set is the
    * intersection of all commits since the last reset, and no caller is dropped.
    */
  lemma {:induction false} CalmRunsKeepInv(events: seq<Event>)
    requires Calm(events)
    ensures Inv(Run(events))
  {
    if events != [] {
      CalmRunsKeepInv(events[..|events| - 1]);
      StepKeepsInv(Run(events[..|events| - 1]), events[|events| - 1]);
    }
  }

  /** A scan that fails leaves the set as it was and answers everyone waiting. */
  lemma ErrorLeavesCurrent(w: World, i: nat)
    requires Inv(w) && i < |w.jobs| && w.jobs[i].Scan? && w.jobs[i].toSend == [] && w.jobs[i].error.Some?
    ensures var after := Step(w, JobSends(i));
      && after.state.current == w.state.current && after.commits == w.commits
      && !after.state.scanning && after.state.waiters == [] && after.awaited == after.answered
  {
  }

  // A scan from its start to its end.

  /** Goes on from any point of a run. */
  function Continue(w: World, events: seq<Event>): World
    decreases |events|
  {
    if events == [] then w else Continue(Step(w, events[0]), events[1..])
  }

  /** Whether an event is a message of the one job. */
  function Sends(e: Event): nat {
    if e == JobSends(0) then 1 else 0
  }

  function Messages(events: seq<Event>): nat {
    if events == [] then 0 else Sends(events[0]) + Messages(events[1..])
  }

  /** The caller of `await`, if an event is one. */
  function CallerOf(e: Event): multiset<Caller> {
    match e
    case CallAwait(from) => multiset{from}
    case _ => multiset{}
  }

  function Callers(events: seq<Event>): multiset<Caller> {
    if events == [] then multiset{} else CallerOf(events[0]) + Callers(events[1..])
  }

  predicate NoReset(events: seq<Event>) {
    forall i :: 0 <= i < |events| ==> events[i] != CallReset
  }

  /** A scan that has sent `sent` of its matches; whoever has called since waits, and nobody else has been answered. */
  ghost predicate Sent(
    before: World, after: World, matches: seq<nat>, error: Option<Reason>, sent: nat, callers: multiset<Caller>)
    requires sent <= |matches|
  {
    && after.state.scanning && after.state.current == before.state.current
    && after.state.pending == Elements(matches[..sent])
    && after.jobs == [Scan(matches[sent..], Elements(matches), error)]
    && multiset(after.state.waiters) == callers
    && after.answered == before.answered && after.awaited == before.awaited + callers
    && after.commits == before.commits && after.dropped == before.dropped
  }

  /** Without a scan in progress, a scan is started. */
  lemma CastStartsScan(w: World, matches: seq<nat>, error: Option<Reason>)
    requires Inv(w) && !w.state.scanning
    ensures Sent(w, Step(w, CastScan(matches, error)), matches, error, 0, multiset{})
  {
    assert matches[..0] == [] && matches[0..] == matches && Elements([]) == {};
  }

  /** One event during the scan. */
  lemma SentStep(
    before: World, w: World, matches: seq<nat>, error: Option<Reason>, sent: nat, callers: multiset<Caller>, e: Event)
    requires sent <= |matches| && Sent(before, w, matches, error, sent, callers)
    requires e != CallReset && sent + Sends(e) <= |matches|
    ensures Sent(before, Step(w, e), matches, error, sent + Sends(e), callers + CallerOf(e))
  {
    if e == JobSends(0) {
      assert matches[sent..][0] == matches[sent] && matches[sent..][1..] == matches[sent + 1..];
      assert matches[..sent + 1] == matches[..sent] + [matches[sent]];
      ElementsSnoc(matches[..sent], matches[sent]);
    }
  }

  lemma ElementsSnoc(addrs: seq<nat>, a: nat)
    ensures Elements(addrs + [a]) == Elements(addrs) + {a}
  {
    assert forall x :: x in addrs + [a] <==> x in addrs || x == a;
  }

  /** Whatever is called meanwhile, further scans included, the scan goes on match by match and callers wait. */
  lemma {:induction false} ScanGoesOn(
    before: World, w: World, matches: seq<nat>, error: Option<Reason>, sent: nat, callers: multiset<Caller>, events: seq<Event>)
    requires sent + Messages(events) <= |matches| && Sent(before, w, matches, error, sent, callers) && NoReset(events)
    ensures Sent(before, Continue(w, events), matches, error, sent + Messages(events), callers + Callers(events))
    decreases |events|
  {
    hide Sent, Step, Elements;
    if events != [] {
      var e, rest := events[0], events[1..];
      SentStep(before, w, matches, error, sent, callers, e);
      ScanGoesOn(before, Step(w, e), matches, error, sent + Sends(e), callers + CallerOf(e), rest);
      assert callers + CallerOf(e) + Callers(rest) == callers + Callers(events);
      assert sent + Sends(e) + Messages(rest) == sent + Messages(events);
    } else {
      assert callers + Callers(events) == callers;
    }
  }

  /** The set after a scan: what was found, of the set before if there was one; an error leaves that as it was. */
  ghost predicate Narrowed(before: Option<set<nat>>, after: Option<set<nat>>, matches: seq<nat>, error: Option<Reason>) {
    if error.Some? then
      after == before
    else
      && after.Some?
      && forall a: nat :: a in after.value <==> a in matches && (before.Some? ==> a in before.value)
  }

  /** After a scan nothing is in progress and everyone who called during it is answered. */
  ghost predicate Ended(before: World, after: World, callers: multiset<Caller>) {
    && !after.state.scanning && after.jobs == [] && after.state.pending == {} && after.state.waiters == []
    && after.answered == before.answered + callers && after.awaited == before.awaited + callers
    && after.dropped == before.dropped
  }

  lemma LastMessageEnds(before: World, w: World, matches: seq<nat>, error: Option<Reason>, callers: multiset<Caller>)
    requires Sent(before, w, matches, error, |matches|, callers)
    ensures var after := Step(w, JobSends(0));
      && Narrowed(before.state.current, after.state.current, matches, error) && Ended(before, after, callers)
      && after.commits == before.commits + (if error.Some? then [] else [Found(Elements(matches))])
  {
    assert matches[..|matches|] == matches && matches[|matches|..] == [];
    assert Without(w.jobs, 0) == [];
    assert before.commits + [] == before.commits;
  }

  /**
    * With no scan in progress, a scan is always carried out: whatever is called while its matches arrive, nobody who
    * calls `await` is answered before its end, and at its end everybody is and the set is narrowed by what was found.
    */
  lemma {:induction false} ScanNarrows(w: World, matches: seq<nat>, error: Option<Reason>, events: seq<Event>)
    requires Inv(w) && !w.state.scanning && NoReset(events) && Messages(events) == |matches|
    ensures var during := Continue(Step(w, CastScan(matches, error)), events);
      var after := Step(during, JobSends(0));
      && during.state.scanning && during.answered == w.answered
      && Narrowed(w.state.current, after.state.current, matches, error) && Ended(w, after, Callers(events))
      && after.commits == w.commits + (if error.Some? then [] else [Found(Elements(matches))])
  {
    hide Inv, Step, Ended, Narrowed, Elements;
    CastStartsScan(w, matches, error);
    var started := Step(w, CastScan(matches, error));
    ScanGoesOn(w, started, matches, error, 0, multiset{}, events);
    assert multiset{} + Callers(events) == Callers(events);
    LastMessageEnds(w, Continue(started, events), matches, error, Callers(events));
  }

  // The same for a next scan.

  /** A next scan that has not ended; whoever has called since waits. */
  ghost predicate Rereading(before: World, after: World, matching: set<nat>, filter: Filter, callers: multiset<Caller>) {
    && after.state.scanning && after.state.current == before.state.current && after.state.pending == {}
    && after.jobs == [NextScan(matching, filter)]
    && multiset(after.state.waiters) == callers
    && after.answered == before.answered && after.awaited == before.awaited + callers
    && after.commits == before.commits && after.dropped == before.dropped
  }

  lemma RereadingStep(
    before: World, w: World, matching: set<nat>, filter: Filter, callers: multiset<Caller>, e: Event)
    requires Rereading(before, w, matching, filter, callers) && e != CallReset && e != JobSends(0)
    ensures Rereading(before, Step(w, e), matching, filter, callers + CallerOf(e))
  {
  }

  lemma {:induction false} RereadingGoesOn(
    before: World, w: World, matching: set<nat>, filter: Filter, callers: multiset<Caller>, events: seq<Event>)
    requires Rereading(before, w, matching, filter, callers) && NoReset(events) && Messages(events) == 0
    ensures Rereading(before, Continue(w, events), matching, filter, callers + Callers(events))
    decreases |events|
  {
    hide Rereading, Step;
    if events != [] {
      var e, rest := events[0], events[1..];
      RereadingStep(before, w, matching, filter, callers, e);
      RereadingGoesOn(before, Step(w, e), matching, filter, callers + CallerOf(e), rest);
      assert callers + CallerOf(e) + Callers(rest) == callers + Callers(events);
    } else {
      assert callers + Callers(events) == callers;
    }
  }

  lemma CastStartsRereading(w: World, filter: Filter, matching: set<nat>)
    requires Inv(w) && !w.state.scanning && w.state.current.Some?
    requires matching == set a | a in w.state.current.value && filter.Keeps(a)
    ensures Rereading(w, Step(w, CastNextScan(filter)), matching, filter, multiset{})
  {
  }

  lemma LastMessageNarrows(
    before: World, w: World, matching: set<nat>, filter: Filter, callers: multiset<Caller>)
    requires Rereading(before, w, matching, filter, callers)
    ensures var after := Step(w, JobSends(0));
      && w.state.scanning && w.answered == before.answered && after.state.current == Some(matching)
      && Ended(before, after, callers) && after.commits == before.commits + [Filtered(filter)]
  {
    assert Without([NextScan(matching, filter)], 0) == [];
  }

  /**
    * From a committed set, with no scan in progress, a next scan is always carried out: at its end the set holds
    * exactly the addresses that it held before, can be read, and match; callers are answered then and not before.
    */
  lemma {:induction false} NextScanNarrows(w: World, filter: Filter, events: seq<Event>)
    requires Inv(w) && !w.state.scanning && w.state.current.Some? && NoReset(events) && Messages(events) == 0
    ensures var during := Continue(Step(w, CastNextScan(filter)), events);
      var after := Step(during, JobSends(0));
      && during.state.scanning && during.answered == w.answered
      && Ended(w, after, Callers(events)) && after.commits == w.commits + [Filtered(filter)]
      && after.state.current.Some?
      && forall a: nat :: a in after.state.current.value <==>
           && a in w.state.current.value && filter.read(a).Some?
           && MatchesPattern(filter.read(a).value, filter.bytes, filter.mask)
  {
    hide Inv, Step, Continue, Rereading, Ended, MatchesPattern;
    var matching := set a | a in w.state.current.value && filter.Keeps(a);
    var started := Step(w, CastNextScan(filter));
    CastStartsRereading(w, filter, matching);
    RereadingGoesOn(w, started, matching, filter, multiset{}, events);
    assert multiset{} + Callers(events) == Callers(events);
    LastMessageNarrows(w, Continue(started, events), matching, filter, Callers(events));
  }

  /** Calls that are refused or answered at once change nothing else. */
  lemma OtherCalls(w: World, matches: seq<nat>, error: Option<Reason>, filter: Filter, from: Caller)
    ensures w.state.scanning ==> Step(w, CastScan(matches, error)) == w && Step(w, CastNextScan(filter)) == w
    ensures w.state.current.None? ==> Step(w, CastNextScan(filter)) == w
    ensures var after := Step(w, CallAwait(from));
      if w.state.scanning then
        after == w.(state := w.state.(waiters := [from] + w.state.waiters), awaited := w.awaited + multiset{from})
      else
        after == w.(awaited := w.awaited + multiset{from}, answered := w.answered + multiset{from})
    ensures var after := Step(w, CallReset);
      after.state == INIT && after.jobs == w.jobs && after.commits == [] && after.answered == w.answered
  {
  }

  // What a reset does to what comes after it.

  /** What callers can rely on: the set is the intersection of the commits, and nobody was dropped. */
  ghost predicate Sound(w: World) {
    CurrentIsIntersection(w) && w.dropped == multiset{}
  }

  predicate CalmFrom(w: World, events: seq<Event>)
    decreases |events|
  {
    events != [] ==>
      && (events[0] == CallReset ==> !w.state.scanning)
      && CalmFrom(Step(w, events[0]), events[1..])
  }

  lemma {:induction false} CalmContinuationsKeepInv(w: World, events: seq<Event>)
    requires Inv(w) && CalmFrom(w, events)
    ensures Inv(Continue(w, events))
    decreases |events|
  {
    hide Inv, Step;
    if events != [] {
      StepKeepsInv(w, events[0]);
      CalmContinuationsKeepInv(Step(w, events[0]), events[1..]);
    }
  }

  lemma {:induction false} ContinueCons(w: World, e: Event, events: seq<Event>)
    ensures Continue(w, [e] + events) == Continue(Step(w, e), events)
    ensures CalmFrom(w, [e] + events) <==> (e == CallReset ==> !w.state.scanning) && CalmFrom(Step(w, e), events)
  {
    assert ([e] + events)[1..] == events;
  }

  function ThreeSteps(w: World, e0: Event, e1: Event, e2: Event): World {
    Step(Step(Step(w, e0), e1), e2)
  }

  lemma ContinueThree(w: World, e0: Event, e1: Event, e2: Event) returns (events: seq<Event>)
    requires e0 != CallReset && e1 != CallReset && e2 != CallReset
    ensures CalmFrom(w, events) && Continue(w, events) == ThreeSteps(w, e0, e1, e2)
  {
    hide Step;
    events := [e0] + ([e1] + ([e2] + []));
    ContinueCons(Step(Step(w, e0), e1), e2, []);
    ContinueCons(Step(w, e0), e1, [e2] + []);
    ContinueCons(w, e0, [e1] + ([e2] + []));
  }

  /** A process that was reset while `job` went on. */
  ghost predicate ResetWhile(w: World, job: Job) {
    w.state == INIT && w.jobs == [job] && w.commits == []
  }

  /** A match of the old scan gets into the set that a new, empty scan commits. */
  lemma OldMatchMixesIn(w: World, toSend: seq<nat>, found: set<nat>, error: Option<Reason>)
    requires ResetWhile(w, Scan(toSend, found, error)) && toSend != []
    ensures !Sound(ThreeSteps(w, CastScan([], None), JobSends(0), JobSends(1)))
  {
    assert Elements([]) == {};
    var w1 := Step(w, CastScan([], None));
    assert w1.jobs == [Scan(toSend, found, error), Scan([], {}, None)] && w1.state.pending == {};
    var w2 := Step(w1, JobSends(0));
    assert w2.jobs[1] == Scan([], {}, None) && w2.state.pending == {toSend[0]};
    var w3 := Step(w2, JobSends(1));
    assert w3.commits == [Found({})] && w3.state.current == Some({toSend[0]});
    assert !w3.commits[0].Accepts(toSend[0]);
  }

  /** The old scan's end commits what has arrived since the reset: nothing, or a match of a new scan. */
  lemma OldScanCommits(w: World, found: set<nat>)
    requires ResetWhile(w, Scan([], found, None))
    ensures found != {} ==> !Sound(Step(w, JobSends(0)))
    ensures found == {} ==> !Sound(ThreeSteps(w, CastScan([0], None), JobSends(1), JobSends(0)))
  {
    if found != {} {
      var a :| a in found;
      assert Step(w, JobSends(0)).commits[0].Accepts(a);
    } else {
      var w1 := Step(w, CastScan([0], None));
      var w2 := Step(w1, JobSends(1));
      assert w1.jobs[1] == Scan([0], Elements([0]), None) && w2.jobs[0] == Scan([], found, None);
      assert w2.state.pending == {0} && w2.commits == [];
      var w3 := Step(w2, JobSends(0));
      assert w3.commits == [Found({})] && w3.state.current == Some({0});
      assert !w3.commits[0].Accepts(0);
    }
  }

  /** The old scan's error throws away the matches of a new one. */
  lemma OldErrorLosesMatches(w: World, found: set<nat>, reason: Reason)
    requires ResetWhile(w, Scan([], found, Some(reason)))
    ensures !Sound(ThreeSteps(Step(w, CastScan([0], None)), JobSends(1), JobSends(0), JobSends(0)))
  {
    assert Elements([0]) == {0};
    var w1 := Step(w, CastScan([0], None));
    assert w1.jobs == [Scan([], found, Some(reason)), Scan([0], {0}, None)];
    var w2 := Step(w1, JobSends(1));
    assert [0][1..] == [];
    assert w2.jobs == [Scan([], found, Some(reason)), Scan([], {0}, None)];
    var w3 := Step(w2, JobSends(0));
    assert w3.jobs == [Scan([], {0}, None)] && w3.state.pending == {} && w3.state.current == None;
    var w4 := Step(w3, JobSends(0));
    assert w4.commits == [Found({0})] && w4.state.current == Some({});
    assert w4.commits[0].Accepts(0);
  }

  /** A next scan's end brings back a set that the reset has cleared. */
  lemma OldNextScanCommits(w: World, matching: set<nat>, filter: Filter)
    requires ResetWhile(w, NextScan(matching, filter))
    ensures !Sound(Step(w, JobSends(0)))
  {
    var after := Step(w, JobSends(0));
    assert after.commits == [Filtered(filter)] && after.state.current == Some(matching);
  }

  /** Whatever job was going on when the process was reset, some calm run from there ends unsoundly. */
  lemma ResetWhileScanningSpoils(w: World, job: Job) returns (events: seq<Event>)
    requires ResetWhile(w, job)
    ensures CalmFrom(w, events) && !Sound(Continue(w, events))
  {
    hide Step, Sound, ThreeSteps;
    match job
    case NextScan(matching, filter) =>
      OldNextScanCommits(w, matching, filter);
      events := [JobSends(0)] + [];
      ContinueCons(w, JobSends(0), []);
    case Scan(toSend, found, error) =>
      if toSend != [] {
        OldMatchMixesIn(w, toSend, found, error);
        events := ContinueThree(w, CastScan([], None), JobSends(0), JobSends(1));
      } else if error.Some? {
        OldErrorLosesMatches(w, found, error.value);
        var rest := ContinueThree(Step(w, CastScan([0], None)), JobSends(1), JobSends(0), JobSends(0));
        events := [CastScan([0], None)] + rest;
        ContinueCons(w, CastScan([0], None), rest);
      } else if found != {} {
        OldScanCommits(w, found);
        events := [JobSends(0)] + [];
        ContinueCons(w, JobSends(0), []);
      } else {
        OldScanCommits(w, found);
        events := ContinueThree(w, CastScan([0], None), JobSends(1), JobSends(0));
      }
  }

  /**
    * A reset is safe exactly when no scan is in progress: then, and only then, every calm run that goes on
    * from it leaves the set what was committed since, and drops nobody.
    */
  lemma ResetSafeIff(w: World)
    requires Inv(w)
    ensures !w.state.scanning <==>
      forall events :: CalmFrom(Step(w, CallReset), events) ==> Sound(Continue(Step(w, CallReset), events))
  {
    var after := Step(w, CallReset);
    if !w.state.scanning {
      StepKeepsInv(w, CallReset);
      forall events | CalmFrom(after, events)
        ensures Sound(Continue(after, events))
      {
        CalmContinuationsKeepInv(after, events);
      }
    } else {
      var events := ResetWhileScanningSpoils(after, w.jobs[0]);
    }
  }

  lemma {:induction false} RunSnoc(events: seq<Event>, e: Event)
    ensures Run(events + [e]) == Step(Run(events), e)
  {
  }

  const RESET_BETWEEN := [CastScan([1], None), CallReset, CastScan([2], None)]

  /** After a reset during a scan, a second scan runs beside the first. */
  lemma ResetLeavesJob()
    ensures Run(RESET_BETWEEN)
         == START.(state := State(None, {}, true, []), jobs := [Scan([1], {1}, None), Scan([2], {2}, None)])
  {
    assert Elements([1]) == {1} && Elements([2]) == {2};
    var first := Step(START, CastScan([1], None));
    assert first.jobs == [Scan([1], {1}, None)];
    RunSnoc([], CastScan([1], None));
    assert [] + [CastScan([1], None)] == [CastScan([1], None)];
    RunSnoc([CastScan([1], None)], CallReset);
    RunSnoc([CastScan([1], None), CallReset], CastScan([2], None));
    assert [CastScan([1], None), CallReset] + [CastScan([2], None)] == RESET_BETWEEN;
    hide Run;
    assert Run([]) == START ==> Run(RESET_BETWEEN).jobs == [Scan([1], {1}, None)] + [Scan([2], {2}, None)];
    assert Run([]) == START by { EmptyRun(); }
  }

  lemma EmptyRun()
    ensures Run([]) == START
  {
  }

  /** Its matches get in among the second scan's, which then commits more than it found. */
  lemma ResetDuringScanMixesMatches()
    ensures var after := ThreeSteps(Run(RESET_BETWEEN), JobSends(0), JobSends(1), JobSends(1));
      after.commits == [Found({2})] && after.state.current == Some({1, 2})
  {
    ResetLeavesJob();
    var w := Run(RESET_BETWEEN);
    hide Run;
    assert [1][1..] == [] && [2][1..] == [];
    var w1 := Step(w, JobSends(0));
    assert w1.jobs == [Scan([], {1}, None), Scan([2], {2}, None)] && w1.state.pending == {1};
    var w2 := Step(w1, JobSends(1));
    assert w2.jobs[1] == Scan([], {2}, None) && w2.state.pending == {1, 2} && w2.commits == [];
  }
}
