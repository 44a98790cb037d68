/** Several `relay_unified_message` calls interleaving at their awaits: a step system over the
    clock, the registrations, the shared duplicate memory and the relays in flight. */
module RelayRuns {
  import opened Strings
  import opened Relay

  /** What one relay call knows of its message and of the caller's wishes. */
  datatype Request = Request(
    excluded: set<string>,
    targets: Option<set<string>>,
    mainSession: bool,
    userMessage: bool,
    sourcePlatform: string,
    hasClient: bool,
    message: string)

  /** The delivery key of a message for a registration: its platform decides the prefix and enters
      the key, its name does not. */
  type KeyOf = (Request, string) -> string

  /** The tests before the duplicate check, in the order of the code. */
  predicate Eligible(request: Request, r: Registration) {
    && r.name !in request.excluded && r.platform !in request.excluded
    && (request.targets.Some? ==> r.name in request.targets.value || r.platform in request.targets.value)
    && !(r.isExternal && !request.mainSession)
    && !(request.userMessage && r.platform == request.sourcePlatform && (r.platform != "webui" || !request.hasClient))
  }

  /** A call in flight: the registrations when it began, and those it has not reached yet. */
  datatype Call = Call(request: Request, snapshot: seq<Registration>, pending: seq<Registration>)

  /** A message handed to a channel by call number `call`, stamped with the time remembered for it. */
  datatype Delivery = Delivery(call: nat, mark: Mark, time: real)

  /** A message held back as a duplicate at a time. */
  datatype Skip = Skip(call: nat, mark: Mark, time: real)

  datatype State = State(
    now: real,
    registrations: seq<Registration>,
    memory: Memory,
    calls: seq<Call>,
    deliveries: seq<Delivery>,
    skips: seq<Skip>)

  // ----- steps -----

  ghost predicate Initial(s: State) {
    s.registrations == [] && s.memory == map[] && s.calls == [] && s.deliveries == [] && s.skips == []
  }

  /** Time passes. */
  ghost predicate Tick(s: State, s': State) {
    s'.now >= s.now && s' == s.(now := s'.now)
  }

  /** A channel is registered or unregistered. */
  ghost predicate Reregister(s: State, s': State) {
    DistinctNames(s'.registrations) && s' == s.(registrations := s'.registrations)
  }

  /** A relay call starts with the registrations of that moment. */
  ghost predicate Begin(s: State, s': State, request: Request) {
    s' == s.(calls := s.calls + [Call(request, s.registrations, s.registrations)])
  }

  /** Call i passes over its next registration. */
  ghost predicate PassOver(s: State, s': State, i: nat) {
    && i < |s.calls| && s.calls[i].pending != []
    && !Eligible(s.calls[i].request, s.calls[i].pending[0])
    && s' == s.(calls := s.calls[i := Advanced(s.calls[i])])
  }

  function Advanced(call: Call): Call
    requires call.pending != []
  {
    call.(pending := call.pending[1..])
  }

  function MarkFor(keyOf: KeyOf, request: Request, r: Registration): Mark {
    (r.name, keyOf(request, r.platform))
  }

  function NextMark(keyOf: KeyOf, call: Call): Mark
    requires call.pending != []
  {
    MarkFor(keyOf, call.request, call.pending[0])
  }

  /** Call i checks its next registration and, unless the memory holds its mark, remembers the mark
      and hands the message over. Nothing else runs between the check and the stamp; the clock is
      read three times, at check <= prune <= stamp. */
  ghost predicate Check(keyOf: KeyOf, ttl: real, s: State, s': State, i: nat, check: real, prune: real, stamp: real) {
    && i < |s.calls| && s.calls[i].pending != []
    && Eligible(s.calls[i].request, s.calls[i].pending[0])
    && s.now <= check <= prune <= stamp
    && var mark := NextMark(keyOf, s.calls[i]);
    var (skip, memory) := Checked(s.memory, mark, check, prune, stamp, ttl);
    var calls := s.calls[i := Advanced(s.calls[i])];
    if skip then
      s' == s.(now := check, memory := memory, calls := calls, skips := s.skips + [Skip(i, mark, check)])
    else
      s' == s.(now := stamp, memory := memory, calls := calls,
               deliveries := s.deliveries + [Delivery(i, mark, stamp)])
  }

  ghost predicate Step(keyOf: KeyOf, ttl: real, s: State, s': State) {
    || Tick(s, s') || Reregister(s, s')
    || (exists request :: Begin(s, s', request))
    || (exists i :: PassOver(s, s', i))
    || (exists i, check, prune, stamp :: Check(keyOf, ttl, s, s', i, check, prune, stamp))
  }

  /** A run: any number of steps from an initial state. */
  ghost predicate IsRun(keyOf: KeyOf, ttl: real, run: seq<State>) {
    && run != [] && Initial(run[0])
    && forall k :: 0 <= k < |run| - 1 ==> Step(keyOf, ttl, run[k], run[k + 1])
  }

  // ----- what every step keeps -----

  /** The memory holds times of deliveries, none in the future. */
  ghost predicate MemoryIsTrue(s: State) {
    forall mark :: mark in s.memory ==>
      s.memory[mark] <= s.now && Delivered(s.deliveries, mark, s.memory[mark])
  }

  ghost predicate Delivered(deliveries: seq<Delivery>, mark: Mark, time: real) {
    exists k :: 0 <= k < |deliveries| && deliveries[k].mark == mark && deliveries[k].time == time
  }

  /** A delivery within the time to live is still remembered, by its own time or a later one. */
  ghost predicate MemoryIsComplete(ttl: real, s: State) {
    forall k :: 0 <= k < |s.deliveries| ==>
      var d := s.deliveries[k];
      d.time <= s.now && (d.time >= s.now - ttl ==> d.mark in s.memory && s.memory[d.mark] >= d.time)
  }

  /** Two deliveries with one mark are more than the time to live apart. */
  ghost predicate Spaced(ttl: real, deliveries: seq<Delivery>) {
    forall j, k :: 0 <= j < k < |deliveries| && deliveries[j].mark == deliveries[k].mark ==>
      deliveries[k].time - deliveries[j].time > ttl
  }

  /** Every message held back had a delivery with its mark within the time to live before. */
  ghost predicate SkipsAreJustified(ttl: real, s: State) {
    forall k :: 0 <= k < |s.skips| ==> RecentlyDelivered(ttl, s.deliveries, s.skips[k].mark, s.skips[k].time)
  }

  ghost predicate RecentlyDelivered(ttl: real, deliveries: seq<Delivery>, mark: Mark, time: real) {
    exists j :: 0 <= j < |deliveries| && deliveries[j].mark == mark && time - ttl <= deliveries[j].time <= time
  }

  /** A call visits each name once: what it has delivered to and what it has still to visit differ. */
  ghost predicate CallsVisitOnce(s: State) {
    && DistinctNames(s.registrations)
    && (forall i :: 0 <= i < |s.calls| ==> DistinctNames(s.calls[i].pending))
    && (forall k :: 0 <= k < |s.deliveries| ==>
          && s.deliveries[k].call < |s.calls|
          && !HasName(s.calls[s.deliveries[k].call].pending, s.deliveries[k].mark.0))
    && (forall j, k :: 0 <= j < k < |s.deliveries| && s.deliveries[j].call == s.deliveries[k].call ==>
          s.deliveries[j].mark.0 != s.deliveries[k].mark.0)
  }

  ghost predicate Safe(ttl: real, s: State) {
    && MemoryIsTrue(s) && MemoryIsComplete(ttl, s) && Spaced(ttl, s.deliveries)
    && SkipsAreJustified(ttl, s) && CallsVisitOnce(s)
  }

  // ----- the check, seen from the log -----

  /** The pruned memory decides as the whole log would: a message is held back exactly when one with
      its mark was delivered within the time to live. */
  lemma CheckDecidesByTheLog(ttl: real, s: State, mark: Mark, check: real)
    requires MemoryIsTrue(s) && MemoryIsComplete(ttl, s) && s.now <= check
    ensures mark in Pruned(s.memory, check, ttl) <==> RecentlyDelivered(ttl, s.deliveries, mark, check)
  {
    if mark in Pruned(s.memory, check, ttl) {
      var k :| 0 <= k < |s.deliveries| && s.deliveries[k].mark == mark && s.deliveries[k].time == s.memory[mark];
      assert check - ttl <= s.deliveries[k].time <= check;
    }
  }

  lemma PassingTimeIsSafe(ttl: real, s: State, s': State)
    requires Safe(ttl, s) && Tick(s, s')
    ensures Safe(ttl, s')
  {
  }

  lemma PruningIsSafe(ttl: real, s: State, now: real)
    requires MemoryIsTrue(s) && MemoryIsComplete(ttl, s) && now >= s.now
    ensures var s' := s.(now := now, memory := Pruned(s.memory, now, ttl));
      MemoryIsTrue(s') && MemoryIsComplete(ttl, s')
  {
  }

  lemma DeliveryIsTrue(s: State, s': State, d: Delivery)
    requires MemoryIsTrue(s) && d.time >= s.now
    requires s'.now == d.time && s'.memory == s.memory[d.mark := d.time] && s'.deliveries == s.deliveries + [d]
    ensures MemoryIsTrue(s')
  {
    forall mark | mark in s'.memory ensures Delivered(s'.deliveries, mark, s'.memory[mark]) {
      if mark == d.mark {
        assert s'.deliveries[|s.deliveries|] == d;
      } else {
        var k :| 0 <= k < |s.deliveries| && s.deliveries[k].mark == mark && s.deliveries[k].time == s.memory[mark];
        assert s'.deliveries[k] == s.deliveries[k];
      }
    }
  }

  lemma DeliveryIsComplete(ttl: real, s: State, s': State, d: Delivery)
    requires MemoryIsComplete(ttl, s) && d.time >= s.now && ttl >= 0.0
    requires s'.now == d.time && s'.memory == s.memory[d.mark := d.time] && s'.deliveries == s.deliveries + [d]
    ensures MemoryIsComplete(ttl, s')
  {
  }

  /** A new delivery is far enough from every earlier one with its mark. */
  lemma DeliveryIsSpaced(ttl: real, s: State, d: Delivery, check: real)
    requires MemoryIsTrue(s) && MemoryIsComplete(ttl, s) && Spaced(ttl, s.deliveries)
    requires s.now <= check <= d.time && d.mark !in Pruned(s.memory, check, ttl)
    ensures Spaced(ttl, s.deliveries + [d])
  {
    CheckDecidesByTheLog(ttl, s, d.mark, check);
    forall j | 0 <= j < |s.deliveries| && s.deliveries[j].mark == d.mark ensures d.time - s.deliveries[j].time > ttl {
    }
  }

  lemma SkipsStayJustified(ttl: real, s: State, deliveries: seq<Delivery>)
    requires SkipsAreJustified(ttl, s) && s.deliveries <= deliveries
    ensures forall k :: 0 <= k < |s.skips| ==> RecentlyDelivered(ttl, deliveries, s.skips[k].mark, s.skips[k].time)
  {
    forall k | 0 <= k < |s.skips| ensures RecentlyDelivered(ttl, deliveries, s.skips[k].mark, s.skips[k].time) {
      var j :| 0 <= j < |s.deliveries| && s.deliveries[j].mark == s.skips[k].mark
               && s.skips[k].time - ttl <= s.deliveries[j].time <= s.skips[k].time;
      assert deliveries[j] == s.deliveries[j];
    }
  }

  /** Moving on by one registration takes its name out of what is pending. */
  lemma AdvancingVisitsOnce(s: State, i: nat)
    requires CallsVisitOnce(s) && i < |s.calls| && s.calls[i].pending != []
    ensures CallsVisitOnce(s.(calls := s.calls[i := Advanced(s.calls[i])]))
    ensures !HasName(Advanced(s.calls[i]).pending, s.calls[i].pending[0].name)
  {
    var pending := s.calls[i].pending;
    assert forall k :: 0 <= k < |pending[1..]| ==> pending[1..][k] == pending[k + 1];
    forall name | HasName(pending[1..], name) ensures HasName(pending, name) { NamesOfCons(pending, name); }
  }

  lemma DeliveringVisitsOnce(s: State, i: nat, d: Delivery)
    requires CallsVisitOnce(s) && i < |s.calls| && s.calls[i].pending != []
    requires d.call == i && d.mark.0 == s.calls[i].pending[0].name
    ensures CallsVisitOnce(s.(calls := s.calls[i := Advanced(s.calls[i])], deliveries := s.deliveries + [d]))
  {
    AdvancingVisitsOnce(s, i);
    var pending := s.calls[i].pending;
    forall k | 0 <= k < |s.deliveries| && s.deliveries[k].call == i ensures s.deliveries[k].mark.0 != d.mark.0 {
      assert !HasName(pending, s.deliveries[k].mark.0);
    }
  }

  lemma CheckingIsSafe(keyOf: KeyOf, ttl: real, s: State, s': State, i: nat, check: real, prune: real, stamp: real)
    requires Safe(ttl, s) && ttl >= 0.0 && Check(keyOf, ttl, s, s', i, check, prune, stamp)
    ensures Safe(ttl, s')
  {
    hide Eligible, MemoryIsTrue, MemoryIsComplete, Spaced, CallsVisitOnce, RecentlyDelivered;
    var mark := NextMark(keyOf, s.calls[i]);
    CheckDecidesByTheLog(ttl, s, mark, check);
    PruningIsSafe(ttl, s, check);
    var pruned := s.(now := check, memory := Pruned(s.memory, check, ttl));
    if mark in pruned.memory {
      AdvancingVisitsOnce(s, i);
      MemoryDoesNotSee(ttl, pruned, s');
      VisitsDoNotSee(s.(calls := s'.calls), s');
      forall k | 0 <= k < |s'.skips| ensures RecentlyDelivered(ttl, s'.deliveries, s'.skips[k].mark, s'.skips[k].time) {
        if k < |s.skips| { assert s'.skips[k] == s.skips[k]; }
      }
    } else {
      var d := Delivery(i, mark, stamp);
      PruningIsSafe(ttl, pruned, prune);
      var pruned2 := pruned.(now := prune, memory := Pruned(pruned.memory, prune, ttl));
      DeliveryIsTrue(pruned2, s', d);
      DeliveryIsComplete(ttl, pruned2, s', d);
      DeliveryIsSpaced(ttl, s, d, check);
      SkipsStayJustified(ttl, s, s'.deliveries);
      DeliveringVisitsOnce(s, i, d);
      VisitsDoNotSee(s.(calls := s'.calls, deliveries := s'.deliveries), s');
    }
  }

  lemma MemoryDoesNotSee(ttl: real, s: State, s': State)
    requires MemoryIsTrue(s) && MemoryIsComplete(ttl, s)
    requires s'.now == s.now && s'.memory == s.memory && s'.deliveries == s.deliveries
    ensures MemoryIsTrue(s') && MemoryIsComplete(ttl, s')
  {
  }

  lemma VisitsDoNotSee(s: State, s': State)
    requires CallsVisitOnce(s)
    requires s'.registrations == s.registrations && s'.calls == s.calls && s'.deliveries == s.deliveries
    ensures CallsVisitOnce(s')
  {
  }

  lemma BeginningIsSafe(ttl: real, s: State, s': State, request: Request)
    requires Safe(ttl, s) && Begin(s, s', request)
    ensures Safe(ttl, s')
  {
    hide RecentlyDelivered, Spaced, HasName;
  }

  lemma StepsAreSafe(keyOf: KeyOf, ttl: real, s: State, s': State)
    requires Safe(ttl, s) && ttl >= 0.0 && Step(keyOf, ttl, s, s')
    ensures Safe(ttl, s')
  {
    hide Safe, Tick, Begin, PassOver, Check, Reregister;
    if Tick(s, s') {
      PassingTimeIsSafe(ttl, s, s');
    } else if Reregister(s, s') {
      ReregisteringIsSafe(ttl, s, s');
    } else if request :| Begin(s, s', request) {
      BeginningIsSafe(ttl, s, s', request);
    } else if i :| PassOver(s, s', i) {
      PassingOverIsSafe(ttl, s, s', i);
    } else {
      var i, check, prune, stamp :| Check(keyOf, ttl, s, s', i, check, prune, stamp);
      CheckingIsSafe(keyOf, ttl, s, s', i, check, prune, stamp);
    }
  }

  lemma ReregisteringIsSafe(ttl: real, s: State, s': State)
    requires Safe(ttl, s) && Reregister(s, s')
    ensures Safe(ttl, s')
  {
  }

  lemma PassingOverIsSafe(ttl: real, s: State, s': State, i: nat)
    requires Safe(ttl, s) && PassOver(s, s', i)
    ensures Safe(ttl, s')
  {
    hide Eligible, MemoryIsTrue, MemoryIsComplete, Spaced, CallsVisitOnce, RecentlyDelivered;
    AdvancingVisitsOnce(s, i);
    MemoryDoesNotSee(ttl, s, s');
  }

  /** Every state of every run is safe, whatever the interleaving. */
  lemma {:induction false} RunsAreSafe(keyOf: KeyOf, ttl: real, run: seq<State>, k: nat)
    requires IsRun(keyOf, ttl, run) && ttl >= 0.0 && k < |run|
    ensures Safe(ttl, run[k])
  {
    hide Safe, Step;
    if k == 0 {
      StartsSafe(ttl, run[0]);
    } else {
      RunsAreSafe(keyOf, ttl, run, k - 1);
      StepsAreSafe(keyOf, ttl, run[k - 1], run[k]);
    }
  }

  lemma StartsSafe(ttl: real, s: State)
    requires Initial(s)
    ensures Safe(ttl, s)
  {
  }

  // ----- what a reader wants to know -----

  /** In every run: deliveries of one key to one channel are more than the time to live apart, a
      message held back had such a delivery within it, and one call delivers at most once per name. */
  lemma DedupeIsSafe(keyOf: KeyOf, ttl: real, run: seq<State>)
    requires IsRun(keyOf, ttl, run) && ttl >= 0.0
    ensures var s := run[|run| - 1];
      && (forall j, k :: 0 <= j < k < |s.deliveries| && s.deliveries[j].mark == s.deliveries[k].mark ==>
            s.deliveries[k].time - s.deliveries[j].time > ttl)
      && (forall k :: 0 <= k < |s.skips| ==> RecentlyDelivered(ttl, s.deliveries, s.skips[k].mark, s.skips[k].time))
      && (forall j, k :: 0 <= j < k < |s.deliveries| && s.deliveries[j].call == s.deliveries[k].call ==>
            s.deliveries[j].mark.0 != s.deliveries[k].mark.0)
  {
    RunsAreSafe(keyOf, ttl, run, |run| - 1);
  }
}
