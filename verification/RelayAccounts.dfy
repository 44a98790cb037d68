/** Relay calls leave nobody out: over every interleaving, a call that is through has one record for
    each eligible registration of its snapshot and none for the others. */
module RelayAccounts {
  import opened Relay
  import opened RelayRuns

  /** How often call i delivered to the channel. */
  function DeliveriesTo(deliveries: seq<Delivery>, i: nat, name: string): nat {
    if deliveries == [] then 0
    else
      var last := deliveries[|deliveries| - 1];
      var before := DeliveriesTo(deliveries[..|deliveries| - 1], i, name);
      if last.call == i && last.mark.0 == name then before + 1 else before
  }

  /** How often call i held its message back from the channel. */
  function SkipsOf(skips: seq<Skip>, i: nat, name: string): nat {
    if skips == [] then 0
    else
      var last := skips[|skips| - 1];
      var before := SkipsOf(skips[..|skips| - 1], i, name);
      if last.call == i && last.mark.0 == name then before + 1 else before
  }

  function Tally(s: State, i: nat, name: string): nat {
    DeliveriesTo(s.deliveries, i, name) + SkipsOf(s.skips, i, name)
  }

  /** The registrations of the snapshot are reached in order, and those reached have one record if
      they are eligible; all others have none. */
  ghost predicate CallAccounted(s: State, i: nat)
    requires i < |s.calls|
  {
    var call := s.calls[i];
    var reached := |call.snapshot| - |call.pending|;
    && DistinctNames(call.snapshot)
    && 0 <= reached && call.pending == call.snapshot[reached..]
    && forall j :: 0 <= j < |call.snapshot| ==>
         var r := call.snapshot[j];
         Tally(s, i, r.name) == if j < reached && Eligible(call.request, r) then 1 else 0
  }

  /** A record carries the mark of an eligible registration of its call's snapshot. */
  ghost predicate IsOurs(keyOf: KeyOf, calls: seq<Call>, i: nat, mark: Mark) {
    && i < |calls|
    && exists r :: r in calls[i].snapshot && Eligible(calls[i].request, r)
                   && mark == MarkFor(keyOf, calls[i].request, r)
  }

  ghost predicate RecordsAreOurs(keyOf: KeyOf, s: State) {
    && (forall k :: 0 <= k < |s.deliveries| ==> IsOurs(keyOf, s.calls, s.deliveries[k].call, s.deliveries[k].mark))
    && (forall k :: 0 <= k < |s.skips| ==> IsOurs(keyOf, s.calls, s.skips[k].call, s.skips[k].mark))
  }

  ghost predicate Accounts(keyOf: KeyOf, s: State) {
    && DistinctNames(s.registrations) && RecordsAreOurs(keyOf, s)
    && forall i :: 0 <= i < |s.calls| ==> CallAccounted(s, i)
  }

  // ----- every step keeps the accounts -----

  /** The account of a call depends on the call and the records alone. */
  lemma SameAccount(s: State, s': State, i: nat)
    requires i < |s.calls| && i < |s'.calls| && s'.calls[i] == s.calls[i] && CallAccounted(s, i)
    requires forall j :: 0 <= j < |s.calls[i].snapshot| ==>
      Tally(s', i, s.calls[i].snapshot[j].name) == Tally(s, i, s.calls[i].snapshot[j].name)
    ensures CallAccounted(s', i)
  {
    hide Tally, Eligible;
  }

  /** Calls keep what the records of a call refer to. */
  ghost predicate CallsKept(calls: seq<Call>, calls': seq<Call>) {
    && |calls| <= |calls'|
    && forall i :: 0 <= i < |calls| ==>
         calls'[i].snapshot == calls[i].snapshot && calls'[i].request == calls[i].request
  }

  lemma StillOurs(keyOf: KeyOf, s: State, s': State)
    requires RecordsAreOurs(keyOf, s) && CallsKept(s.calls, s'.calls)
    ensures forall k :: 0 <= k < |s.deliveries| ==> IsOurs(keyOf, s'.calls, s.deliveries[k].call, s.deliveries[k].mark)
    ensures forall k :: 0 <= k < |s.skips| ==> IsOurs(keyOf, s'.calls, s.skips[k].call, s.skips[k].mark)
  {
    forall i, mark | IsOurs(keyOf, s.calls, i, mark) ensures IsOurs(keyOf, s'.calls, i, mark) {
      OursIsKept(keyOf, s.calls, s'.calls, i, mark);
    }
  }

  lemma OursIsKept(keyOf: KeyOf, calls: seq<Call>, calls': seq<Call>, i: nat, mark: Mark)
    requires IsOurs(keyOf, calls, i, mark) && CallsKept(calls, calls')
    ensures IsOurs(keyOf, calls', i, mark)
  {
    hide Eligible;
  }

  /** A call that has just begun has no records. */
  lemma {:induction false} NoDeliveries(deliveries: seq<Delivery>, i: nat, name: string)
    requires forall k :: 0 <= k < |deliveries| ==> deliveries[k].call < i
    ensures DeliveriesTo(deliveries, i, name) == 0
  {
    if deliveries != [] { NoDeliveries(deliveries[..|deliveries| - 1], i, name); }
  }

  lemma {:induction false} NoSkips(skips: seq<Skip>, i: nat, name: string)
    requires forall k :: 0 <= k < |skips| ==> skips[k].call < i
    ensures SkipsOf(skips, i, name) == 0
  {
    if skips != [] { NoSkips(skips[..|skips| - 1], i, name); }
  }

  lemma BeginningKeepsAccounts(keyOf: KeyOf, s: State, s': State, request: Request)
    requires Accounts(keyOf, s) && Begin(s, s', request)
    ensures Accounts(keyOf, s')
  {
    hide CallAccounted, IsOurs, DeliveriesTo, SkipsOf, Eligible, DistinctNames;
    var n := |s.calls|;
    StillOurs(keyOf, s, s');
    RecordsComeFromCalls(keyOf, s);
    forall i | 0 <= i < n ensures CallAccounted(s', i) { SameCalls(s, s', i); }
    forall name ensures Tally(s', n, name) == 0 {
      NoDeliveries(s.deliveries, n, name);
      NoSkips(s.skips, n, name);
    }
    NewAccount(s', n);
  }

  lemma RecordsComeFromCalls(keyOf: KeyOf, s: State)
    requires RecordsAreOurs(keyOf, s)
    ensures forall k :: 0 <= k < |s.deliveries| ==> s.deliveries[k].call < |s.calls|
    ensures forall k :: 0 <= k < |s.skips| ==> s.skips[k].call < |s.calls|
  {
  }

  lemma SameCalls(s: State, s': State, i: nat)
    requires i < |s.calls| && CallAccounted(s, i)
    requires i < |s'.calls| && s'.calls[i] == s.calls[i] && s'.deliveries == s.deliveries && s'.skips == s.skips
    ensures CallAccounted(s', i)
  {
    hide DeliveriesTo, SkipsOf, Eligible;
  }

  lemma NewAccount(s: State, i: nat)
    requires i < |s.calls| && s.calls[i].pending == s.calls[i].snapshot && DistinctNames(s.calls[i].snapshot)
    requires forall name :: Tally(s, i, name) == 0
    ensures CallAccounted(s, i)
  {
    hide Tally, Eligible;
    assert s.calls[i].snapshot[0..] == s.calls[i].snapshot;
  }

  /** Call i moves on; `records` more records were written for the registration it leaves. */
  lemma AdvancedAccount(s: State, s': State, i: nat, records: nat)
    requires i < |s.calls| && s.calls[i].pending != [] && CallAccounted(s, i)
    requires s'.calls == s.calls[i := Advanced(s.calls[i])]
    requires records == if Eligible(s.calls[i].request, s.calls[i].pending[0]) then 1 else 0
    requires forall name ::
      Tally(s', i, name) == Tally(s, i, name) + if name == s.calls[i].pending[0].name then records else 0
    ensures CallAccounted(s', i)
  {
    hide Tally, Eligible;
    var call := s.calls[i];
    var reached := |call.snapshot| - |call.pending|;
    assert call.pending[0] == call.snapshot[reached];
    assert call.snapshot[reached..][1..] == call.snapshot[reached + 1..];
    forall j | 0 <= j < |call.snapshot| && j != reached ensures call.snapshot[j].name != call.snapshot[reached].name {
      assert DistinctNames(call.snapshot);
    }
  }

  lemma PassingOverKeepsAccounts(keyOf: KeyOf, s: State, s': State, i: nat)
    requires Accounts(keyOf, s) && PassOver(s, s', i)
    ensures Accounts(keyOf, s')
  {
    hide CallAccounted, IsOurs, DeliveriesTo, SkipsOf, Eligible, DistinctNames;
    StillOurs(keyOf, s, s');
    AdvancedAccount(s, s', i, 0);
    forall j | 0 <= j < |s.calls| && j != i ensures CallAccounted(s', j) { SameCalls(s, s', j); }
  }

  lemma TallyAfterDelivery(s: State, s': State, d: Delivery, i: nat, name: string)
    requires s'.deliveries == s.deliveries + [d] && s'.skips == s.skips
    ensures Tally(s', i, name) == Tally(s, i, name) + if d.call == i && d.mark.0 == name then 1 else 0
  {
    assert s'.deliveries[..|s.deliveries|] == s.deliveries;
  }

  lemma TallyAfterSkip(s: State, s': State, k: Skip, i: nat, name: string)
    requires s'.skips == s.skips + [k] && s'.deliveries == s.deliveries
    ensures Tally(s', i, name) == Tally(s, i, name) + if k.call == i && k.mark.0 == name then 1 else 0
  {
    assert s'.skips[..|s.skips|] == s.skips;
  }

  /** One record of call i for its next registration, and nothing else. */
  lemma RecordingKeepsAccounts(keyOf: KeyOf, s: State, s': State, i: nat)
    requires Accounts(keyOf, s) && i < |s.calls| && s.calls[i].pending != []
    requires Eligible(s.calls[i].request, s.calls[i].pending[0])
    requires s'.calls == s.calls[i := Advanced(s.calls[i])] && s'.registrations == s.registrations
    requires RecordsAreOurs(keyOf, s')
    requires forall j: nat, name ::
      Tally(s', j, name) == Tally(s, j, name) + if j == i && name == s.calls[i].pending[0].name then 1 else 0
    ensures Accounts(keyOf, s')
  {
    hide Tally, Eligible, IsOurs, RecordsAreOurs, DistinctNames;
    AdvancedAccount(s, s', i, 1);
    hide CallAccounted;
    forall j | 0 <= j < |s.calls| && j != i ensures CallAccounted(s', j) { SameAccount(s, s', j); }
  }

  lemma NextIsOurs(keyOf: KeyOf, s: State, calls': seq<Call>, i: nat)
    requires i < |s.calls| && s.calls[i].pending != [] && CallAccounted(s, i)
    requires Eligible(s.calls[i].request, s.calls[i].pending[0]) && CallsKept(s.calls, calls')
    ensures IsOurs(keyOf, calls', i, NextMark(keyOf, s.calls[i]))
  {
    hide Eligible, Tally;
    var call := s.calls[i];
    assert call.pending[0] == call.snapshot[|call.snapshot| - |call.pending|];
    assert call.pending[0] in call.snapshot;
  }

  lemma CheckingKeepsAccounts(
    keyOf: KeyOf, ttl: real, s: State, s': State, i: nat, check: real, prune: real, stamp: real)
    requires Accounts(keyOf, s) && Check(keyOf, ttl, s, s', i, check, prune, stamp)
    ensures Accounts(keyOf, s')
  {
    hide Eligible, CallAccounted, IsOurs, Tally, Pruned;
    var mark := NextMark(keyOf, s.calls[i]);
    StillOurs(keyOf, s, s');
    NextIsOurs(keyOf, s, s'.calls, i);
    if Checked(s.memory, mark, check, prune, stamp, ttl).0 {
      forall j: nat, name { TallyAfterSkip(s, s', Skip(i, mark, check), j, name); }
    } else {
      forall j: nat, name { TallyAfterDelivery(s, s', Delivery(i, mark, stamp), j, name); }
    }
    RecordingKeepsAccounts(keyOf, s, s', i);
  }

  lemma StepsKeepAccounts(keyOf: KeyOf, ttl: real, s: State, s': State)
    requires Accounts(keyOf, s) && Step(keyOf, ttl, s, s')
    ensures Accounts(keyOf, s')
  {
    hide Accounts, Begin, PassOver, Check, Tick, Reregister;
    if request :| Begin(s, s', request) {
      BeginningKeepsAccounts(keyOf, s, s', request);
    } else if i :| PassOver(s, s', i) {
      PassingOverKeepsAccounts(keyOf, s, s', i);
    } else if i, check, prune, stamp :| Check(keyOf, ttl, s, s', i, check, prune, stamp) {
      CheckingKeepsAccounts(keyOf, ttl, s, s', i, check, prune, stamp);
    } else {
      WaitingKeepsAccounts(keyOf, s, s');
    }
  }

  lemma WaitingKeepsAccounts(keyOf: KeyOf, s: State, s': State)
    requires Accounts(keyOf, s) && (Tick(s, s') || Reregister(s, s'))
    ensures Accounts(keyOf, s')
  {
    hide CallAccounted, IsOurs, DistinctNames;
    StillOurs(keyOf, s, s');
    forall i | 0 <= i < |s.calls| ensures CallAccounted(s', i) { SameCalls(s, s', i); }
  }

  lemma {:induction false} RunsKeepAccounts(keyOf: KeyOf, ttl: real, run: seq<State>, k: nat)
    requires IsRun(keyOf, ttl, run) && k < |run|
    ensures Accounts(keyOf, run[k])
  {
    hide Step, CallAccounted, IsOurs;
    if k > 0 {
      RunsKeepAccounts(keyOf, ttl, run, k - 1);
      StepsKeepAccounts(keyOf, ttl, run[k - 1], run[k]);
    }
  }

  // ----- what a reader wants to know -----

  /** In every run, a call with nothing pending has for each registration of its snapshot exactly one
      of: it was passed over, the message was held back as a duplicate once, it was delivered once. */
  lemma NobodyIsLeftOut(keyOf: KeyOf, ttl: real, run: seq<State>, i: nat, r: Registration)
    requires IsRun(keyOf, ttl, run)
    requires var s := run[|run| - 1];
      i < |s.calls| && s.calls[i].pending == [] && r in s.calls[i].snapshot
    ensures var s := run[|run| - 1];
      DeliveriesTo(s.deliveries, i, r.name) + SkipsOf(s.skips, i, r.name) ==
        if Eligible(s.calls[i].request, r) then 1 else 0
  {
    hide DeliveriesTo, SkipsOf, Eligible, RecordsAreOurs;
    RunsKeepAccounts(keyOf, ttl, run, |run| - 1);
    var s := run[|run| - 1];
    assert CallAccounted(s, i);
    var j :| 0 <= j < |s.calls[i].snapshot| && s.calls[i].snapshot[j] == r;
    assert Tally(s, i, s.calls[i].snapshot[j].name) == if Eligible(s.calls[i].request, r) then 1 else 0;
  }

  /** Records are true: each carries the name and the key of an eligible registration of its call. */
  lemma NobodyElseIsReached(keyOf: KeyOf, ttl: real, run: seq<State>, k: nat)
    requires IsRun(keyOf, ttl, run) && k < |run[|run| - 1].deliveries|
    ensures var s := run[|run| - 1];
      IsOurs(keyOf, s.calls, s.deliveries[k].call, s.deliveries[k].mark)
  {
    hide Step, CallAccounted, IsOurs;
    RunsKeepAccounts(keyOf, ttl, run, |run| - 1);
  }

  /** What the caller of a relay wished, in the fields of the registration reached: not excluded by name
      or platform, among the targets if there are any, no external channel for a message of another
      session, and no user message back to where it came from. */
  predicate RespectsWishes(request: Request, name: string, platform: string, isExternal: bool) {
    && name !in request.excluded && platform !in request.excluded
    && (match request.targets case Some(targets) => name in targets || platform in targets case None => true)
    && (isExternal ==> request.mainSession)
    && (request.userMessage && platform == request.sourcePlatform ==> platform == "webui" && request.hasClient)
  }

  lemma EligibleIff(request: Request, r: Registration)
    ensures Eligible(request, r) <==> RespectsWishes(request, r.name, r.platform, r.isExternal)
  {
  }

  /** Every delivery of every run respects the wishes of its call, and a finished call has reached every
      registration that the wishes admit, by a delivery or as a duplicate held back, and no other. */
  lemma WishesDecide(keyOf: KeyOf, ttl: real, run: seq<State>)
    requires IsRun(keyOf, ttl, run)
    ensures var s := run[|run| - 1];
      forall k :: 0 <= k < |s.deliveries| ==>
        s.deliveries[k].call < |s.calls| && var call := s.calls[s.deliveries[k].call];
        exists r :: r in call.snapshot && r.name == s.deliveries[k].mark.0
                    && RespectsWishes(call.request, r.name, r.platform, r.isExternal)
    ensures var s := run[|run| - 1];
      forall i, r :: 0 <= i < |s.calls| && s.calls[i].pending == [] && r in s.calls[i].snapshot ==>
        DeliveriesTo(s.deliveries, i, r.name) + SkipsOf(s.skips, i, r.name) ==
          if RespectsWishes(s.calls[i].request, r.name, r.platform, r.isExternal) then 1 else 0
  {
    hide Eligible, RespectsWishes, DeliveriesTo, SkipsOf;
    var s := run[|run| - 1];
    forall k | 0 <= k < |s.deliveries|
      ensures s.deliveries[k].call < |s.calls| && var call := s.calls[s.deliveries[k].call];
        exists r :: r in call.snapshot && r.name == s.deliveries[k].mark.0
                    && RespectsWishes(call.request, r.name, r.platform, r.isExternal)
    {
      NobodyElseIsReached(keyOf, ttl, run, k);
      var call, mark := s.calls[s.deliveries[k].call], s.deliveries[k].mark;
      var r :| r in call.snapshot && Eligible(call.request, r) && mark == MarkFor(keyOf, call.request, r);
      EligibleIff(call.request, r);
    }
    forall i, r | 0 <= i < |s.calls| && s.calls[i].pending == [] && r in s.calls[i].snapshot
      ensures DeliveriesTo(s.deliveries, i, r.name) + SkipsOf(s.skips, i, r.name) ==
        if RespectsWishes(s.calls[i].request, r.name, r.platform, r.isExternal) then 1 else 0
    {
      NobodyIsLeftOut(keyOf, ttl, run, i, r);
      EligibleIff(s.calls[i].request, r);
    }
  }
}
