/** The dispatcher's registrations and the duplicate memory of the relay policy
    (`channel_dispatcher.py`), as objects updated in place. */
module Relay {
  import opened Strings

  datatype Registration = Registration(name: string, platform: string, isExternal: bool)

  ghost predicate DistinctNames(registrations: seq<Registration>) {
    forall i, j :: 0 <= i < j < |registrations| ==> registrations[i].name != registrations[j].name
  }

  /** `dict[name] = registration`: a known name keeps its place. */
  function Put(registrations: seq<Registration>, r: Registration): seq<Registration> {
    if registrations == [] then [r]
    else if registrations[0].name == r.name then [r] + registrations[1..]
    else [registrations[0]] + Put(registrations[1..], r)
  }

  function Drop(registrations: seq<Registration>, name: string): seq<Registration> {
    if registrations == [] then []
    else if registrations[0].name == name then registrations[1..]
    else [registrations[0]] + Drop(registrations[1..], name)
  }

  ghost predicate HasName(registrations: seq<Registration>, name: string) {
    exists i :: 0 <= i < |registrations| && registrations[i].name == name
  }

  lemma {:induction false} PutNames(registrations: seq<Registration>, r: Registration)
    requires DistinctNames(registrations)
    ensures DistinctNames(Put(registrations, r))
    ensures forall name :: HasName(Put(registrations, r), name) <==> HasName(registrations, name) || name == r.name
    ensures r in Put(registrations, r)
    ensures forall other: Registration :: other.name != r.name ==>
      (other in Put(registrations, r) <==> other in registrations)
  {
    if registrations != [] && registrations[0].name != r.name {
      var rest := registrations[1..];
      PutNames(rest, r);
      var put := Put(registrations, r);
      assert put[1..] == Put(rest, r);
      assert forall i :: 0 <= i < |rest| ==> rest[i] == registrations[i + 1];
      assert !HasName(rest, registrations[0].name);
      forall i, j | 0 <= i < j < |put| ensures put[i].name != put[j].name {
        assert put[j] == Put(rest, r)[j - 1];
        if i > 0 { assert put[i] == Put(rest, r)[i - 1]; } else { assert HasName(Put(rest, r), put[j].name); }
      }
      forall name ensures HasName(put, name) <==> HasName(registrations, name) || name == r.name {
        NamesOfCons(put, name);
        NamesOfCons(registrations, name);
      }
    } else {
      var put := Put(registrations, r);
      forall name ensures HasName(put, name) <==> HasName(registrations, name) || name == r.name {
        NamesOfCons(put, name);
        if registrations != [] { NamesOfCons(registrations, name); assert put[1..] == registrations[1..]; }
      }
    }
  }

  /** A known name keeps its place, a new one goes to the end, and nothing else moves. */
  lemma {:induction false} PutKeepsPlaces(registrations: seq<Registration>, r: Registration)
    requires DistinctNames(registrations)
    ensures var after := Put(registrations, r);
      if HasName(registrations, r.name) then
        |after| == |registrations| && forall i :: 0 <= i < |after| ==>
          after[i] == if registrations[i].name == r.name then r else registrations[i]
      else after == registrations + [r]
  {
    if registrations != [] {
      NamesOfCons(registrations, r.name);
      var rest := registrations[1..];
      assert forall i :: 0 <= i < |rest| ==> rest[i] == registrations[i + 1];
      if registrations[0].name == r.name {
        assert forall i :: 0 < i < |registrations| ==> registrations[i].name != r.name;
      } else {
        PutKeepsPlaces(rest, r);
      }
    }
  }

  /** Only the registration of the name goes. */
  lemma {:induction false} DropKeepsPlaces(registrations: seq<Registration>, name: string) returns (i: nat)
    requires HasName(registrations, name)
    ensures i < |registrations| && registrations[i].name == name
    ensures Drop(registrations, name) == registrations[..i] + registrations[i + 1..]
  {
    i := 0;
    if registrations[0].name != name {
      var rest := registrations[1..];
      NamesOfCons(registrations, name);
      var j := DropKeepsPlaces(rest, name);
      i := j + 1;
      assert registrations[..i] == [registrations[0]] + rest[..j] && registrations[i + 1..] == rest[j + 1..];
    }
  }

  lemma {:induction false} DropAbsent(registrations: seq<Registration>, name: string)
    requires !HasName(registrations, name)
    ensures Drop(registrations, name) == registrations
  {
    hide HasName;
    if registrations != [] {
      NamesOfCons(registrations, name);
      DropAbsent(registrations[1..], name);
    }
  }

  /** The platform: the given one or, without one, the name, trimmed and in lower case; the name as it is
      when nothing is left of that. */
  lemma PlatformNameIs(platform: Option<string>, name: string)
    ensures platform.None? || platform == Some("") ==>
      PlatformName(platform, name) == if Strip(name) == "" then name else Lower(Strip(name))
    ensures platform.Some? && Strip(platform.value) != "" ==>
      PlatformName(platform, name) == Lower(Strip(platform.value))
    ensures platform.Some? && platform.value != "" && Strip(platform.value) == "" ==>
      PlatformName(platform, name) == name
  {
    hide TrimLeft, TrimRight;
    assert Strip("") == "" by { StripTrimmed(""); }
  }

  lemma NamesOfCons(registrations: seq<Registration>, name: string)
    requires registrations != []
    ensures HasName(registrations, name) <==> registrations[0].name == name || HasName(registrations[1..], name)
  {
    if HasName(registrations, name) && registrations[0].name != name {
      var i :| 0 <= i < |registrations| && registrations[i].name == name;
      assert registrations[1..][i - 1].name == name;
    }
    if HasName(registrations[1..], name) {
      var i :| 0 <= i < |registrations[1..]| && registrations[1..][i].name == name;
      assert registrations[i + 1].name == name;
    }
  }

  /** `str(platform or name).strip().lower() or name`. */
  function PlatformName(platform: Option<string>, name: string): string {
    var given := if platform.Some? && platform.value != "" then platform.value else name;
    var lowered := Lower(Strip(given));
    if lowered != "" then lowered else name
  }

  class ChannelDispatcher {
    var sinks: seq<Registration>

    ghost predicate Valid()
      reads this
    {
      DistinctNames(sinks)
    }

    constructor ()
      ensures Valid() && sinks == []
    {
      sinks := [];
    }

    /** `register`; the error is a blank channel name. */
    method Register(channel: string, platform: Option<string>, isExternal: Option<bool>) returns (ok: bool)
      requires Valid()
      modifies this
      ensures Valid()
      ensures ok <==> Strip(channel) != ""
      ensures !ok ==> sinks == old(sinks)
      ensures ok ==>
        var name := Strip(channel);
        var external := if isExternal.Some? then isExternal.value else name != "webui";
        sinks == Put(old(sinks), Registration(name, PlatformName(platform, name), external))
    {
      var name := Strip(channel);
      if name == "" {
        return false;
      }
      var normalizedPlatform := PlatformName(platform, name);
      var external := if isExternal.None? then name != "webui" else isExternal.value;
      PutNames(sinks, Registration(name, normalizedPlatform, external));
      sinks := Put(sinks, Registration(name, normalizedPlatform, external));
      return true;
    }

    method Unregister(channel: string)
      requires Valid()
      modifies this
      ensures Valid() && sinks == Drop(old(sinks), Strip(channel))
      ensures !HasName(sinks, Strip(channel))
    {
      DropNames(sinks, Strip(channel));
      sinks := Drop(sinks, Strip(channel));
    }
  }

  lemma {:induction false} DropNames(registrations: seq<Registration>, name: string)
    requires DistinctNames(registrations)
    ensures DistinctNames(Drop(registrations, name)) && !HasName(Drop(registrations, name), name)
    ensures forall r :: r in Drop(registrations, name) ==> r in registrations
    ensures forall r :: r in registrations && r.name != name ==> r in Drop(registrations, name)
  {
    if registrations != [] {
      var rest := registrations[1..];
      assert forall i :: 0 <= i < |rest| ==> rest[i] == registrations[i + 1];
      if registrations[0].name != name {
        DropNames(rest, name);
        var dropped := Drop(registrations, name);
        assert dropped[1..] == Drop(rest, name);
        forall i, j | 0 <= i < j < |dropped| ensures dropped[i].name != dropped[j].name {
          assert dropped[j] in Drop(rest, name);
          if i > 0 { assert dropped[i] == Drop(rest, name)[i - 1] && dropped[j] == Drop(rest, name)[j - 1]; }
        }
        NamesOfCons(dropped, name);
      }
    }
  }

  // ----- the duplicate memory -----

  /** A channel name and a delivery key. */
  type Mark = (string, string)

  type Memory = map<Mark, real>

  /** What `_prune_recent_keys` leaves at time `now`. */
  function Pruned(memory: Memory, now: real, ttl: real): Memory {
    map mark | mark in memory && memory[mark] >= now - ttl :: memory[mark]
  }

  /** What one check of a mark decides, and the memory it leaves: skip and prune, or prune twice and
      remember. */
  function Checked(memory: Memory, mark: Mark, check: real, prune: real, stamp: real, ttl: real): (r: (bool, Memory)) {
    var pruned := Pruned(memory, check, ttl);
    if mark in pruned then (true, pruned) else (false, Pruned(pruned, prune, ttl)[mark := stamp])
  }

  class ChannelRelayPolicy {
    const ttl: real
    var recent: Memory

    constructor (dedupeTtlSeconds: real)
      ensures ttl == if dedupeTtlSeconds > 1.0 then dedupeTtlSeconds else 1.0
      ensures recent == map[]
    {
      ttl := if dedupeTtlSeconds > 1.0 then dedupeTtlSeconds else 1.0;
      recent := map[];
    }

    /** `_prune_recent_keys` with the clock at `now`. */
    method PruneRecentKeys(now: real)
      modifies this
      ensures recent == Pruned(old(recent), now, ttl)
    {
      var cutoff := now - ttl;
      var stale := set mark | mark in recent && recent[mark] < cutoff;
      recent := recent - stale;
    }

    /** `_should_skip_duplicate`. */
    method ShouldSkipDuplicate(mark: Mark, now: real) returns (skip: bool)
      modifies this
      ensures recent == Pruned(old(recent), now, ttl)
      ensures skip <==> mark in old(recent) && old(recent)[mark] >= now - ttl
    {
      PruneRecentKeys(now);
      skip := mark in recent;
    }

    /** `_remember_delivery`; the clock is read once for pruning and once for the stamp. */
    method RememberDelivery(mark: Mark, now: real, stamp: real)
      modifies this
      ensures recent == Pruned(old(recent), now, ttl)[mark := stamp]
    {
      PruneRecentKeys(now);
      recent := recent[mark := stamp];
    }

    /** What `relay_unified_message` does for one registration between two awaits. */
    method CheckAndRemember(mark: Mark, check: real, prune: real, stamp: real) returns (skip: bool)
      modifies this
      ensures (skip, recent) == Checked(old(recent), mark, check, prune, stamp, ttl)
    {
      skip := ShouldSkipDuplicate(mark, check);
      if !skip {
        RememberDelivery(mark, prune, stamp);
      }
    }
  }
}
