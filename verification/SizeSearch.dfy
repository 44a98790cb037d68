/** The two binary searches for a payload size in `probe_antigravity_tools.py`. */
module SizeSearch {

  function Distance(size: int, target: int): (d: nat)
    ensures d == 0 <==> size == target
  {
    if size < target then target - size else size - target
  }

  /** The byte size of a payload with n fillers: the JSON around them and the same number of bytes
      for each. A filler may be empty. */
  function Size(base: nat, unit: nat, n: nat): nat { base + n * unit }

  lemma SizeGrows(base: nat, unit: nat, m: nat, n: nat)
    requires m <= n
    ensures Size(base, unit, m) <= Size(base, unit, n)
    ensures unit > 0 ==> Size(base, unit, n) >= n
  {
    assert n * unit == m * unit + (n - m) * unit;
    if unit > 0 { assert n * unit == n + n * (unit - 1); }
  }

  /** A payload is the fillers it carries, or the one the second search starts from. */
  datatype Payload = Fillers(count: nat) | Starting

  function PayloadSize(base: nat, unit: nat, starting: nat, p: Payload): nat {
    match p
    case Fillers(count) => Size(base, unit, count)
    case Starting => starting
  }

  /** No number of fillers comes closer to the target than distance d. */
  ghost predicate NoneCloser(base: nat, unit: nat, target: int, d: nat) {
    forall n: nat :: Distance(Size(base, unit, n), target) >= d
  }

  /** Counts beyond the first upper bound come no closer than the bound itself, or than no filler. */
  lemma BeyondTheBound(base: nat, unit: nat, target: int, high: nat, n: nat)
    requires high >= 8 && high >= target * 2 && n > high
    ensures Distance(Size(base, unit, n), target) >= Distance(Size(base, unit, high), target)
  {
    SizeGrows(base, unit, high, n);
    if unit == 0 { assert n * unit == high * unit; }
  }

  /** The loop of both searches, from a payload found before. */
  method Search(base: nat, unit: nat, target: int, starting: nat, start: Payload) returns (best: Payload)
    ensures NoneCloser(base, unit, target, Distance(PayloadSize(base, unit, starting, best), target))
    ensures Distance(PayloadSize(base, unit, starting, best), target)
            <= Distance(PayloadSize(base, unit, starting, start), target)
    ensures best == start || best.Fillers?
  {
    var low, high := 0, if target * 2 > 8 then target * 2 else 8;
    ghost var bound := high;
    best := start;
    var bestDistance := Distance(PayloadSize(base, unit, starting, best), target);
    ghost var startDistance := bestDistance;
    while low <= high
      invariant 0 <= low <= high + 1 <= bound + 1
      invariant bestDistance == Distance(PayloadSize(base, unit, starting, best), target) <= startDistance
      invariant best == start || best.Fillers?
      invariant forall n: nat :: n < low ==> Distance(Size(base, unit, n), target) >= bestDistance
      invariant forall n: nat :: high < n <= bound ==> Distance(Size(base, unit, n), target) >= bestDistance
      decreases high - low
    {
      var mid := (low + high) / 2;
      var size := Size(base, unit, mid);
      var distance := Distance(size, target);
      if distance < bestDistance {
        best, bestDistance := Fillers(mid), distance;
      }
      forall n: nat
        ensures n <= mid ==> Size(base, unit, n) <= size
        ensures n >= mid ==> Size(base, unit, n) >= size
      {
        if n <= mid { SizeGrows(base, unit, n, mid); } else { SizeGrows(base, unit, mid, n); }
      }
      if size < target {
        low := mid + 1;
      } else if size > target {
        high := mid - 1;
      } else {
        return Fillers(mid);
      }
    }
    forall n: nat ensures Distance(Size(base, unit, n), target) >= bestDistance {
      if n > bound { BeyondTheBound(base, unit, target, bound, n); }
    }
  }

  /** `_build_dummy_tool_for_target_tool_bytes`: the number of fillers whose tool is nearest to the
      target, among all numbers of fillers. */
  method BuildDummyToolForTarget(base: nat, unit: nat, target: int) returns (count: nat)
    ensures forall n: nat :: Distance(Size(base, unit, count), target) <= Distance(Size(base, unit, n), target)
  {
    var best := Search(base, unit, target, 0, Fillers(0));
    count := best.count;
  }

  /** `_build_single_tool_request_for_target_body_bytes`: it starts from a tool with the standard
      description, and keeps it when no number of fillers is nearer. */
  method BuildRequestForTarget(base: nat, unit: nat, target: int, starting: nat) returns (best: Payload)
    ensures var d := Distance(PayloadSize(base, unit, starting, best), target);
      && d <= Distance(starting, target)
      && forall n: nat :: d <= Distance(Size(base, unit, n), target)
  {
    best := Search(base, unit, target, starting, Starting);
  }
}
