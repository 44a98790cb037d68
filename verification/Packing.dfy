/** Greedy packing of a sequence into consecutive groups, and why it needs the fewest groups. */
module Packing {
  import opened Strings

  function Total<T>(cost: T -> nat, items: seq<T>): nat {
    if items == [] then 0 else Total(cost, items[..|items| - 1]) + cost(items[|items| - 1])
  }

  lemma TotalSnoc<T>(cost: T -> nat, items: seq<T>, x: T)
    ensures Total(cost, items + [x]) == Total(cost, items) + cost(x)
  {
    assert (items + [x])[..|items|] == items;
  }

  lemma {:induction false} TotalAppend<T>(cost: T -> nat, a: seq<T>, b: seq<T>)
    ensures Total(cost, a + b) == Total(cost, a) + Total(cost, b)
  {
    if b == [] {
      assert a + b == a;
    } else {
      var init, last := b[..|b| - 1], b[|b| - 1];
      assert a + b == (a + init) + [last];
      TotalAppend(cost, a, init);
      TotalSnoc(cost, a + init, last);
    }
  }

  /** What may stand in one group may also stand there without its beginning or its end. */
  ghost predicate Hereditary<T(!new)>(fits: seq<T> -> bool) {
    forall a: seq<T>, b: seq<T> :: fits(a + b) ==> fits(a) && fits(b)
  }

  /** The items, in order, cut into groups that fit. */
  ghost predicate IsGrouping<T>(fits: seq<T> -> bool, items: seq<T>, groups: seq<seq<T>>) {
    Join(groups) == items && forall i :: 0 <= i < |groups| ==> fits(groups[i])
  }

  /** No grouping of the items needs fewer than closed + 1 groups, and one that needs no more has a
      last group of at least n items. */
  ghost predicate Unbeaten<T(!new)>(fits: seq<T> -> bool, items: seq<T>, closed: nat, n: nat) {
    forall groups :: IsGrouping(fits, items, groups) ==> NotAhead(groups, closed, n)
  }

  ghost predicate NotAhead<T>(groups: seq<seq<T>>, closed: nat, n: nat) {
    |groups| > closed && (|groups| == closed + 1 ==> |groups[closed]| >= n)
  }

  lemma JoinLast<T>(groups: seq<seq<T>>)
    requires groups != []
    ensures Join(groups) == Join(groups[..|groups| - 1]) + groups[|groups| - 1]
  {
    JoinSnoc(groups[..|groups| - 1], groups[|groups| - 1]);
    assert groups == groups[..|groups| - 1] + [groups[|groups| - 1]];
  }

  /** Every grouping with one more item keeps at most the pace of the greedy one, which closes its
      group only when the item does not fit. */
  lemma {:induction false} KeepsPace<T(!new)>(
    fits: seq<T> -> bool, done: seq<T>, current: seq<T>, x: T, closed: nat, groups: seq<seq<T>>)
    requires Hereditary(fits) && Unbeaten(fits, done + current, closed, |current|)
    requires IsGrouping(fits, (done + current) + [x], groups)
    ensures if fits(current + [x]) then NotAhead(groups, closed, |current| + 1) else NotAhead(groups, closed + 1, 1)
    decreases |groups|
  {
    hide Hereditary, Unbeaten;
    JoinNothing<T>();
    JoinLast(groups);
    var init, last := groups[..|groups| - 1], groups[|groups| - 1];
    if last == [] {
      assert Join(init) == (done + current) + [x];
      assert IsGrouping(fits, (done + current) + [x], init);
      KeepsPace(fits, done, current, x, closed, init);
    } else {
      var g := last[..|last| - 1];
      LastItem(Join(init), last, done + current, x);
      assert groups == init + [g + [x]];
      assert fits(groups[|groups| - 1]);
      Shortened(fits, done + current, x, init, g);
      EndsWithGroup(fits, done, current, x, closed, init, g);
    }
  }

  lemma LastItem<T>(before: seq<T>, last: seq<T>, items: seq<T>, x: T)
    requires last != [] && before + last == items + [x]
    ensures last == last[..|last| - 1] + [x] && before + last[..|last| - 1] == items
  {
    assert (before + last)[|before + last| - 1] == last[|last| - 1];
    assert (before + last)[..|before + last| - 1] == before + last[..|last| - 1];
    assert (items + [x])[..|items|] == items;
  }

  /** Without the last item the groups still are a grouping. */
  lemma Shortened<T(!new)>(fits: seq<T> -> bool, items: seq<T>, x: T, init: seq<seq<T>>, g: seq<T>)
    requires Hereditary(fits) && IsGrouping(fits, items + [x], init + [g + [x]]) && Join(init) + g == items
    ensures IsGrouping(fits, items, init + [g])
  {
    JoinSnoc(init, g);
    assert (init + [g + [x]])[|init|] == g + [x];
    forall i | 0 <= i < |init| + 1 ensures fits((init + [g])[i]) {
      if i < |init| { assert (init + [g + [x]])[i] == init[i]; }
    }
  }

  lemma EndsWithGroup<T(!new)>(
    fits: seq<T> -> bool, done: seq<T>, current: seq<T>, x: T, closed: nat, init: seq<seq<T>>, g: seq<T>)
    requires Hereditary(fits) && Unbeaten(fits, done + current, closed, |current|)
    requires IsGrouping(fits, done + current, init + [g]) && Join(init) + g == done + current && fits(g + [x])
    ensures var groups := init + [g + [x]];
      if fits(current + [x]) then NotAhead(groups, closed, |current| + 1) else NotAhead(groups, closed + 1, 1)
  {
    assert NotAhead(init + [g], closed, |current|);
    assert (init + [g])[|init|] == g && (init + [g + [x]])[|init|] == g + [x];
    if |init| == closed {
      CommonEnd(Join(init), g, done, current);
      assert g + [x] == g[..|g| - |current|] + (current + [x]);
    }
  }

  lemma CommonEnd<T>(a: seq<T>, b: seq<T>, c: seq<T>, d: seq<T>)
    requires a + b == c + d && |d| <= |b|
    ensures b == b[..|b| - |d|] + d
  {
    var n := |b| - |d|;
    assert (a + b)[|a| + n..] == b[n..] && (c + d)[|c|..] == d;
  }

  lemma UnbeatenNext<T(!new)>(fits: seq<T> -> bool, done: seq<T>, current: seq<T>, x: T, closed: nat)
    requires Hereditary(fits) && Unbeaten(fits, done + current, closed, |current|)
    ensures if fits(current + [x])
            then Unbeaten(fits, (done + current) + [x], closed, |current| + 1)
            else Unbeaten(fits, (done + current) + [x], closed + 1, 1)
  {
    hide Hereditary;
    forall groups | IsGrouping(fits, (done + current) + [x], groups)
      ensures if fits(current + [x]) then NotAhead(groups, closed, |current| + 1) else NotAhead(groups, closed + 1, 1)
    {
      KeepsPace(fits, done, current, x, closed, groups);
    }
  }

  lemma UnbeatenFirst<T(!new)>(fits: seq<T> -> bool, x: T)
    ensures Unbeaten(fits, [x], 0, 1)
  {
    forall groups | IsGrouping(fits, [x], groups) ensures NotAhead(groups, 0, 1) {
      JoinNothing<T>();
      if |groups| == 1 {
        JoinLast(groups);
        assert groups[..0] == [];
      }
    }
  }
}
