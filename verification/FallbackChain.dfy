/** The chain of candidate models that `ModelRouter._candidate_chain` reads off the configuration. */
module FallbackChain {
  import opened Strings

  datatype ModelConfig = ModelConfig(
    kind: string,
    provider: Option<string>,
    litellmModel: Option<string>,
    supportsToolCalling: Option<bool>,
    fallback: Option<string>)

  type Models = map<string, ModelConfig>

  /** The chain, or one of the three errors the code raises. */
  datatype ChainResult =
    | Chain(names: seq<string>)
    | UnknownModel(name: string)
    | FallbackCycle(name: string)
    | MissingModel(name: string)

  /** Known models, each followed by its fallback. */
  ghost predicate IsWalk(models: Models, start: string, walk: seq<string>) {
    && walk != [] && walk[0] == start
    && (forall i :: 0 <= i < |walk| ==> walk[i] in models)
    && (forall i :: 0 < i < |walk| ==> models[walk[i - 1]].fallback == Some(walk[i]))
  }

  /** The fallback the walk has come to. */
  ghost function NextOf(models: Models, start: string, walk: seq<string>): Option<string>
    requires IsWalk(models, start, walk)
  {
    models[walk[|walk| - 1]].fallback
  }

  /** A walk that ends at a model without fallback. */
  ghost predicate IsFallbackPath(models: Models, start: string, path: seq<string>) {
    IsWalk(models, start, path) && NextOf(models, start, path) == None
  }

  ghost predicate Distinct<T>(s: seq<T>) {
    forall i, j :: 0 <= i < j < |s| ==> s[i] != s[j]
  }

  /** What makes the code raise instead: where following the fallbacks gets stuck. */
  ghost predicate RunsIntoCycle(models: Models, start: string, name: string) {
    exists walk :: IsWalk(models, start, walk) && Distinct(walk)
                   && NextOf(models, start, walk) == Some(name) && name in walk
  }

  ghost predicate RunsOut(models: Models, start: string, name: string) {
    name !in models
    && exists walk :: IsWalk(models, start, walk) && NextOf(models, start, walk) == Some(name)
  }

  /** Walks from one model agree as far as both go. */
  lemma {:induction false} WalksAgree(models: Models, start: string, a: seq<string>, b: seq<string>, i: nat)
    requires IsWalk(models, start, a) && IsWalk(models, start, b) && i < |a| && i < |b|
    ensures a[i] == b[i]
  {
    if i > 0 { WalksAgree(models, start, a, b, i - 1); }
  }

  lemma {:induction false} RepeatShifts(models: Models, start: string, a: seq<string>, i: nat, j: nat, k: nat)
    requires IsWalk(models, start, a) && i < j && j + k < |a| && a[i] == a[j]
    ensures a[i + k] == a[j + k]
  {
    if k > 0 { RepeatShifts(models, start, a, i, j, k - 1); }
  }

  /** A path that reaches the end has no repeat. */
  lemma PathIsDistinct(models: Models, start: string, path: seq<string>)
    requires IsFallbackPath(models, start, path)
    ensures Distinct(path)
  {
    forall i, j | 0 <= i < j < |path| ensures path[i] != path[j] {
      var k := |path| - 1 - j;
      assert models[path[i + k]].fallback == Some(path[i + k + 1]);
      if path[i] == path[j] { RepeatShifts(models, start, path, i, j, k); }
    }
  }

  /** A walk is a prefix of the path that reaches the end; it is that path if it ends there itself. */
  lemma WalkIsPrefix(models: Models, start: string, walk: seq<string>, path: seq<string>)
    requires IsWalk(models, start, walk) && IsFallbackPath(models, start, path)
    ensures walk <= path
    ensures NextOf(models, start, walk).Some? ==>
      |walk| < |path| && path[|walk|] == NextOf(models, start, walk).value
    ensures NextOf(models, start, walk).None? ==> walk == path
  {
    var n := if |walk| <= |path| then |walk| else |path|;
    assert n < |walk| ==> models[walk[n - 1]].fallback == Some(walk[n]);
    assert n < |path| ==> models[path[n - 1]].fallback == Some(path[n]);
    forall i | 0 <= i < n ensures walk[i] == path[i] { WalksAgree(models, start, walk, path, i); }
  }

  /** Each way of getting stuck rules out a path to the end. */
  lemma StuckHasNoPath(models: Models, start: string, name: string)
    requires RunsIntoCycle(models, start, name) || RunsOut(models, start, name)
    ensures !exists path :: IsFallbackPath(models, start, path)
  {
    forall path | IsFallbackPath(models, start, path) ensures false {
      PathIsDistinct(models, start, path);
      if RunsIntoCycle(models, start, name) {
        var walk :| IsWalk(models, start, walk) && NextOf(models, start, walk) == Some(name) && name in walk;
        WalkIsPrefix(models, start, walk, path);
      } else {
        var walk :| IsWalk(models, start, walk) && NextOf(models, start, walk) == Some(name);
        WalkIsPrefix(models, start, walk, path);
      }
    }
  }

  /** `_candidate_chain`: it succeeds exactly when the fallbacks of a known model lead to the end. */
  method CandidateChain(models: Models, startModel: string) returns (r: ChainResult)
    ensures r.Chain? <==> exists path :: IsFallbackPath(models, startModel, path)
    ensures r.Chain? ==> IsFallbackPath(models, startModel, r.names) && Distinct(r.names)
    ensures r.UnknownModel? <==> startModel !in models
    ensures r.UnknownModel? ==> r.name == startModel
    ensures r.FallbackCycle? ==> RunsIntoCycle(models, startModel, r.name)
    ensures r.MissingModel? ==> RunsOut(models, startModel, r.name)
  {
    if startModel !in models {
      return UnknownModel(startModel);
    }
    var chain: seq<string> := [];
    var visited: set<string> := {};
    var current := Some(startModel);
    while current.Some?
      invariant visited == set name | name in chain
      invariant visited <= models.Keys
      invariant Distinct(chain)
      invariant chain == [] ==> current == Some(startModel)
      invariant chain != [] ==> IsWalk(models, startModel, chain) && current == NextOf(models, startModel, chain)
      decreases models.Keys - visited, current.Some?
    {
      var name := current.value;
      if name in visited {
        assert RunsIntoCycle(models, startModel, name);
        StuckHasNoPath(models, startModel, name);
        return FallbackCycle(name);
      }
      if name !in models {
        assert RunsOut(models, startModel, name);
        StuckHasNoPath(models, startModel, name);
        return MissingModel(name);
      }
      assert name in models.Keys - visited;
      visited := visited + {name};
      chain := chain + [name];
      current := models[name].fallback;
    }
    assert chain != [] && IsFallbackPath(models, startModel, chain);
    return Chain(chain);
  }

  /** The i-th suffix of the chain is the chain of the i-th member, and its only one. */
  lemma SuffixIsChain(models: Models, start: string, path: seq<string>, i: nat)
    requires IsFallbackPath(models, start, path) && i < |path|
    ensures IsFallbackPath(models, path[i], path[i..])
    ensures forall other :: IsFallbackPath(models, path[i], other) ==> other == path[i..]
  {
    var suffix := path[i..];
    assert suffix[|suffix| - 1] == path[|path| - 1];
    forall k | 0 < k < |suffix| ensures models[suffix[k - 1]].fallback == Some(suffix[k]) {
      assert suffix[k - 1] == path[i + k - 1] && suffix[k] == path[i + k];
    }
    assert IsWalk(models, path[i], suffix);
    forall other | IsFallbackPath(models, path[i], other) ensures other == suffix {
      WalkIsPrefix(models, path[i], suffix, other);
    }
  }
}
