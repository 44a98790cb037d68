/** `ModelRouter.stream`: the candidates of a chain are tried in order, and at most one of them is heard. */
module StreamRouter {
  import opened Strings
  import opened DsmlTags
  import opened DsmlStream
  import opened FallbackChain

  /** How a stage of an attempt ends: normally, with one of the errors the router handles, or with
      another exception, which leaves the generator. */
  datatype Ending = Fine | RouterError | OtherError

  /** What the provider and the success callback do for one candidate. The stream can break before
      the first delta (no deltas) or after any number of them. */
  datatype Run = Run(deltas: seq<string>, stream: Ending, callback: Ending)

  type Provider = string -> Run

  datatype Request = Request(model: string, vision: bool, withTools: bool)

  datatype Status = Skipped(reason: string) | FailedQuietly | FailedAfterOutput

  datatype Attempt = Attempt(model: string, status: Status)

  datatype Result =
    | Served(model: string)
    | BrokeOff(model: string)
    | Exhausted
    | BadChain(error: ChainResult)
    | Escaped(model: string)

  /** The three reasons for passing over a candidate, in the order of the code. */
  function SkipReason(cfg: ModelConfig, request: Request): Option<string> {
    if cfg.provider.None? || cfg.litellmModel.None? then Some("provider_or_litellm_model_missing")
    else if request.vision && cfg.kind != "vision" then Some("vision_not_supported")
    else if request.withTools && cfg.supportsToolCalling == Some(false) then Some("tool_calling_not_supported")
    else None
  }

  // ----- what a run shows, whichever way its text is cut -----

  /** A stream that ends normally shows its filtered text; a broken one shows what was visible. */
  function ShownText(run: Run): string {
    if run.stream.Fine? then Filter(DSML, Join(run.deltas)) else Visible(DSML, Join(run.deltas))
  }

  /** How the run ends as a whole: the callback is reached only by a stream that ends normally. */
  function EndingOf(run: Run): Ending {
    if run.stream.Fine? then run.callback else run.stream
  }

  /** The candidate is passed over, or fails before any text is shown. */
  predicate Quiet(models: Models, request: Request, provider: Provider, name: string)
    requires name in models
  {
    SkipReason(models[name], request).Some?
    || (EndingOf(provider(name)) == RouterError && ShownText(provider(name)) == "")
  }

  /** What is recorded for a quiet candidate. */
  function QuietAttempt(models: Models, request: Request, name: string): Attempt
    requires name in models
  {
    var skip := SkipReason(models[name], request);
    Attempt(name, if skip.Some? then Skipped(skip.value) else FailedQuietly)
  }

  function QuietAttempts(models: Models, request: Request, names: seq<string>): (r: seq<Attempt>)
    requires forall name :: name in names ==> name in models
    ensures |r| == |names| && forall i :: 0 <= i < |names| ==> r[i].model == names[i]
  {
    seq(|names|, i requires 0 <= i < |names| => QuietAttempt(models, request, names[i]))
  }

  /** The contract of the whole generator: `heard` candidates of the chain were quiet, and the next
      one, if there is one, decided the outcome alone. */
  ghost predicate StreamOutcome(
    models: Models, request: Request, provider: Provider, chain: seq<string>, heard: nat,
    shown: string, result: Result, attempts: seq<Attempt>)
  {
    && heard <= |chain|
    && (forall name :: name in chain ==> name in models)
    && (forall i :: 0 <= i < heard ==> Quiet(models, request, provider, chain[i]))
    && var before := QuietAttempts(models, request, chain[..heard]);
    if heard == |chain| then
      result == Exhausted && shown == "" && attempts == before
    else
      var name := chain[heard];
      var run := provider(name);
      && !Quiet(models, request, provider, name)
      && SkipReason(models[name], request).None?
      && shown == ShownText(run)
      && match EndingOf(run)
         case Fine => result == Served(name) && attempts == before
         case RouterError =>
           result == BrokeOff(name) && shown != "" && attempts == before + [Attempt(name, FailedAfterOutput)]
         case OtherError => result == Escaped(name) && attempts == before
  }

  // ----- which candidates may be heard -----

  /** The model is configured, sees images if the request has them, and is not known to lack tools if
      the request has them. */
  predicate CanServe(cfg: ModelConfig, request: Request) {
    && cfg.provider.Some? && cfg.litellmModel.Some?
    && (request.vision ==> cfg.kind == "vision")
    && (request.withTools ==> cfg.supportsToolCalling != Some(false))
  }

  /** What is recorded names the first need that the model fails, if it fails one. */
  predicate NamesFailure(cfg: ModelConfig, request: Request, status: Status) {
    if cfg.provider.None? || cfg.litellmModel.None? then status == Skipped("provider_or_litellm_model_missing")
    else if request.vision && cfg.kind != "vision" then status == Skipped("vision_not_supported")
    else if request.withTools && cfg.supportsToolCalling == Some(false) then
      status == Skipped("tool_calling_not_supported")
    else !status.Skipped?
  }

  /** Attempts are skipped exactly when the model fails a need, for the first need it fails. */
  ghost predicate AttemptsAreHonest(models: Models, request: Request, attempts: seq<Attempt>) {
    forall i :: 0 <= i < |attempts| ==>
      && attempts[i].model in models
      && NamesFailure(models[attempts[i].model], request, attempts[i].status)
      && (attempts[i].status.Skipped? <==> !CanServe(models[attempts[i].model], request))
  }

  lemma SkippedIffCannotServe(cfg: ModelConfig, request: Request)
    ensures SkipReason(cfg, request).None? <==> CanServe(cfg, request)
    ensures SkipReason(cfg, request).Some? ==> NamesFailure(cfg, request, Skipped(SkipReason(cfg, request).value))
  {
  }

  lemma HonestAttempts(models: Models, request: Request, names: seq<string>)
    requires forall name :: name in names ==> name in models
    ensures AttemptsAreHonest(models, request, QuietAttempts(models, request, names))
  {
    hide SkipReason, CanServe, NamesFailure;
    var attempts := QuietAttempts(models, request, names);
    forall i | 0 <= i < |attempts|
      ensures NamesFailure(models[names[i]], request, attempts[i].status)
      ensures attempts[i].status.Skipped? <==> !CanServe(models[names[i]], request)
    {
      var cfg := models[names[i]];
      SkippedIffCannotServe(cfg, request);
      assert attempts[i] == QuietAttempt(models, request, names[i]);
      if SkipReason(cfg, request).None? { NotSkipped(cfg, request, FailedQuietly); }
    }
  }

  lemma NotSkipped(cfg: ModelConfig, request: Request, status: Status)
    requires CanServe(cfg, request) && !status.Skipped?
    ensures NamesFailure(cfg, request, status)
  {
  }

  /** The model that is heard can serve the request, and every attempt is honest. */
  lemma HeardCanServe(
    models: Models, request: Request, provider: Provider, chain: seq<string>, heard: nat,
    shown: string, result: Result, attempts: seq<Attempt>)
    requires StreamOutcome(models, request, provider, chain, heard, shown, result, attempts)
    ensures result.Served? || result.BrokeOff? || result.Escaped? ==>
      result.model in models && CanServe(models[result.model], request)
    ensures AttemptsAreHonest(models, request, attempts)
  {
    hide SkipReason, CanServe, NamesFailure, Quiet, ShownText, QuietAttempts;
    HonestAttempts(models, request, chain[..heard]);
    if heard < |chain| {
      assert chain[heard] in chain;
      SkippedIffCannotServe(models[chain[heard]], request);
      NotSkipped(models[chain[heard]], request, FailedAfterOutput);
    }
  }

  lemma {:induction false} JoinOfPieces(pieces: seq<string>)
    requires forall v :: v in pieces ==> v != []
    ensures Join(pieces) == "" <==> pieces == []
  {
    if pieces != [] { assert pieces[0] in pieces; }
  }

  /** One candidate: the stream loop, the flush and the success callback. */
  method RunCandidate(run: Run) returns (yielded: seq<string>, ending: Ending)
    ensures forall v :: v in yielded ==> v != []
    ensures Join(yielded) == ShownText(run) && ending == EndingOf(run)
  {
    hide Visible, Filter, Held;
    var pending;
    yielded, pending := RelayDeltas(run.deltas);
    if !run.stream.Fine? {
      return yielded, run.stream;
    }
    ghost var before := yielded;
    var flushed;
    flushed, pending := ConsumeVisibleStreamText(pending, true);
    yielded := yielded + flushed;
    JoinAppend(before, flushed);
    FlushCompletes(DSML, Join(run.deltas));
    return yielded, run.callback;
  }

  /** `stream`. */
  method Stream(models: Models, request: Request, provider: Provider)
    returns (yielded: seq<string>, result: Result, attempts: seq<Attempt>)
    ensures result.BadChain? <==> !exists path :: IsFallbackPath(models, request.model, path)
    ensures result.BadChain? ==> yielded == [] && attempts == []
    ensures !result.BadChain? ==>
      exists chain, heard ::
        && IsFallbackPath(models, request.model, chain)
        && StreamOutcome(models, request, provider, chain, heard, Join(yielded), result, attempts)
    ensures result.Served? || result.BrokeOff? || result.Escaped? ==>
      result.model in models && CanServe(models[result.model], request)
    ensures AttemptsAreHonest(models, request, attempts)
  {
    hide ShownText, Join, CanServe, AttemptsAreHonest;
    yielded, attempts := [], [];
    HonestAttempts(models, request, []);
    var candidates := CandidateChain(models, request.model);
    if !candidates.Chain? {
      return yielded, BadChain(candidates), attempts;
    }
    var chain := candidates.names;
    for index := 0 to |chain|
      invariant forall i :: 0 <= i < index ==> Quiet(models, request, provider, chain[i])
      invariant attempts == QuietAttempts(models, request, chain[..index])
      invariant yielded == []
    {
      var candidate := chain[index];
      var skip := SkipReason(models[candidate], request);
      assert chain[..index + 1] == chain[..index] + [candidate];
      if skip.Some? {
        attempts := attempts + [Attempt(candidate, Skipped(skip.value))];
        continue;
      }
      var ending;
      yielded, ending := RunCandidate(provider(candidate));
      JoinOfPieces(yielded);
      if ending.Fine? {
        assert StreamOutcome(models, request, provider, chain, index, Join(yielded), Served(candidate), attempts);
        HeardCanServe(models, request, provider, chain, index, Join(yielded), Served(candidate), attempts);
        return yielded, Served(candidate), attempts;
      }
      if ending.OtherError? {
        assert StreamOutcome(models, request, provider, chain, index, Join(yielded), Escaped(candidate), attempts);
        HeardCanServe(models, request, provider, chain, index, Join(yielded), Escaped(candidate), attempts);
        return yielded, Escaped(candidate), attempts;
      }
      if yielded != [] {
        attempts := attempts + [Attempt(candidate, FailedAfterOutput)];
        assert StreamOutcome(models, request, provider, chain, index, Join(yielded), BrokeOff(candidate), attempts);
        HeardCanServe(models, request, provider, chain, index, Join(yielded), BrokeOff(candidate), attempts);
        return yielded, BrokeOff(candidate), attempts;
      }
      attempts := attempts + [Attempt(candidate, FailedQuietly)];
    }
    JoinOfPieces(yielded);
    assert chain[..|chain|] == chain;
    assert StreamOutcome(models, request, provider, chain, |chain|, Join(yielded), Exhausted, attempts);
    HeardCanServe(models, request, provider, chain, |chain|, Join(yielded), Exhausted, attempts);
    return yielded, Exhausted, attempts;
  }

  /** The providers send the same text and end alike; only the cuts between deltas differ. */
  ghost predicate SameTexts(p: Provider, q: Provider) {
    forall name :: Join(p(name).deltas) == Join(q(name).deltas)
                   && p(name).stream == q(name).stream && p(name).callback == q(name).callback
  }

  /** The outcome of a request is determined by the texts the providers send: neither which model
      answers, nor what is shown, nor what is recorded depends on how the texts are cut. */
  lemma OutcomeIsDetermined(
    models: Models, request: Request, p: Provider, q: Provider,
    chain: seq<string>, heard: nat, shown: string, result: Result, attempts: seq<Attempt>,
    chain': seq<string>, heard': nat, shown': string, result': Result, attempts': seq<Attempt>)
    requires SameTexts(p, q)
    requires IsFallbackPath(models, request.model, chain) && IsFallbackPath(models, request.model, chain')
    requires StreamOutcome(models, request, p, chain, heard, shown, result, attempts)
    requires StreamOutcome(models, request, q, chain', heard', shown', result', attempts')
    ensures shown == shown' && result == result' && attempts == attempts'
  {
    hide SkipReason, Quiet, ShownText, QuietAttempts;
    WalkIsPrefix(models, request.model, chain, chain');
    forall name ensures ShownText(p(name)) == ShownText(q(name)) { SameTextShown(p, q, name); }
    forall name | name in chain ensures Quiet(models, request, p, name) == Quiet(models, request, q, name) {
      SameQuiet(models, request, p, q, name);
    }
    assert heard < |chain| ==> chain[heard] in chain;
    assert heard' < |chain| ==> chain[heard'] in chain;
    assert heard == heard';
  }

  lemma SameTextShown(p: Provider, q: Provider, name: string)
    requires SameTexts(p, q)
    ensures ShownText(p(name)) == ShownText(q(name))
  {
    hide Filter, Visible;
  }

  lemma SameQuiet(models: Models, request: Request, p: Provider, q: Provider, name: string)
    requires SameTexts(p, q) && name in models
    ensures Quiet(models, request, p, name) == Quiet(models, request, q, name)
  {
    hide SkipReason, ShownText;
    SameTextShown(p, q, name);
  }

  /** All text that is shown is one model's: its whole stream, filtered, when it serves, and what was
      visible of it, not nothing, when it breaks off. Without a model nothing is shown. */
  lemma ShownIsOneModels(
    models: Models, request: Request, provider: Provider, chain: seq<string>, heard: nat,
    shown: string, result: Result, attempts: seq<Attempt>)
    requires StreamOutcome(models, request, provider, chain, heard, shown, result, attempts)
    ensures result.Served? ==> shown == Filter(DSML, Join(provider(result.model).deltas))
    ensures result.BrokeOff? && provider(result.model).stream != Fine ==>
      shown == Visible(DSML, Join(provider(result.model).deltas)) != ""
    ensures result.BrokeOff? && provider(result.model).stream == Fine ==>
      shown == Filter(DSML, Join(provider(result.model).deltas)) != ""
    ensures result.Exhausted? ==> shown == ""
  {
    hide SkipReason, Filter, Visible, QuietAttempts;
  }

  /** Exhaustion records every member of the chain exactly once, in chain order. */
  lemma ExhaustionListsTheChain(
    models: Models, request: Request, provider: Provider, chain: seq<string>, heard: nat,
    shown: string, attempts: seq<Attempt>)
    requires IsFallbackPath(models, request.model, chain)
    requires StreamOutcome(models, request, provider, chain, heard, shown, Exhausted, attempts)
    ensures |attempts| == |chain| && forall i :: 0 <= i < |chain| ==> attempts[i].model == chain[i]
    ensures forall i, j :: 0 <= i < j < |attempts| ==> attempts[i].model != attempts[j].model
  {
    PathIsDistinct(models, request.model, chain);
    assert chain[..|chain|] == chain;
    assert heard == |chain|;
  }
}
