/** `ModelRouter.call_with_tools`: whole answers instead of streams, with the same chain of
    candidates, and how its outcome compares with the one of the stream. */
module CallRouter {
  import opened Strings
  import opened DsmlTags
  import opened DsmlRemovers
  import opened FallbackChain
  import opened StreamRouter

  /** What one call returns: the text of the answer, the tool calls and the reasoning that are
      extracted from it, and how the attempt ends. */
  datatype Reply = Reply(text: string, toolCalls: seq<string>, reasoning: string, ending: Ending)

  type Service = string -> Reply

  datatype CallResult =
    | Answered(model: string, text: string, toolCalls: seq<string>, reasoning: string)
    | AllFailed
    | NoChain(error: ChainResult)
    | Raised(model: string)

  /** The candidate is passed over or fails with an error the router handles. */
  predicate PassedOver(models: Models, request: Request, service: Service, name: string)
    requires name in models
  {
    SkipReason(models[name], request).Some? || service(name).ending == RouterError
  }

  /** The answer: its text without embedded tool calls, and what was extracted before. */
  function AnswerOf(name: string, reply: Reply): CallResult {
    Answered(name, StripEmbeddedToolPayload(reply.text), reply.toolCalls, reply.reasoning)
  }

  /** All candidates before the `heard`-th are passed over; that one, if there is one, decides. */
  ghost predicate CallOutcome(
    models: Models, request: Request, service: Service, chain: seq<string>, heard: nat,
    result: CallResult, attempts: seq<Attempt>)
  {
    && heard <= |chain|
    && (forall name :: name in chain ==> name in models)
    && (forall i :: 0 <= i < heard ==> PassedOver(models, request, service, chain[i]))
    && attempts == QuietAttempts(models, request, chain[..heard])
    && if heard == |chain| then
         result == AllFailed
       else
         var name := chain[heard];
         && !PassedOver(models, request, service, name)
         && result == if service(name).ending.Fine? then AnswerOf(name, service(name)) else Raised(name)
  }

  /** The model that answers or raises can serve the request, and every attempt is honest. */
  lemma AnswererCanServe(
    models: Models, request: Request, service: Service, chain: seq<string>, heard: nat,
    result: CallResult, attempts: seq<Attempt>)
    requires CallOutcome(models, request, service, chain, heard, result, attempts)
    ensures result.Answered? || result.Raised? ==>
      result.model in models && CanServe(models[result.model], request)
    ensures AttemptsAreHonest(models, request, attempts)
  {
    hide SkipReason, CanServe, NamesFailure, QuietAttempts, StripEmbeddedToolPayload;
    HonestAttempts(models, request, chain[..heard]);
    if heard < |chain| {
      assert chain[heard] in chain;
      SkippedIffCannotServe(models[chain[heard]], request);
    }
  }

  /** `call_with_tools`. */
  method CallWithTools(models: Models, request: Request, service: Service)
    returns (result: CallResult, attempts: seq<Attempt>)
    ensures result.NoChain? <==> !exists path :: IsFallbackPath(models, request.model, path)
    ensures result.NoChain? ==> attempts == []
    ensures !result.NoChain? ==>
      exists chain, heard ::
        && IsFallbackPath(models, request.model, chain)
        && CallOutcome(models, request, service, chain, heard, result, attempts)
    ensures result.Answered? || result.Raised? ==>
      result.model in models && CanServe(models[result.model], request)
    ensures AttemptsAreHonest(models, request, attempts)
  {
    hide StripEmbeddedToolPayload, CanServe, AttemptsAreHonest;
    attempts := [];
    HonestAttempts(models, request, []);
    var candidates := CandidateChain(models, request.model);
    if !candidates.Chain? {
      return NoChain(candidates), attempts;
    }
    var chain := candidates.names;
    for index := 0 to |chain|
      invariant forall i :: 0 <= i < index ==> PassedOver(models, request, service, chain[i])
      invariant attempts == QuietAttempts(models, request, chain[..index])
    {
      var candidate := chain[index];
      assert chain[..index + 1] == chain[..index] + [candidate];
      var skip := SkipReason(models[candidate], request);
      if skip.Some? {
        attempts := attempts + [Attempt(candidate, Skipped(skip.value))];
        continue;
      }
      var reply := service(candidate);
      match reply.ending {
        case Fine =>
          var text := StripEmbeddedToolPayload(reply.text);
          result := Answered(candidate, text, reply.toolCalls, reply.reasoning);
          assert CallOutcome(models, request, service, chain, index, result, attempts);
          AnswererCanServe(models, request, service, chain, index, result, attempts);
          return result, attempts;
        case OtherError =>
          assert CallOutcome(models, request, service, chain, index, Raised(candidate), attempts);
          AnswererCanServe(models, request, service, chain, index, Raised(candidate), attempts);
          return Raised(candidate), attempts;
        case RouterError =>
          attempts := attempts + [Attempt(candidate, FailedQuietly)];
      }
    }
    assert chain[..|chain|] == chain;
    assert CallOutcome(models, request, service, chain, |chain|, AllFailed, attempts);
    AnswererCanServe(models, request, service, chain, |chain|, AllFailed, attempts);
    return AllFailed, attempts;
  }

  /** The service answers with the text the provider would stream, and fails when the stream fails. */
  ghost predicate SameAnswers(provider: Provider, service: Service) {
    forall name ::
      && service(name).text == Join(provider(name).deltas)
      && service(name).ending == EndingOf(provider(name))
  }

  /** The two entry points agree as long as no stream breaks off: the same model serves the request,
      the same attempts are recorded, and the texts are equal up to surrounding whitespace exactly
      when every start tag of the answer is closed. A stream that breaks off is the one case in
      which the call goes on to a later candidate. */
  lemma CallAndStreamAgree(
    models: Models, request: Request, provider: Provider, service: Service,
    chain: seq<string>, heard: nat, shown: string, result: Result, attempts: seq<Attempt>,
    chain': seq<string>, heard': nat, result': CallResult, attempts': seq<Attempt>)
    requires SameAnswers(provider, service)
    requires IsFallbackPath(models, request.model, chain) && IsFallbackPath(models, request.model, chain')
    requires StreamOutcome(models, request, provider, chain, heard, shown, result, attempts)
    requires CallOutcome(models, request, service, chain', heard', result', attempts')
    ensures chain == chain' && heard <= heard'
    ensures result.BrokeOff? <==> heard < heard'
    ensures !result.BrokeOff? ==> attempts == attempts'
    ensures result.Exhausted? ==> result' == AllFailed
    ensures result.Escaped? ==> result' == Raised(result.model)
    ensures result.Served? ==>
      && result'.Answered? && result'.model == result.model
      && (Strip(result'.text) == Strip(shown) <==>
          EveryStartIsClosed(DSML, Join(provider(result.model).deltas)))
  {
    hide SkipReason, StripEmbeddedToolPayload, Filter, Strip, EveryStartIsClosed, Join, QuietAttempts;
    WalkIsPrefix(models, request.model, chain, chain');
    assert forall name :: name in chain && Quiet(models, request, provider, name) ==>
      PassedOver(models, request, service, name);
    assert heard < |chain| ==> chain[heard] in chain;
    if result.Served? { RemoversAgreeIffClosed(Join(provider(result.model).deltas)); }
  }
}
