/** The request handlers' decisions (index.py:41-97): which handler accepts a
    request, and the directive the recommendation handler returns. The
    response builder, cards and SDK dispatch are not modelled. */
module Handlers {
  import opened Wrappers
  import opened Values
  import opened OrderedDicts
  import opened Slots
  import opened Disambiguation
  import Dicts

  datatype DialogState = Started | InProgress | Completed

  datatype Intent = Intent(name: string, slots: Entries<Slot>)

  /** The request inside the envelope, by request type. */
  datatype Request =
    | LaunchRequest
    | IntentRequest(intent: Intent, dialogState: Option<DialogState>)
    | OtherRequest(requestType: string)

  /** The permission path whose `consentToken` the consent handler looks for. */
  const ConsentPath := ["context", "System", "user", "permissions", "consentToken"]

  /** `is_intent_name(name)`: an intent request for that intent. */
  predicate IsIntentName(req: Request, name: string) {
    req.IntentRequest? && req.intent.name == name
  }

  /** `LaunchRequestHandler.can_handle`. */
  predicate CanHandleLaunch(req: Request) {
    req.LaunchRequest?
  }

  /** `LaunchRequestWithConsentTokenHandler.can_handle`: a launch request
      whose envelope has the permissions and then the consent token; the
      `and` chain stops at the first false or raising operand. */
  function CanHandleLaunchWithConsent(req: Request, envelope: Value): Result<bool, Error> {
    if !req.LaunchRequest? then Ok(false)
    else
      var hasPermissions :- Dicts.KeysExists(envelope, ConsentPath[..4]);
      if !hasPermissions then Ok(false)
      else Dicts.KeysExists(envelope, ConsentPath)
  }

  /** `SIPRecommendationIntentHandler.can_handle`: a recommendation intent
      whose dialog is not completed (a missing state counts as not completed). */
  predicate CanHandleRecommendation(req: Request) {
    IsIntentName(req, "RecommendationIntent") && req.dialogState != Some(Completed)
  }

  /** `CancelAndStopIntentHandler.can_handle`, with the source's spelling
      "AMAZON.SetopIntent" for the stop intent. */
  predicate CanHandleCancelAndStop(req: Request) {
    IsIntentName(req, "AMAZON.CancelIntent") || IsIntentName(req, "AMAZON.SetopIntent")
  }

  /** The directive of the recommendation handler. */
  datatype Directive =
    | ElicitSlot(slotToElicit: string, speech: string)   // speak and re-prompt with `speech`
    | Delegate(updatedIntent: Intent)

  /** `SIPRecommendationIntentHandler.handle`: elicit the slot the
      disambiguation picks, or delegate the dialog back to the platform. */
  function RecommendationDirective(intent: Intent): Result<Directive, Error> {
    var slots :- GetSlotValues(intent.slots);
    var result :- DisambiguateSlot(slots, RequiredSlots);
    match result
    case Some(choice) => Ok(ElicitSlot(choice.slotName, choice.prompt))
    case None => Ok(Delegate(intent))
  }

  /** The consent handler's test for any envelope value: a non-dict makes
      keysExists raise on a launch request. The dict case, where the test is
      exactly the existence of the consent-token path, is never reached by
      the program, whose envelope is an SDK object. */
  lemma ConsentTest(req: Request, envelope: Value)
    ensures !req.LaunchRequest? ==> CanHandleLaunchWithConsent(req, envelope) == Ok(false)
    ensures req.LaunchRequest? && !envelope.Dict? ==>
      CanHandleLaunchWithConsent(req, envelope) == Err(AttributeError(Dicts.NotADictMessage))
    ensures req.LaunchRequest? && envelope.Dict? ==>
      CanHandleLaunchWithConsent(req, envelope) == Dicts.KeysExists(envelope, ConsentPath)
  {
  }

  /** As the program calls it, with the SDK's request envelope object: the
      predicate declines every non-launch request and raises the "expects
      dict" AttributeError on every launch request. */
  lemma ConsentHandlerRaisesOnLaunch(req: Request)
    ensures req.LaunchRequest? <==>
      CanHandleLaunchWithConsent(req, Object) == Err(AttributeError(Dicts.NotADictMessage))
    ensures !req.LaunchRequest? <==> CanHandleLaunchWithConsent(req, Object) == Ok(false)
  {
  }

  /** "AMAZON.StopIntent" reaches none of the handlers, and the registered
      predicates never accept the same request twice. */
  lemma HandlerPredicates(req: Request, envelope: Value)
    ensures IsIntentName(req, "AMAZON.StopIntent") ==>
      && !CanHandleLaunch(req) && !CanHandleRecommendation(req) && !CanHandleCancelAndStop(req)
      && CanHandleLaunchWithConsent(req, envelope) == Ok(false)
    ensures !(CanHandleLaunch(req) && CanHandleRecommendation(req))
    ensures !(CanHandleLaunch(req) && CanHandleCancelAndStop(req))
    ensures !(CanHandleRecommendation(req) && CanHandleCancelAndStop(req))
  {
  }

  /** An elicited slot is a configured slot whose first authority matched
      exactly with more than one canonical name, and the speech is the
      question naming those names. */
  lemma ElicitedSlotWasAmbiguousMatch(intent: Intent)
    requires RecommendationDirective(intent).Ok? && RecommendationDirective(intent).value.ElicitSlot?
    ensures var e := RecommendationDirective(intent).value;
      && e.slotToElicit in RequiredSlots
      && exists names :: |names| > 1 && MatchedBy(intent.slots, e.slotToElicit, names) && e.speech == PromptFor(names)
  {
    var d := GetSlotValues(intent.slots).value;
    DisambiguateSlotChoice(d, RequiredSlots);
    var i :| 0 <= i < |d| && QualifiesAt(d, RequiredSlots, i) &&
      DisambiguateSlot(d, RequiredSlots).value.value == ChoiceAt(d, i);
    ResolvedListsAreMatches(intent.slots);
    assert WellResolved(intent.slots, d[i]);
  }

  /** The handler delegates iff extraction succeeds and no slot is
      ambiguous; an ambiguous slot outside the table makes it raise. */
  lemma DelegateIffUnambiguous(intent: Intent)
    ensures RecommendationDirective(intent) == Ok(Delegate(intent)) <==>
      GetSlotValues(intent.slots).Ok? &&
      forall j :: 0 <= j < |GetSlotValues(intent.slots).value| ==> !Ambiguous(GetSlotValues(intent.slots).value[j].1)
    ensures RecommendationDirective(intent).Err? <==>
      || GetSlotValues(intent.slots).Err?
      || exists j :: 0 <= j < |GetSlotValues(intent.slots).value| &&
           Ambiguous(GetSlotValues(intent.slots).value[j].1) && GetSlotValues(intent.slots).value[j].0 !in RequiredSlots
  {
    if GetSlotValues(intent.slots).Ok? {
      var d := GetSlotValues(intent.slots).value;
      DisambiguateSlotRaises(d, RequiredSlots);
      forall j | 0 <= j < |d|
        ensures QualifiesAt(d, RequiredSlots, j) || LookupFailsAt(d, RequiredSlots, j) <==> Ambiguous(d[j].1)
      {
        ConfiguredTable(d, j);
      }
      if forall j :: 0 <= j < |d| ==> !LookupFailsAt(d, RequiredSlots, j) {
        DisambiguateSlotEmpty(d, RequiredSlots);
      }
    }
  }
}
