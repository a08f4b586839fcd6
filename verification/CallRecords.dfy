/**
  The lines an end-to-end run records, and what one call is worth.

  Credits are ordered: a cell is in the state its best credit gives it. `AssertedExactly` and `PastFailedOnlyWhenPassed`
  say what a call has to show for the credits that count.
*/
module CallRecords {

  const METHOD_CALL_TOOL := "tools/call"
  const METHOD_READ_RESOURCE := "resources/read"
  const METHOD_GET_PROMPT := "prompts/get"
  const METHOD_COMPLETE := "completion/complete"
  const METHOD_SUBSCRIBE := "resources/subscribe"
  const METHOD_LISTEN := "subscriptions/listen"
  const METHOD_ELICIT := "elicitation/create"
  const METHOD_RESOURCE_UPDATED := "notifications/resources/updated"

  const PURPOSE_TEST := "test"
  const PURPOSE_CLEANUP := "cleanup"
  const PURPOSE_SWEEP := "sweep"
  const PURPOSE_RAW := "raw"
  const PURPOSE_MODEL := "model"

  const OUTCOME_OK := "ok"
  const OUTCOME_TOOL_ERROR := "tool_error"
  const OUTCOME_PROTOCOL_ERROR := "protocol_error"
  const OUTCOME_PREVIEW := "preview"
  const OUTCOME_REFUSED_PREFIX := "refused:"

  const STATUS_PASSED := "passed"
  const STATUS_SKIPPED := "skipped"

  const MODE_DEFAULT := "default"
  const MODE_READ_ONLY := "read-only"
  const MODE_SAFE := "safe"

  const SURFACE_DYNAMIC := "dynamic"
  const SURFACE_META := "meta"
  const SURFACE_INDIVIDUAL := "individual"

  const CAPABILITIES_FULL := "full"
  const CAPABILITIES_MINIMAL := "minimal"

  datatype Call = Call(
    test: string, purpose: string, surface: string, mode: string, capabilities: string, method_: string,
    action: string, dispatched: string, target: string, outcome: string, testStatus: string, fineGrained: bool)

  datatype Session = Session(
    surface: string, mode: string, capabilities: string, tools: seq<string>, resources: seq<string>,
    templates: seq<string>, prompts: seq<string>, completions: seq<string>, kinds: seq<string>,
    dispatchObserved: bool, idle: bool, fineGrained: bool)

  datatype Skip = Skip(test: string, reason: string)

  /** config.EffectiveCapabilitySurface */
  function EffectiveCapabilitySurface(capabilities: string): string {
    if capabilities == CAPABILITIES_FULL || capabilities == CAPABILITIES_MINIMAL then capabilities else CAPABILITIES_FULL
  }

  // ---------------------------------------------------------------- credits and states

  datatype Credit =
    | NoCredit | CreditSkipped | CreditFailed | CreditCleanup | CreditPreview | CreditRefused | CreditErrorPath
    | CreditSweep | CreditUnobserved | CreditAsserted

  datatype State =
    | Asserted | Unobserved | SweepOnly | ErrorPathOnly | RefusedOnly | PreviewOnly | CleanupOnly
    | Unasserted | Unservable | Skipped | Failed | Absent

  function Rank(c: Credit): nat {
    match c
    case NoCredit => 0
    case CreditSkipped => 1
    case CreditFailed => 2
    case CreditCleanup => 3
    case CreditPreview => 4
    case CreditRefused => 5
    case CreditErrorPath => 6
    case CreditSweep => 7
    case CreditUnobserved => 8
    case CreditAsserted => 9
  }

  function Better(a: Credit, b: Credit): Credit {
    if Rank(a) >= Rank(b) then a else b
  }

  lemma RankTellsCredits(a: Credit, b: Credit)
    ensures Rank(a) == Rank(b) ==> a == b
  {}

  /** creditStates */
  function CreditState(c: Credit): State
    requires c != NoCredit
  {
    match c
    case CreditSkipped => Skipped
    case CreditFailed => Failed
    case CreditCleanup => CleanupOnly
    case CreditPreview => PreviewOnly
    case CreditRefused => RefusedOnly
    case CreditErrorPath => ErrorPathOnly
    case CreditSweep => SweepOnly
    case CreditUnobserved => Unobserved
    case CreditAsserted => Asserted
  }

  /** creditOfAnswer */
  function CreditOfAnswer(call: Call): Credit {
    if call.outcome == OUTCOME_PREVIEW then CreditPreview
    else if OUTCOME_REFUSED_PREFIX <= call.outcome then CreditRefused
    else if call.outcome == OUTCOME_TOOL_ERROR || call.outcome == OUTCOME_PROTOCOL_ERROR then CreditErrorPath
    else if call.outcome != OUTCOME_OK then NoCredit
    else if call.purpose == PURPOSE_SWEEP then CreditSweep
    else if call.method_ == METHOD_CALL_TOOL && call.dispatched == "" then CreditUnobserved
    else CreditAsserted
  }

  /** creditOfOutcome */
  function CreditOfOutcome(call: Call): Credit {
    if call.testStatus == STATUS_SKIPPED then CreditSkipped
    else if call.testStatus != STATUS_PASSED then CreditFailed
    else if call.purpose == PURPOSE_CLEANUP then (if call.outcome == OUTCOME_OK then CreditCleanup else NoCredit)
    else CreditOfAnswer(call)
  }

  /** The action the server said it ran, or the one the test named. */
  function Target(call: Call): string {
    if call.dispatched != "" then call.dispatched else call.action
  }

  /** creditOf */
  function CreditOf(call: Call): (Credit, string) {
    var target := Target(call);
    if target == "" || call.purpose == PURPOSE_RAW || call.purpose == PURPOSE_MODEL then (NoCredit, "")
    else (CreditOfOutcome(call), target)
  }

  /** Asserted is a successful answer to a call a passing test made for its own sake, and dispatched if it names a tool. */
  lemma AssertedExactly(call: Call)
    ensures CreditOf(call) == (CreditAsserted, Target(call)) <==>
      && call.testStatus == STATUS_PASSED && call.outcome == OUTCOME_OK && Target(call) != ""
      && call.purpose !in {PURPOSE_RAW, PURPOSE_MODEL, PURPOSE_CLEANUP, PURPOSE_SWEEP}
      && (call.method_ == METHOD_CALL_TOOL ==> call.dispatched != "")
  {
    assert OUTCOME_OK[0] != OUTCOME_REFUSED_PREFIX[0];
  }

  /** Nothing better than failed is earned outside a passing test, or by a raw or a model call. */
  lemma PastFailedOnlyWhenPassed(call: Call)
    requires Rank(CreditOf(call).0) > Rank(CreditFailed)
    ensures call.testStatus == STATUS_PASSED && call.purpose != PURPOSE_RAW && call.purpose != PURPOSE_MODEL
    ensures CreditOf(call).1 == Target(call) != ""
  {}

  /** An error answer counts as an error path or as nothing, and never as a success. */
  lemma ErrorsNeverSucceed(call: Call)
    requires call.outcome != OUTCOME_OK
    ensures CreditOf(call).0 !in {CreditCleanup, CreditSweep, CreditUnobserved, CreditAsserted}
  {}
}
