/** The wizard's Previous and Next buttons: when each is disabled, and the
    step change a click on an enabled button makes. `busy` is the wizard's
    own loading flag, an input of the model. */
module Navigation {
  import opened Campaign

  /** Previous is disabled while the wizard is busy and on the first step. */
  predicate PreviousDisabled(s: State, busy: bool) {
    busy || s.step == PromptStep
  }

  /** The gate of the step being left: a prompt to leave step 0, an
      audience to leave step 2, a resolution to leave step 3. Steps 1 and 4
      have no gate of their own. */
  predicate StepInputMissing(s: State) {
    || (s.step == PromptStep && |s.prompt| == 0)
    || (s.step == AudienceStep && |s.audiences| == 0)
    || (s.step == ResolutionStep && |s.resolutions| == 0)
  }

  /** Next is disabled while busy, on the last step, or while the current
      step's input is missing. */
  predicate NextDisabled(s: State, busy: bool) {
    busy || s.step == LastStep || StepInputMissing(s)
  }

  /** A request of the current step's own is in flight: the extraction at
      step 1, the audience fetch at step 2, the generation at step 4. Each
      step keeps this in its own loading flag, which the buttons do not read. */
  predicate InFlight(s: State) {
    || (s.step == DocumentStep && s.extracting)
    || (s.step == AudienceStep && s.fetchingAudiences)
    || (s.step == GenerationStep && s.loading)
  }

  /** The stage rule for moving forward: a non-empty prompt to leave stage 0,
      at least one audience to leave stage 2 and exactly one resolution to
      leave stage 3; never from the last stage, and never while the wizard is
      busy or the current stage's request is in flight. */
  predicate CanAdvance(s: State, busy: bool) {
    && !busy
    && !InFlight(s)
    && s.step < LastStep
    && (s.step == PromptStep ==> |s.prompt| > 0)
    && (s.step == AudienceStep ==> |s.audiences| >= 1)
    && (s.step == ResolutionStep ==> |s.resolutions| == 1)
  }

  /** The stage rule for moving back: from any stage but the first, never
      while the wizard is busy or the current stage's request is in flight. */
  predicate CanRetreat(s: State, busy: bool) {
    !busy && !InFlight(s) && s.step != PromptStep
  }

  /** A click on Next: one step forward when the button is enabled. */
  function Next(s: State, busy: bool): (r: State)
    ensures r.(step := s.step) == s
    ensures s.step <= LastStep ==> r.step <= LastStep
    ensures r.step == s.step + 1 <==> !NextDisabled(s, busy)
    ensures r.step == s.step <==> NextDisabled(s, busy)
  {
    if NextDisabled(s, busy) then s else s.(step := s.step + 1)
  }

  /** A click on Previous: one step back when the button is enabled. */
  function Previous(s: State, busy: bool): (r: State)
    ensures r.(step := s.step) == s
    ensures r.step + 1 == s.step <==> !PreviousDisabled(s, busy)
    ensures r.step == s.step <==> PreviousDisabled(s, busy)
  {
    if PreviousDisabled(s, busy) then s else s.(step := s.step - 1)
  }

  /** Next is enabled exactly when the stage rule allows an advance, provided
      at most one resolution is selected and no request of the current step
      is in flight. Otherwise the buttons advance where the rule would not:
      with two resolutions selected, or while the extraction or the audience
      fetch is pending. */
  lemma NextMatchesStageRule(s: State, busy: bool)
    requires s.step <= LastStep
    ensures |s.resolutions| <= 1 && !InFlight(s) ==> (!NextDisabled(s, busy) <==> CanAdvance(s, busy))
    ensures s.step == ResolutionStep && !busy && |s.resolutions| > 1 ==>
      !NextDisabled(s, busy) && !CanAdvance(s, busy)
    ensures s.step == DocumentStep && !busy && s.extracting ==>
      !NextDisabled(s, busy) && !CanAdvance(s, busy)
    ensures s.step == AudienceStep && !busy && s.fetchingAudiences && |s.audiences| > 0 ==>
      !NextDisabled(s, busy) && !CanAdvance(s, busy)
  {
  }

  /** Previous is enabled exactly when the stage rule allows a retreat,
      except while a request of the current step is in flight, when it is
      enabled although the rule forbids it. */
  lemma PreviousMatchesStageRule(s: State, busy: bool)
    ensures !InFlight(s) ==> (!PreviousDisabled(s, busy) <==> CanRetreat(s, busy))
    ensures InFlight(s) && !busy ==> !PreviousDisabled(s, busy) && !CanRetreat(s, busy)
  {
  }

  /** Leaving the document step is never gated by the features or the
      uploaded document. */
  lemma DocumentStepUngated(s: State, busy: bool)
    requires s.step == DocumentStep
    ensures !NextDisabled(s, busy) <==> !busy
  {
  }

  /** Each gate reads only its own step's input: two states at the same step
      that agree on that input agree on whether Next is enabled. */
  lemma GateReadsOwnInput(s: State, t: State, busy: bool)
    requires s.step == t.step
    requires s.step == PromptStep ==> s.prompt == t.prompt
    requires s.step == AudienceStep ==> s.audiences == t.audiences
    requires s.step == ResolutionStep ==> s.resolutions == t.resolutions
    ensures NextDisabled(s, busy) <==> NextDisabled(t, busy)
  {
  }

  /** Previous then Next returns to the same state from any step but the
      first, when the wizard is idle and the step left has its input. */
  lemma PreviousThenNext(s: State)
    requires 0 < s.step <= LastStep
    ensures !StepInputMissing(Previous(s, false)) ==> Next(Previous(s, false), false) == s
  {
  }
}
