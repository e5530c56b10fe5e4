/** The whole wizard as one state machine: the initial state of `App`, the
    events the user, the server and the channel can produce, and the
    invariants every run from the initial state keeps. */
module App {
  import opened Wrappers
  import opened Sorting
  import opened Selection
  import opened Campaign
  import opened Features
  import opened Audiences
  import opened Resolutions
  import opened Navigation
  import opened Session
  import opened Results

  /** The resolutions offered, in the order the source lists them. */
  const OfferedResolutions: seq<Resolution> :=
    [Resolution(360, 640, 0), Resolution(414, 896, 1), Resolution(512, 512, 2)]

  /** The state `App` starts in: everything empty except the resolution list
      (sorted by width) and the image store, an empty map. */
  function Init(): (s: State)
    ensures s.step == PromptStep && s.prompt == []
    ensures s.features == [] && s.audiences == [] && s.resolutions == []
    ensures s.featureList == [] && s.audienceList == []
    ensures s.resolutionList == SortBy(OfferedResolutions, WidthLe)
    ensures s.images == Some(map[]) && s.emails == map[]
    ensures !s.generateClicked && s.channels == [] && s.outbox == []
  {
    State(
      prompt := [], specDoc := None,
      featureList := [], features := [],
      audienceList := [], audiences := [],
      resolutionList := SortBy(OfferedResolutions, WidthLe), resolutions := [],
      images := Some(map[]), emails := map[],
      step := PromptStep,
      extracting := false, fetchingAudiences := false,
      mount := 0, generateClicked := false, channels := [], outbox := [],
      loading := false, message := [], closeFlag := false, reconnects := 0,
      logoDialogOpen := false, emailDialogOpen := false, emailSending := false)
  }

  /** The offered resolutions are already in width order, so sorting leaves
      them as listed. */
  lemma InitialResolutionsInOrder()
    ensures SortBy(OfferedResolutions, WidthLe) == OfferedResolutions
  {
    var a := Resolution(360, 640, 0);
    var b := Resolution(414, 896, 1);
    var c := Resolution(512, 512, 2);
    assert OfferedResolutions[1..] == [b, c];
    assert OfferedResolutions[1..][1..] == [c];
    assert [c][1..] == [];
    assert SortBy([c], WidthLe) == [c];
    assert SortBy([b, c], WidthLe) == [b, c];
  }

  /** Everything that can happen to the wizard. Network replies, inbound
      frames and the channel a frame or a close concerns are carried by the
      events. */
  datatype Event =
    | EditPrompt(text: string)
    | Upload(file: Option<string>)
    | Extracted(ownMount: bool, extraction: Reply<Extraction>)
    | TapFeature(f: Feature)
    | EnterAudiences
    | AudiencesArrived(ownMount: bool, segments: Reply<Extraction>)
    | TapAudience(tag: string)
    | EnterResolutions
    | TapResolution(res: Resolution)
    | GoNext(busy: bool)
    | GoBack(busy: bool)
    | CreateCampaign
    | Opened(ch: nat)
    | Received(ch: nat, frame: Frame)
    | Closed(ch: nat)
    | ShowLogoDialog
    | LogoChosen(target: string, checked: bool, file: Option<string>, logo: Reply<Buckets>)
    | CancelLogo
    | ShowMailDialog
    | AskEmail(target: string, email: Reply<EmailBody>)
    | Send(sent: Reply<()>)
    | CancelMail

  /** A modal dialog of step 5 is open; it blocks every click outside it. */
  predicate ModalOpen(s: State) {
    s.logoDialogOpen || s.emailDialogOpen
  }

  /** A click on step `step`'s page, which must be on screen and not behind
      a dialog. */
  predicate PageClick(s: State, step: nat) {
    s.step == step && !ModalOpen(s)
  }

  /** Which events can happen. A tag, button or dialog can be clicked only
      when it is rendered: the tags of the current step (steps 2 and 3 show a
      spinner instead while their request is pending), Create Campaign until
      it is clicked, the result view's buttons once generation is done, a
      dialog's buttons while it is open, and Send and the email dialog's
      Cancel only while no send is pending. A step's mount happens on that
      step. Replies, frames and closes can arrive at any time. */
  predicate Admissible(s: State, e: Event) {
    match e
    case EditPrompt(_) => PageClick(s, PromptStep)
    case Upload(_) => PageClick(s, DocumentStep)
    case TapFeature(f) => PageClick(s, DocumentStep) && !s.extracting && f in s.featureList
    case EnterAudiences => s.step == AudienceStep
    case TapAudience(tag) => PageClick(s, AudienceStep) && !s.fetchingAudiences && tag in s.audienceList
    case EnterResolutions => s.step == ResolutionStep
    case TapResolution(res) => PageClick(s, ResolutionStep) && res in s.resolutionList
    case GoNext(_) => !ModalOpen(s)
    case GoBack(_) => !ModalOpen(s)
    case CreateCampaign => PageClick(s, GenerationStep) && !s.generateClicked
    case ShowLogoDialog => PageClick(s, GenerationStep) && s.generateClicked && !s.loading
    case ShowMailDialog => PageClick(s, GenerationStep) && s.generateClicked && !s.loading
    case LogoChosen(_, _, _, _) => s.logoDialogOpen
    case CancelLogo => s.logoDialogOpen
    case AskEmail(_, _) => s.emailDialogOpen
    case Send(_) => s.emailDialogOpen && !s.emailSending
    case CancelMail => s.emailDialogOpen && !s.emailSending
    case _ => true
  }

  /** A click on Next. The wizard renders only the current step, so the
      step it moves to is mounted afresh: step 2 with its loading flag down,
      step 5 with all its local state reset. Steps 3 and 4 mount through
      their own events. */
  function NextClicked(s: State, busy: bool): (r: State)
    ensures r.step == Next(s, busy).step
    ensures r.step == GenerationStep && s.step != GenerationStep ==>
      && r.mount == s.mount + 1 && !r.generateClicked && !r.loading && !r.closeFlag
      && r.channels == s.channels && r.outbox == s.outbox
    ensures r.step == DocumentStep && s.step != DocumentStep ==> r == Next(s, busy).(extracting := false)
    ensures r.step == s.step || (r.step != GenerationStep && r.step != DocumentStep) ==> r == Next(s, busy)
  {
    var n := Next(s, busy);
    if n.step == s.step then n
    else if n.step == GenerationStep then MountGeneration(n)
    else if n.step == DocumentStep then n.(extracting := false)
    else n
  }

  /** A click on Previous; the step it moves back to is mounted afresh, which
      for step 2 means its loading flag is down. */
  function PreviousClicked(s: State, busy: bool): (r: State)
    ensures r.step == Previous(s, busy).step
    ensures r.step == DocumentStep && s.step != DocumentStep ==> r == Previous(s, busy).(extracting := false)
    ensures r.step == s.step || r.step != DocumentStep ==> r == Previous(s, busy)
  {
    var p := Previous(s, busy);
    if p.step == DocumentStep && s.step != DocumentStep then p.(extracting := false) else p
  }

  function Apply(s: State, e: Event): State {
    match e
    case EditPrompt(text) => s.(prompt := text)
    case Upload(file) => s.(specDoc := file, extracting := true)
    case Extracted(ownMount, extraction) => FileUploaded(s, extraction, ownMount)
    case TapFeature(f) => ClickFeature(s, f)
    case EnterAudiences => MountAudiences(s)
    case AudiencesArrived(ownMount, segments) => AudiencesFetched(s, segments, ownMount)
    case TapAudience(tag) => ClickAudience(s, tag)
    case EnterResolutions => MountResolutions(s)
    case TapResolution(res) => ClickResolution(s, res)
    case GoNext(busy) => NextClicked(s, busy)
    case GoBack(busy) => PreviousClicked(s, busy)
    case CreateCampaign => GenerateClicked(s)
    case Opened(ch) => SocketOpened(s, ch)
    case Received(ch, frame) => FrameReceived(s, ch, frame)
    case Closed(ch) => SocketClosed(s, ch)
    case ShowLogoDialog => s.(logoDialogOpen := true)
    case LogoChosen(target, checked, file, logo) => LogoUploaded(s, target, checked, file, logo)
    case CancelLogo => s.(logoDialogOpen := false, emailDialogOpen := false)
    case ShowMailDialog => s.(emailDialogOpen := true)
    case AskEmail(target, email) => GenerateEmail(s, target, email)
    case Send(sent) => SendMail(s, sent)
    case CancelMail => s.(logoDialogOpen := false, emailDialogOpen := false)
  }

  /** Applies the events in order; an event that cannot happen in the state
      reached (a click on a tag not displayed) is skipped. */
  function Run(s: State, es: seq<Event>): State
    decreases |es|
  {
    if |es| == 0 then s
    else Run(if Admissible(s, es[0]) then Apply(s, es[0]) else s, es[1..])
  }

  /** The feature selection is consistent with the feature list, which a
      failed request may have emptied. */
  ghost predicate FeaturesOk(list: seq<Feature>, sel: seq<Feature>) {
    Consistent(list, sel, FeatureId)
  }

  /** The resolution selection is part of the resolution list, whose ids are
      distinct, and holds at most one resolution. */
  ghost predicate ResolutionsOk(list: seq<Resolution>, sel: seq<Resolution>) {
    SelectionInv(list, sel, ResolutionId) && |sel| <= 1
  }

  /** What holds in every reachable state: the selections are consistent
      with their lists, selected audiences are distinct, the channel log is
      consistent and the step is one of the five. */
  ghost predicate Inv(s: State) {
    && FeaturesOk(s.featureList, s.features)
    && UniqueIds(s.audiences, LabelId)
    && ResolutionsOk(s.resolutionList, s.resolutions)
    && ChannelInv(s.generateClicked, s.closeFlag, s.mount, s.channels, s.outbox)
    && s.step <= LastStep
  }

  /** `r` agrees with `s` on step 5's click, close flag and mount, and on the
      channel log. */
  predicate SameLog(s: State, r: State) {
    && r.generateClicked == s.generateClicked && r.closeFlag == s.closeFlag && r.mount == s.mount
    && r.channels == s.channels && r.outbox == s.outbox
  }

  lemma InitInv()
    ensures Inv(Init())
  {
    InitialResolutionsInOrder();
    OfferedResolutionsOk();
    assert ChannelInv(false, false, 0, [], []);
  }

  /** The offered resolutions carry distinct ids. */
  lemma OfferedResolutionsOk()
    ensures ResolutionsOk(OfferedResolutions, [])
  {
  }

  lemma UploadKeepsInv(s: State, reply: Reply<Extraction>, ownMount: bool)
    requires Inv(s)
    ensures Inv(FileUploaded(s, reply, ownMount))
  {
    var r := FileUploaded(s, reply, ownMount);
    assert r.resolutions == s.resolutions && r.resolutionList == s.resolutionList;
    assert SameLog(s, r);
    assert r.step == s.step;
    if reply.Ok? && reply.status == 200 {
      assert SelectionInv(r.featureList, r.features, FeatureId);
    }
  }

  lemma FeatureClickKeepsInv(s: State, f: Feature)
    requires Inv(s) && f in s.featureList
    ensures Inv(ClickFeature(s, f))
  {
    var r := ClickFeature(s, f);
    ClickFeatureKeepsInv(s, f);
    assert r.audiences == s.audiences && r.step == s.step;
    assert r.resolutions == s.resolutions && r.resolutionList == s.resolutionList;
    assert SameLog(s, r);
  }

  /** Clicking an audience keeps the selected labels distinct. */
  lemma AudienceClickKeepsInv(s: State, tag: string)
    requires Inv(s)
    ensures Inv(ClickAudience(s, tag))
  {
    var r := ClickAudience(s, tag);
    var t := ToggleById(s.audiences, tag, LabelId);
    ToggleKeepsUniqueIds(s.audiences, tag, LabelId);
    UniqueIdsPermutation(t, SortBy(t, StrLe), LabelId);
    assert r.featureList == s.featureList && r.features == s.features && r.step == s.step;
    assert r.resolutions == s.resolutions && r.resolutionList == s.resolutionList;
    assert SameLog(s, r);
  }

  /** Entering the audience step keeps the selected labels distinct. */
  lemma AudienceMountKeepsInv(s: State)
    requires Inv(s)
    ensures Inv(MountAudiences(s))
  {
    var r := MountAudiences(s);
    UniqueIdsPermutation(s.audiences, r.audiences, LabelId);
    assert r.featureList == s.featureList && r.features == s.features && r.step == s.step;
    assert r.resolutions == s.resolutions && r.resolutionList == s.resolutionList;
    assert SameLog(s, r);
  }

  lemma AudienceFetchKeepsInv(s: State, reply: Reply<Extraction>, ownMount: bool)
    requires Inv(s)
    ensures Inv(AudiencesFetched(s, reply, ownMount))
  {
    var r := AudiencesFetched(s, reply, ownMount);
    assert r.featureList == s.featureList && r.features == s.features && r.step == s.step;
    assert r.resolutions == s.resolutions && r.resolutionList == s.resolutionList;
    assert SameLog(s, r);
  }

  lemma ResolutionClickKeepsInv(s: State, res: Resolution)
    requires Inv(s) && res in s.resolutionList
    ensures Inv(ClickResolution(s, res))
  {
    var r := ClickResolution(s, res);
    ClickResolutionKeepsInv(s, res);
    assert r.featureList == s.featureList && r.features == s.features && r.step == s.step;
    assert r.audiences == s.audiences;
    assert SameLog(s, r);
  }

  lemma ResolutionMountKeepsInv(s: State)
    requires Inv(s)
    ensures Inv(MountResolutions(s))
  {
    var r := MountResolutions(s);
    MountResolutionsKeepsInv(s);
    assert r.featureList == s.featureList && r.features == s.features && r.step == s.step;
    assert r.audiences == s.audiences && r.resolutions == s.resolutions;
    assert SameLog(s, r);
  }

  /** `r` agrees with `s` on every field the invariant reads, except
      possibly the step. */
  predicate Untouched(s: State, r: State) {
    SameChoices(s, r) && SameLog(s, r)
  }

  /** A transition that leaves the lists and selections alone keeps the
      invariant when the new channel log is consistent and the step stays in
      range. */
  lemma ChoicesKeepInv(s: State, r: State)
    requires Inv(s) && SameChoices(s, r) && r.step <= LastStep
    requires ChannelInv(r.generateClicked, r.closeFlag, r.mount, r.channels, r.outbox)
    ensures Inv(r)
  {
  }

  /** A transition that leaves every field the invariant reads, except
      possibly the step, keeps it when the step stays in range. */
  lemma UntouchedKeepsInv(s: State, r: State)
    requires Inv(s) && Untouched(s, r) && r.step <= LastStep
    ensures Inv(r)
  {
  }

  /** Closes, navigation and the result events leave the selections and the
      channel log alone. */
  lemma CloseUntouched(s: State, ch: nat)
    ensures Untouched(s, SocketClosed(s, ch)) && SocketClosed(s, ch).step == s.step
  {
  }

  lemma NavigationUntouched(s: State, busy: bool)
    ensures Untouched(s, Next(s, busy)) && Untouched(s, Previous(s, busy))
  {
  }

  lemma LogoUntouched(s: State, target: string, checked: bool, file: Option<string>, logo: Reply<Buckets>)
    ensures Untouched(s, LogoUploaded(s, target, checked, file, logo))
    ensures LogoUploaded(s, target, checked, file, logo).step == s.step
  {
  }

  lemma EmailUntouched(s: State, target: string, email: Reply<EmailBody>)
    ensures Untouched(s, GenerateEmail(s, target, email)) && GenerateEmail(s, target, email).step == s.step
  {
  }

  lemma SendUntouched(s: State, sent: Reply<()>)
    ensures Untouched(s, SendMail(s, sent)) && SendMail(s, sent).step == s.step
  {
  }

  lemma GenerateKeepsInv(s: State)
    requires Inv(s)
    ensures Inv(GenerateClicked(s))
  {
    var r := GenerateClicked(s);
    GenerateKeepsSessionInv(s);
    assert r.featureList == s.featureList && r.features == s.features && r.step == s.step;
    assert r.audiences == s.audiences;
    assert r.resolutions == s.resolutions && r.resolutionList == s.resolutionList;
  }

  lemma OpenKeepsInv(s: State, ch: nat)
    requires Inv(s)
    ensures Inv(SocketOpened(s, ch))
  {
    OpenKeepsSessionInv(s, ch);
    OpenKeepsChoices(s, ch);
    ChoicesKeepInv(s, SocketOpened(s, ch));
  }

  /** The events of the three selection steps keep the invariant. */
  lemma SelectionEventKeepsInv(s: State, e: Event)
    requires Inv(s) && Admissible(s, e)
    requires e.Extracted? || e.TapFeature? || e.EnterAudiences? || e.AudiencesArrived?
          || e.TapAudience? || e.EnterResolutions? || e.TapResolution?
    ensures Inv(Apply(s, e))
  {
    if e.Extracted? {
      UploadKeepsInv(s, e.extraction, e.ownMount);
    } else if e.TapFeature? {
      FeatureClickKeepsInv(s, e.f);
    } else if e.EnterAudiences? {
      AudienceMountKeepsInv(s);
    } else if e.AudiencesArrived? {
      AudienceFetchKeepsInv(s, e.segments, e.ownMount);
    } else if e.TapAudience? {
      AudienceClickKeepsInv(s, e.tag);
    } else if e.EnterResolutions? {
      ResolutionMountKeepsInv(s);
    } else {
      ResolutionClickKeepsInv(s, e.res);
    }
  }

  /** The click and the opens keep the invariant. */
  lemma ChannelEventKeepsInv(s: State, e: Event)
    requires Inv(s)
    requires e.CreateCampaign? || e.Opened?
    ensures Inv(Apply(s, e))
  {
    if e.CreateCampaign? {
      GenerateKeepsInv(s);
    } else {
      OpenKeepsInv(s, e.ch);
    }
  }

  lemma ReceivedKeepsInv(s: State, e: Event)
    requires Inv(s) && e.Received?
    ensures Inv(Apply(s, e))
  {
    var r := FrameReceived(s, e.ch, e.frame);
    FrameKeepsSessionInv(s, e.ch, e.frame);
    FrameKeepsSelections(s, e.ch, e.frame);
    assert Apply(s, e) == r;
  }

  lemma ClosedKeepsInv(s: State, e: Event)
    requires Inv(s) && e.Closed?
    ensures Inv(Apply(s, e))
  {
    CloseUntouched(s, e.ch);
    UntouchedKeepsInv(s, SocketClosed(s, e.ch));
  }

  /** Entering step 5 keeps the invariant: the new mount has no channel. */
  lemma MountGenerationKeepsInv(s: State)
    requires Inv(s)
    ensures Inv(MountGeneration(s))
  {
    var r := MountGeneration(s);
    MountKeepsSessionInv(s);
    assert r.featureList == s.featureList && r.features == s.features && r.step == s.step;
    assert r.audiences == s.audiences;
    assert r.resolutions == s.resolutions && r.resolutionList == s.resolutionList;
  }

  /** Navigation keeps the step in range; entering step 5 remounts it. */
  lemma NextKeepsInv(s: State, e: Event)
    requires Inv(s) && e.GoNext?
    ensures Inv(Apply(s, e))
  {
    assert Apply(s, e) == NextClicked(s, e.busy);
    NextClickedKeepsInv(s, e.busy);
  }

  lemma NextClickedKeepsInv(s: State, busy: bool)
    requires Inv(s)
    ensures Inv(NextClicked(s, busy))
  {
    var n := Next(s, busy);
    NavigationUntouched(s, busy);
    UntouchedKeepsInv(s, n);
    if n.step == s.step {
      assert NextClicked(s, busy) == n;
    } else if n.step == GenerationStep {
      MountGenerationKeepsInv(n);
      assert NextClicked(s, busy) == MountGeneration(n);
    } else if n.step == DocumentStep {
      UntouchedKeepsInv(s, n.(extracting := false));
      assert NextClicked(s, busy) == n.(extracting := false);
    } else {
      assert NextClicked(s, busy) == n;
    }
  }

  lemma BackKeepsInv(s: State, e: Event)
    requires Inv(s) && e.GoBack?
    ensures Inv(Apply(s, e))
  {
    assert Apply(s, e) == PreviousClicked(s, e.busy);
    PreviousClickedKeepsInv(s, e.busy);
  }

  lemma PreviousClickedKeepsInv(s: State, busy: bool)
    requires Inv(s)
    ensures Inv(PreviousClicked(s, busy))
  {
    var p := Previous(s, busy);
    NavigationUntouched(s, busy);
    if p.step == DocumentStep && s.step != DocumentStep {
      UntouchedKeepsInv(s, p.(extracting := false));
    } else {
      UntouchedKeepsInv(s, p);
    }
  }

  /** The result events touch nothing the invariant reads. */
  lemma LogoKeepsInv(s: State, e: Event)
    requires Inv(s) && e.LogoChosen?
    ensures Inv(Apply(s, e))
  {
    var r := LogoUploaded(s, e.target, e.checked, e.file, e.logo);
    LogoUntouched(s, e.target, e.checked, e.file, e.logo);
    UntouchedKeepsInv(s, r);
    assert Apply(s, e) == r;
  }

  lemma EmailKeepsInv(s: State, e: Event)
    requires Inv(s) && e.AskEmail?
    ensures Inv(Apply(s, e))
  {
    var r := GenerateEmail(s, e.target, e.email);
    EmailUntouched(s, e.target, e.email);
    UntouchedKeepsInv(s, r);
    assert Apply(s, e) == r;
  }

  lemma SendKeepsInv(s: State, e: Event)
    requires Inv(s) && e.Send?
    ensures Inv(Apply(s, e))
  {
    var r := SendMail(s, e.sent);
    SendUntouched(s, e.sent);
    UntouchedKeepsInv(s, r);
    assert Apply(s, e) == r;
  }

  /** Editing the prompt, choosing a file and opening or closing dialogs
      touch nothing the invariant reads. */
  lemma FlagEventKeepsInv(s: State, e: Event)
    requires Inv(s)
    requires e.EditPrompt? || e.Upload? || e.ShowLogoDialog? || e.ShowMailDialog? || e.CancelLogo? || e.CancelMail?
    ensures Inv(Apply(s, e))
  {
    UntouchedKeepsInv(s, Apply(s, e));
  }

  /** Every admissible event keeps the invariant. */
  lemma ApplyKeepsInv(s: State, e: Event)
    requires Inv(s) && Admissible(s, e)
    ensures Inv(Apply(s, e))
  {
    if e.Extracted? || e.TapFeature? || e.EnterAudiences? || e.AudiencesArrived?
       || e.TapAudience? || e.EnterResolutions? || e.TapResolution? {
      SelectionEventKeepsInv(s, e);
    } else if e.CreateCampaign? || e.Opened? {
      ChannelEventKeepsInv(s, e);
    } else if e.Received? {
      ReceivedKeepsInv(s, e);
    } else if e.Closed? {
      ClosedKeepsInv(s, e);
    } else if e.GoNext? {
      NextKeepsInv(s, e);
    } else if e.GoBack? {
      BackKeepsInv(s, e);
    } else if e.LogoChosen? {
      LogoKeepsInv(s, e);
    } else if e.AskEmail? {
      EmailKeepsInv(s, e);
    } else if e.Send? {
      SendKeepsInv(s, e);
    } else {
      FlagEventKeepsInv(s, e);
    }
  }

  /** Every run keeps the invariant. */
  lemma {:induction false} RunKeepsInv(s: State, es: seq<Event>)
    requires Inv(s)
    ensures Inv(Run(s, es))
    decreases |es|
  {
    if |es| > 0 {
      var next := if Admissible(s, es[0]) then Apply(s, es[0]) else s;
      if Admissible(s, es[0]) {
        ApplyKeepsInv(s, es[0]);
      }
      RunKeepsInv(next, es[1..]);
    }
  }

  /** Whatever happens, at most one resolution is ever selected; every frame
      sent is the request captured by the click that created its channel;
      each mount of step 5 creates at most one channel; and every close of
      any channel schedules a reconnect, so no channel stops reconnecting,
      not even after its result arrived. */
  lemma ReachableFacts(es: seq<Event>)
    ensures var s := Run(Init(), es);
      && |s.resolutions| <= 1
      && s.step <= LastStep
      && (forall k :: 0 <= k < |s.outbox| ==>
            s.outbox[k].channel < |s.channels| && s.outbox[k].request == s.channels[s.outbox[k].channel].request)
      && (forall i, j :: 0 <= i < j < |s.channels| ==> s.channels[i].mount < s.channels[j].mount)
      && (forall ch: nat :: ch < |s.channels| ==> SocketClosed(s, ch).reconnects == s.reconnects + 1)
  {
    InitInv();
    RunKeepsInv(Init(), es);
  }

  /** A run of events each admissible where it arrives is their
      composition. */
  lemma RunAdmissible4(s: State, e0: Event, e1: Event, e2: Event, e3: Event)
    requires Admissible(s, e0) && Admissible(Apply(s, e0), e1)
    requires Admissible(Apply(Apply(s, e0), e1), e2)
    requires Admissible(Apply(Apply(Apply(s, e0), e1), e2), e3)
    ensures Run(s, [e0, e1, e2, e3]) == Apply(Apply(Apply(Apply(s, e0), e1), e2), e3)
  {
    var es := [e0, e1, e2, e3];
    RunStep(s, es);
    RunStep(Apply(s, e0), es[1..]);
    RunStep(Apply(Apply(s, e0), e1), es[1..][1..]);
    RunStep(Apply(Apply(Apply(s, e0), e1), e2), es[1..][1..][1..]);
    assert es[1..][1..][1..][1..] == [];
  }

  /** An admissible first event is applied before the rest run. */
  lemma RunStep(s: State, es: seq<Event>)
    requires |es| > 0 && Admissible(s, es[0])
    ensures Run(s, es) == Run(Apply(s, es[0]), es[1..])
  {
  }

  /** Back from step 5, a click on an unselected resolution and Next mount
      step 5 afresh with that resolution alone selected and the channels
      untouched. */
  lemma RemountWithResolution(s: State, res: Resolution)
    requires Inv(s) && s.step == GenerationStep && !ModalOpen(s)
    requires res in s.resolutionList && !HasId(s.resolutions, res.id, ResolutionId)
    ensures var s1 := Apply(s, GoBack(false));
      var s2 := Apply(s1, TapResolution(res));
      var s3 := Apply(s2, GoNext(false));
      && Admissible(s, GoBack(false)) && Admissible(s1, TapResolution(res)) && Admissible(s2, GoNext(false))
      && s3.step == GenerationStep && !s3.generateClicked && !ModalOpen(s3)
      && s3.channels == s.channels && s3.resolutions == [res]
  {
    var s1 := Previous(s, false);
    assert s1.step == ResolutionStep && !ModalOpen(s1);
    var s2 := ClickResolution(s1, res);
    assert s2.resolutions == [res] && s2.step == ResolutionStep && !ModalOpen(s2);
    assert Apply(s1, TapResolution(res)) == s2;
    var s3 := NextClicked(s2, false);
    assert s3.step == GenerationStep && !s3.generateClicked && s3.channels == s.channels;
  }

  /** Going back from step 5, choosing another resolution and coming forward
      again remounts step 5 and brings Create Campaign back. A second click
      creates a second channel whose request carries the new resolution,
      while an earlier channel, which never stops reconnecting, still sends
      its own request on every open. */
  lemma SecondCampaignAfterRemount(s: State, res: Resolution, k: nat)
    requires Inv(s) && s.step == GenerationStep && !ModalOpen(s) && k < |s.channels|
    requires res in s.resolutionList && !HasId(s.resolutions, res.id, ResolutionId)
    ensures var r := Run(s, [GoBack(false), TapResolution(res), GoNext(false), CreateCampaign]);
      && |r.channels| == |s.channels| + 1
      && r.channels[k] == s.channels[k]
      && r.channels[|s.channels|].request.imageResolutions == [res]
      && SocketOpened(r, k).outbox[|r.outbox|] == Sent(k, s.channels[k].request)
  {
    RemountWithResolution(s, res);
    var s3 := Apply(Apply(Apply(s, GoBack(false)), TapResolution(res)), GoNext(false));
    assert Admissible(s3, CreateCampaign);
    RunAdmissible4(s, GoBack(false), TapResolution(res), GoNext(false), CreateCampaign);
    var r := GenerateClicked(s3);
    assert r.channels[..|s.channels|] == s.channels;
  }

  /** Only Create Campaign touches the channels, and it appends one: no
      event rewrites or drops a channel already created. */
  lemma ApplyKeepsChannels(s: State, e: Event)
    ensures |s.channels| <= |Apply(s, e).channels|
    ensures Apply(s, e).channels[..|s.channels|] == s.channels
  {
    if e.CreateCampaign? {
    } else if e.Received? {
      FrameKeepsSelections(s, e.ch, e.frame);
    } else {
      OtherEventKeepsChannels(s, e);
    }
  }

  lemma OtherEventKeepsChannels(s: State, e: Event)
    requires !e.CreateCampaign? && !e.Received?
    ensures Apply(s, e).channels == s.channels
  {
    if e.EditPrompt? || e.Upload? || e.Extracted? || e.TapFeature? || e.EnterAudiences? {
      StepOneTwoEventKeepsChannels(s, e);
    } else if e.AudiencesArrived? || e.TapAudience? || e.EnterResolutions? || e.TapResolution? {
      StepThreeFourEventKeepsChannels(s, e);
    } else if e.GoNext? || e.GoBack? || e.Opened? || e.Closed? {
      NavigationKeepsChannels(s, e);
    } else {
      DialogEventKeepsChannels(s, e);
    }
  }

  lemma StepOneTwoEventKeepsChannels(s: State, e: Event)
    requires e.EditPrompt? || e.Upload? || e.Extracted? || e.TapFeature? || e.EnterAudiences?
    ensures Apply(s, e).channels == s.channels
  {
  }

  lemma StepThreeFourEventKeepsChannels(s: State, e: Event)
    requires e.AudiencesArrived? || e.TapAudience? || e.EnterResolutions? || e.TapResolution?
    ensures Apply(s, e).channels == s.channels
  {
  }

  lemma NavigationKeepsChannels(s: State, e: Event)
    requires e.GoNext? || e.GoBack? || e.Opened? || e.Closed?
    ensures Apply(s, e).channels == s.channels
  {
    if e.GoNext? || e.GoBack? {
      NavigationUntouched(s, e.busy);
      if e.GoNext? {
        assert Apply(s, e) == NextClicked(s, e.busy);
      } else {
        assert Apply(s, e) == PreviousClicked(s, e.busy);
      }
    } else {
      SocketEventKeepsChannels(s, e);
    }
  }

  lemma SocketEventKeepsChannels(s: State, e: Event)
    requires e.Opened? || e.Closed?
    ensures Apply(s, e).channels == s.channels
  {
    if e.Opened? {
      OpenKeepsChannels(s, e.ch);
      assert Apply(s, e) == SocketOpened(s, e.ch);
    } else {
      CloseUntouched(s, e.ch);
      assert Apply(s, e) == SocketClosed(s, e.ch);
    }
  }

  lemma OpenKeepsChannels(s: State, ch: nat)
    ensures SocketOpened(s, ch).channels == s.channels
  {
    var r := SocketOpened(s, ch);
    if Live(s, ch) {
      assert r.(loading := s.loading, message := s.message, outbox := s.outbox) == s;
    } else {
      assert r.(outbox := s.outbox) == s;
    }
  }

  lemma DialogEventKeepsChannels(s: State, e: Event)
    requires e.ShowLogoDialog? || e.LogoChosen? || e.CancelLogo? || e.ShowMailDialog?
          || e.AskEmail? || e.Send? || e.CancelMail?
    ensures Apply(s, e).channels == s.channels
  {
    if e.LogoChosen? {
      LogoUntouched(s, e.target, e.checked, e.file, e.logo);
      assert Apply(s, e) == LogoUploaded(s, e.target, e.checked, e.file, e.logo);
    } else if e.AskEmail? || e.Send? {
      MailEventKeepsChannels(s, e);
    }
  }

  lemma MailEventKeepsChannels(s: State, e: Event)
    requires e.AskEmail? || e.Send?
    ensures Apply(s, e).channels == s.channels
  {
    if e.AskEmail? {
      EmailUntouched(s, e.target, e.email);
      assert Apply(s, e) == GenerateEmail(s, e.target, e.email);
    } else {
      SendUntouched(s, e.sent);
      assert Apply(s, e) == SendMail(s, e.sent);
    }
  }

  /** The channel log only grows along a run, so a channel, once created,
      keeps the request, the flag and the mount of its click. */
  lemma {:induction false} RunKeepsChannels(s: State, es: seq<Event>)
    ensures |s.channels| <= |Run(s, es).channels|
    ensures Run(s, es).channels[..|s.channels|] == s.channels
    decreases |es|
  {
    if |es| > 0 {
      var next := if Admissible(s, es[0]) then Apply(s, es[0]) else s;
      if Admissible(s, es[0]) {
        ApplyKeepsChannels(s, es[0]);
      }
      RunKeepsChannels(next, es[1..]);
      var t := Run(next, es[1..]);
      assert t.channels[..|s.channels|] == t.channels[..|next.channels|][..|s.channels|];
    }
  }

  /** Whatever happens after a click on Create Campaign, every later open of
      the channel it created sends the request built from the selections at
      the click, not from the selections of the moment. */
  lemma EveryReopenResendsClickRequest(s: State, es: seq<Event>)
    requires Admissible(s, CreateCampaign)
    ensures var t := Run(Apply(s, CreateCampaign), es);
      && |s.channels| < |t.channels|
      && SocketOpened(t, |s.channels|).outbox == t.outbox + [Sent(|s.channels|, BuildPayload(s))]
  {
    var c := GenerateClicked(s);
    assert Apply(s, CreateCampaign) == c;
    var t := Run(c, es);
    RunKeepsChannels(c, es);
    assert t.channels[|s.channels|] == c.channels[|s.channels|] by {
      assert t.channels[..|c.channels|][|s.channels|] == t.channels[|s.channels|];
    }
    ReopenSendsChannelRequest(t, |s.channels|);
  }

  lemma ReopenSendsChannelRequest(t: State, ch: nat)
    requires ch < |t.channels|
    ensures SocketOpened(t, ch).outbox == t.outbox + [Sent(ch, t.channels[ch].request)]
  {
    var r := SocketOpened(t, ch);
    assert r.outbox == r.outbox[..|t.outbox|] + [r.outbox[|t.outbox|]];
  }

  /** Next does not wait for the extraction: right after a file is chosen
      the request is in flight, yet Next is enabled and leads to step 3. */
  lemma NextDuringExtraction(s: State, file: Option<string>)
    requires PageClick(s, DocumentStep)
    ensures var t := Apply(s, Upload(file));
      && Admissible(s, Upload(file)) && t.extracting && InFlight(t)
      && Admissible(t, GoNext(false)) && Apply(t, GoNext(false)).step == AudienceStep
  {
    var t := s.(specDoc := file, extracting := true);
    assert Apply(s, Upload(file)) == t;
    DocumentStepUngated(t, false);
  }

  /** The extraction reply writes the wizard's lists wherever it lands. On
      step 3 a reply that arrived clears the audience and feature
      selections, which disables Next there, and the chosen features are
      gone from any later campaign. */
  lemma LateExtractionClearsSelections(s: State, ownMount: bool, reply: Reply<Extraction>, busy: bool)
    requires s.step == AudienceStep && reply.Ok?
    ensures Admissible(s, Extracted(ownMount, reply))
    ensures var r := Apply(s, Extracted(ownMount, reply));
      && r.step == AudienceStep && r.audiences == [] && r.features == [] && NextDisabled(r, busy)
  {
    assert Apply(s, Extracted(ownMount, reply)) == FileUploaded(s, reply, ownMount);
  }

  /** Previous then Next through the wizard returns to the same state, except
      that each step re-entered is mounted afresh: passing through step 2
      lowers its loading flag, and coming back to step 5 resets its local
      state. */
  lemma BackThenForward(s: State)
    requires 0 < s.step <= LastStep && !ModalOpen(s)
    requires !StepInputMissing(Previous(s, false))
    ensures Admissible(s, GoBack(false)) && Admissible(Apply(s, GoBack(false)), GoNext(false))
    ensures var r := Apply(Apply(s, GoBack(false)), GoNext(false));
      && (s.step == ResolutionStep ==> r == s)
      && (s.step == DocumentStep || s.step == AudienceStep ==> r == s.(extracting := false))
      && (s.step == GenerationStep ==> r == MountGeneration(s))
  {
    PreviousThenNext(s);
    BackThenForwardEarly(s);
    BackThenForwardLate(s);
  }

  lemma BackThenForwardEarly(s: State)
    requires 0 < s.step <= LastStep && !ModalOpen(s)
    requires Next(Previous(s, false), false) == s
    ensures var r := NextClicked(PreviousClicked(s, false), false);
      s.step == DocumentStep || s.step == AudienceStep ==> r == s.(extracting := false)
  {
    var back := Previous(s, false);
    if s.step == DocumentStep {
      assert PreviousClicked(s, false) == back;
    } else if s.step == AudienceStep {
      assert PreviousClicked(s, false) == back.(extracting := false);
      assert Next(back.(extracting := false), false) == s.(extracting := false);
    }
  }

  lemma BackThenForwardLate(s: State)
    requires 0 < s.step <= LastStep && !ModalOpen(s)
    requires Next(Previous(s, false), false) == s
    ensures var r := NextClicked(PreviousClicked(s, false), false);
      && (s.step == ResolutionStep ==> r == s)
      && (s.step == GenerationStep ==> r == MountGeneration(s))
  {
    var back := Previous(s, false);
    if s.step == ResolutionStep || s.step == GenerationStep {
      assert PreviousClicked(s, false) == back;
    }
  }

  /** The email dialog is open with a send pending and the logo dialog
      shut. */
  ghost predicate Locked(s: State) {
    s.emailSending && s.emailDialogOpen && !s.logoDialogOpen
  }

  /** A failed send locks the dialog: the sending flag stays raised, so Send
      and Cancel stay disabled, and no other event can close the dialog. */
  lemma FailedSendDisablesSend(s: State, again: Reply<()>)
    requires s.emailDialogOpen && !s.logoDialogOpen
    ensures Locked(SendMail(s, Failed))
    ensures !Admissible(SendMail(s, Failed), Send(again)) && !Admissible(SendMail(s, Failed), CancelMail)
  {
  }

  /** Step 5's channel events leave the dialogs alone. */
  lemma ChannelEventsKeepLock(s: State, ch: nat, f: Frame)
    requires Locked(s)
    ensures Locked(SocketOpened(s, ch)) && Locked(FrameReceived(s, ch, f)) && Locked(SocketClosed(s, ch))
  {
    FrameKeepsDialogs(s, ch, f);
  }

  /** The dialogs' own buttons keep the lock. */
  lemma LockedDialogEventKeepsLock(s: State, e: Event)
    requires Locked(s) && Admissible(s, e)
    requires e.ShowLogoDialog? || e.LogoChosen? || e.CancelLogo? || e.ShowMailDialog? || e.AskEmail?
      || e.Send? || e.CancelMail?
    ensures Locked(Apply(s, e))
  {
  }

  /** The page's own events keep the lock. */
  lemma LockedPageEventKeepsLock(s: State, e: Event)
    requires Locked(s) && Admissible(s, e)
    requires e.EditPrompt? || e.Upload? || e.Extracted? || e.TapFeature? || e.EnterAudiences? || e.AudiencesArrived?
      || e.TapAudience? || e.EnterResolutions? || e.TapResolution? || e.GoNext? || e.GoBack?
      || e.CreateCampaign?
    ensures Locked(Apply(s, e))
  {
  }

  /** While locked, every event that can happen keeps the lock: the dialog is
      modal, so navigation and the page's buttons are unreachable, and the
      dialog's own buttons are disabled. */
  lemma LockedEventKeepsLock(s: State, e: Event)
    requires Locked(s) && Admissible(s, e)
    ensures Locked(Apply(s, e))
  {
    if e.EditPrompt? || e.Upload? || e.Extracted? || e.TapFeature? || e.EnterAudiences? || e.AudiencesArrived?
      || e.TapAudience? || e.EnterResolutions? || e.TapResolution? || e.GoNext? || e.GoBack?
      || e.CreateCampaign?
    {
      LockedPageEventKeepsLock(s, e);
    } else if e.Received? {
      ChannelEventsKeepLock(s, e.ch, e.frame);
    } else if e.Opened? || e.Closed? {
      ChannelEventsKeepLock(s, e.ch, Frame(None, None, None));
    } else {
      LockedDialogEventKeepsLock(s, e);
    }
  }

  /** After a failed send the email dialog never closes. */
  lemma {:induction false} FailedSendLocksDialog(s: State, es: seq<Event>)
    requires Locked(s)
    ensures Locked(Run(s, es))
    decreases |es|
  {
    if |es| > 0 {
      if Admissible(s, es[0]) {
        LockedEventKeepsLock(s, es[0]);
      }
      FailedSendLocksDialog(if Admissible(s, es[0]) then Apply(s, es[0]) else s, es[1..]);
    }
  }
}
