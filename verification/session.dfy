/** Step 5, the generation channels: the mount of the step, the request
    assembled when Create Campaign is clicked, the frame sent on every open,
    the dispatch of inbound frames and the reconnect guard on close. Every
    click creates a channel whose handlers keep the values of that moment. */
module Session {
  import opened Wrappers
  import opened Campaign

  /** Each feature as a one-entry map from its key to its value, in order. */
  function FeatureMaps(features: seq<Feature>): (r: seq<map<string, string>>)
    ensures |r| == |features|
    ensures forall i :: 0 <= i < |r| ==> r[i].Keys == {features[i].key}
  {
    seq(|features|, i requires 0 <= i < |features| => map[features[i].key := features[i].value])
  }

  /** The one entry of a one-entry map. */
  ghost function SingleEntry(m: map<string, string>): (string, string)
    requires |m.Keys| == 1
  {
    var k :| k in m.Keys; (k, m[k])
  }

  /** The singleton maps lose nothing: each one gives back its feature's key
      and value. */
  lemma FeatureMapsRecoverPairs(features: seq<Feature>)
    ensures var ms := FeatureMaps(features);
      forall i :: 0 <= i < |ms| ==> |ms[i].Keys| == 1 && SingleEntry(ms[i]) == (features[i].key, features[i].value)
  {
    var ms := FeatureMaps(features);
    forall i | 0 <= i < |ms| ensures |ms[i].Keys| == 1 && SingleEntry(ms[i]) == (features[i].key, features[i].value) {
      assert ms[i].Keys == {features[i].key};
      assert ms[i] == map[features[i].key := features[i].value];
    }
  }

  /** The request built from the state the Create Campaign click sees. */
  function BuildPayload(s: State): (p: Payload)
    ensures p.prompt == s.prompt && p.targetAudiences == s.audiences
    ensures p.imageResolutions == s.resolutions
    ensures |p.features| == |s.features|
    ensures forall i :: 0 <= i < |p.features| ==>
      p.features[i].Keys == {s.features[i].key} && p.features[i][s.features[i].key] == s.features[i].value
  {
    Payload(s.prompt, s.audiences, FeatureMaps(s.features), s.resolutions)
  }

  /** Channel `ch` belongs to the mount of step 5 on screen, so its
      handlers' updates of the loading flag, the message and the close flag
      take effect. Those of a channel created by an earlier mount, or made
      while step 5 is not on screen, are lost; the image store belongs to
      `App` and is written whatever the channel. */
  predicate Live(s: State, ch: nat) {
    ch < |s.channels| && s.channels[ch].mount == s.mount && s.step == GenerationStep
  }

  /** Entering step 5 mounts it afresh: the Create Campaign button is back,
      nothing is loading, the message is empty, the close flag is down, no
      email is being sent and both dialogs are closed. The channels of
      earlier mounts are not closed and keep their handlers. */
  function MountGeneration(s: State): (r: State)
    ensures r.mount == s.mount + 1
    ensures !r.generateClicked && !r.loading && r.message == [] && !r.closeFlag
    ensures !r.emailSending && !r.logoDialogOpen && !r.emailDialogOpen
    ensures r.(mount := s.mount, generateClicked := s.generateClicked, loading := s.loading,
               message := s.message, closeFlag := s.closeFlag, emailSending := s.emailSending,
               logoDialogOpen := s.logoDialogOpen, emailDialogOpen := s.emailDialogOpen) == s
  {
    s.(mount := s.mount + 1, generateClicked := false, loading := false, message := [],
       closeFlag := false, emailSending := false, logoDialogOpen := false, emailDialogOpen := false)
  }

  /** The click on Create Campaign. The button is shown only until it is
      first clicked in the current mount; the click creates a channel whose
      handlers keep the request built from this state and the close flag as
      it is now. */
  function GenerateClicked(s: State): (r: State)
    ensures s.generateClicked ==> r == s
    ensures !s.generateClicked ==>
      && r.generateClicked
      && |r.channels| == |s.channels| + 1
      && r.channels[..|s.channels|] == s.channels
      && r.channels[|s.channels|] == Channel(BuildPayload(s), s.closeFlag, s.mount)
      && r.(generateClicked := s.generateClicked, channels := s.channels) == s
  {
    if s.generateClicked then s
    else s.(generateClicked := true, channels := s.channels + [Channel(BuildPayload(s), s.closeFlag, s.mount)])
  }

  /** Channel `ch` opened (first time or after a reconnect): its request is
      sent once, and when the channel is live loading starts and the
      connecting message is shown. */
  function SocketOpened(s: State, ch: nat): (r: State)
    ensures ch >= |s.channels| ==> r == s
    ensures ch < |s.channels| ==>
      && |r.outbox| == |s.outbox| + 1
      && r.outbox[..|s.outbox|] == s.outbox
      && r.outbox[|s.outbox|] == Sent(ch, s.channels[ch].request)
    ensures Live(s, ch) ==>
      r.loading && r.message == ConnectingMessage && r.(loading := s.loading, message := s.message, outbox := s.outbox) == s
    ensures !Live(s, ch) ==> r.(outbox := s.outbox) == s
  {
    if ch >= |s.channels| then s
    else
      var out := s.outbox + [Sent(ch, s.channels[ch].request)];
      if Live(s, ch) then s.(loading := true, message := ConnectingMessage, outbox := out)
      else s.(outbox := out)
  }

  /** How an inbound frame is handled, by the first key it carries in the
      order `error`, `response`. */
  datatype FrameKind = ErrorFrame | ProgressFrame(text: string) | ResultFrame(images: Option<ImageMap>)

  function Classify(f: Frame): (k: FrameKind)
    ensures k.ErrorFrame? <==> f.error.Some?
    ensures k.ProgressFrame? <==> f.error.None? && f.response.Some?
    ensures k.ProgressFrame? ==> k.text == f.response.value
    ensures k.ResultFrame? ==> k.images == f.imagesPerTarget
  {
    if f.error.Some? then ErrorFrame
    else if f.response.Some? then ProgressFrame(f.response.value)
    else ResultFrame(f.imagesPerTarget)
  }

  /** An inbound frame on channel `ch`. An error frame only stops loading,
      even when it also carries a response; a progress frame only replaces
      the message; any other frame replaces the image store by its
      `images_per_target` (absent when the frame has none), and also stops
      loading and raises the close flag. Only the store update survives
      when the channel is not live. */
  function FrameReceived(s: State, ch: nat, f: Frame): (r: State)
    ensures ch >= |s.channels| ==> r == s
    ensures Live(s, ch) && f.error.Some? ==> r == s.(loading := false)
    ensures Live(s, ch) && f.error.None? && f.response.Some? ==> r == s.(message := f.response.value)
    ensures Live(s, ch) && f.error.None? && f.response.None? ==>
      r == s.(loading := false, images := f.imagesPerTarget, closeFlag := true)
    ensures ch < |s.channels| && !Live(s, ch) && f.error.None? && f.response.None? ==>
      r == s.(images := f.imagesPerTarget)
    ensures !Live(s, ch) && (f.error.Some? || f.response.Some?) ==> r == s
  {
    if ch >= |s.channels| then s
    else
      var live := Live(s, ch);
      match Classify(f)
      case ErrorFrame => if live then s.(loading := false) else s
      case ProgressFrame(text) => if live then s.(message := text) else s
      case ResultFrame(images) =>
        if live then s.(loading := false, images := images, closeFlag := true) else s.(images := images)
  }

  /** Channel `ch` closed. The handler tests the close flag its channel
      captured at the click, not the current one; a reconnect is scheduled
      exactly when that value is false. */
  function SocketClosed(s: State, ch: nat): (r: State)
    ensures r.(reconnects := s.reconnects) == s
    ensures r.reconnects == s.reconnects + 1 <==> ch < |s.channels| && !s.channels[ch].flagSeen
    ensures r.reconnects == s.reconnects <==> !(ch < |s.channels| && !s.channels[ch].flagSeen)
  {
    if ch < |s.channels| && !s.channels[ch].flagSeen then s.(reconnects := s.reconnects + 1) else s
  }

  /** The channel log is consistent: every frame sent is the request of the
      channel it was sent on; each mount creates at most one channel, so the
      channels' mounts increase strictly and none is later than the current
      one; the current mount has clicked exactly when the last channel is
      its own; the close flag is raised only after a click, so every channel
      captured it down. */
  ghost predicate ChannelInv(clicked: bool, closeFlag: bool, mount: nat, channels: seq<Channel>, outbox: seq<Sent>) {
    && (forall k :: 0 <= k < |outbox| ==>
          outbox[k].channel < |channels| && outbox[k].request == channels[outbox[k].channel].request)
    && (forall i :: 0 <= i < |channels| ==> channels[i].mount <= mount && !channels[i].flagSeen)
    && (forall i, j :: 0 <= i < j < |channels| ==> channels[i].mount < channels[j].mount)
    && (clicked <==> |channels| > 0 && channels[|channels| - 1].mount == mount)
    && (closeFlag ==> clicked)
  }

  ghost predicate SessionInv(s: State) {
    ChannelInv(s.generateClicked, s.closeFlag, s.mount, s.channels, s.outbox)
  }

  /** A fresh mount keeps the channel log consistent. */
  lemma MountKeepsSessionInv(s: State)
    requires SessionInv(s)
    ensures SessionInv(MountGeneration(s))
  {
  }

  /** The click keeps the channel log consistent. */
  lemma GenerateKeepsSessionInv(s: State)
    requires SessionInv(s)
    ensures SessionInv(GenerateClicked(s))
  {
    if !s.generateClicked {
      var r := GenerateClicked(s);
      var n := |s.channels|;
      forall i, j | 0 <= i < j < |r.channels| ensures r.channels[i].mount < r.channels[j].mount {
        if j == n && n > 0 {
          assert r.channels[i] == s.channels[i] && r.channels[n - 1] == s.channels[n - 1];
          assert s.channels[n - 1].mount < s.mount;
          if i < n - 1 {
            assert s.channels[i].mount < s.channels[n - 1].mount;
          }
        } else {
          assert r.channels[i] == s.channels[i] && r.channels[j] == s.channels[j];
        }
      }
      forall k | 0 <= k < |r.outbox|
        ensures r.outbox[k].channel < |r.channels| && r.outbox[k].request == r.channels[r.outbox[k].channel].request
      {
        assert r.channels[s.outbox[k].channel] == s.channels[s.outbox[k].channel];
      }
      forall i | 0 <= i < |r.channels| ensures r.channels[i].mount <= r.mount && !r.channels[i].flagSeen {
        if i < n {
          assert r.channels[i] == s.channels[i];
        }
      }
    }
  }

  /** Sending a channel's own request keeps the log consistent. */
  lemma SendKeepsChannelInv(clicked: bool, closeFlag: bool, mount: nat, channels: seq<Channel>, outbox: seq<Sent>, ch: nat)
    requires ChannelInv(clicked, closeFlag, mount, channels, outbox) && ch < |channels|
    ensures ChannelInv(clicked, closeFlag, mount, channels, outbox + [Sent(ch, channels[ch].request)])
  {
    var out := outbox + [Sent(ch, channels[ch].request)];
    forall k | 0 <= k < |out|
      ensures out[k].channel < |channels| && out[k].request == channels[out[k].channel].request
    {
      if k < |outbox| {
        assert out[k] == outbox[k];
      }
    }
  }

  /** Every open appends the request of the channel opened. */
  lemma OpenKeepsSessionInv(s: State, ch: nat)
    requires SessionInv(s)
    ensures SessionInv(SocketOpened(s, ch))
  {
    if ch < |s.channels| {
      var out := s.outbox + [Sent(ch, s.channels[ch].request)];
      SendKeepsChannelInv(s.generateClicked, s.closeFlag, s.mount, s.channels, s.outbox, ch);
      if Live(s, ch) {
        assert SocketOpened(s, ch) == s.(loading := true, message := ConnectingMessage, outbox := out);
      } else {
        assert SocketOpened(s, ch) == s.(outbox := out);
      }
    }
  }

  /** Opening a channel leaves the lists, the selections and the step
      alone. */
  lemma OpenKeepsChoices(s: State, ch: nat)
    ensures SameChoices(s, SocketOpened(s, ch)) && SocketOpened(s, ch).step == s.step
  {
    var r := SocketOpened(s, ch);
    if ch < |s.channels| {
      var out := s.outbox + [Sent(ch, s.channels[ch].request)];
      if Live(s, ch) {
        assert r == s.(loading := true, message := ConnectingMessage, outbox := out);
      } else {
        assert r == s.(outbox := out);
      }
    }
  }

  /** At most one channel is live: the one created by the current mount. */
  lemma LiveChannelIsLast(s: State, ch: nat)
    requires SessionInv(s) && Live(s, ch)
    ensures ch == |s.channels| - 1 && s.generateClicked
  {
  }

  /** Inbound frames and closes send nothing and keep the log consistent; a
      result frame raises the close flag only on the live channel, which
      exists only after a click. */
  lemma FrameKeepsSessionInv(s: State, ch: nat, f: Frame)
    requires SessionInv(s)
    ensures SessionInv(FrameReceived(s, ch, f))
  {
    if Live(s, ch) {
      LiveChannelIsLast(s, ch);
    }
  }

  /** `r` agrees with `s` on the lists and the selections. */
  predicate SameChoices(s: State, r: State) {
    && r.featureList == s.featureList && r.features == s.features
    && r.audiences == s.audiences
    && r.resolutionList == s.resolutionList && r.resolutions == s.resolutions
  }

  /** `r` agrees with `s` on the selections, the step and the channel log. */
  predicate SameSelections(s: State, r: State) {
    && SameChoices(s, r) && r.step == s.step
    && r.generateClicked == s.generateClicked && r.mount == s.mount
    && r.channels == s.channels && r.outbox == s.outbox
  }

  /** An inbound frame changes at most the spinner, the progress message,
      the images and the close flag. */
  lemma FrameKeepsSelections(s: State, ch: nat, f: Frame)
    ensures SameSelections(s, FrameReceived(s, ch, f))
  {
    var r := FrameReceived(s, ch, f);
    if f.error.Some? {
      assert SameSelections(s, r);
    } else if f.response.Some? {
      assert SameSelections(s, r);
    } else if Live(s, ch) {
      assert SameSelections(s, r);
    } else {
      assert SameSelections(s, r);
    }
  }

  /** An inbound frame leaves the dialogs alone. */
  lemma FrameKeepsDialogs(s: State, ch: nat, f: Frame)
    ensures var r := FrameReceived(s, ch, f);
      r.logoDialogOpen == s.logoDialogOpen && r.emailDialogOpen == s.emailDialogOpen
      && r.emailSending == s.emailSending
  {
    var r := FrameReceived(s, ch, f);
    if f.error.Some? {
      assert r.logoDialogOpen == s.logoDialogOpen && r.emailDialogOpen == s.emailDialogOpen && r.emailSending == s.emailSending;
    } else if f.response.Some? {
      assert r.logoDialogOpen == s.logoDialogOpen && r.emailDialogOpen == s.emailDialogOpen && r.emailSending == s.emailSending;
    } else if Live(s, ch) {
      assert r.logoDialogOpen == s.logoDialogOpen && r.emailDialogOpen == s.emailDialogOpen && r.emailSending == s.emailSending;
    } else {
      assert r.logoDialogOpen == s.logoDialogOpen && r.emailDialogOpen == s.emailDialogOpen && r.emailSending == s.emailSending;
    }
  }

  lemma CloseKeepsSessionInv(s: State, ch: nat)
    requires SessionInv(s)
    ensures SessionInv(SocketClosed(s, ch))
  {
  }

  /** The close guard never holds: every channel captured the close flag
      down, so every close of a channel schedules a reconnect, including
      after the result arrived and the current flag went up. */
  lemma EveryCloseReconnects(s: State, ch: nat, f: Frame)
    requires SessionInv(s) && ch < |s.channels|
    requires f.error.None? && f.response.None?
    ensures SocketClosed(s, ch).reconnects == s.reconnects + 1
    ensures var done := FrameReceived(s, ch, f);
      (Live(s, ch) ==> done.closeFlag) && SocketClosed(done, ch).reconnects == done.reconnects + 1
  {
    var done := FrameReceived(s, ch, f);
    if Live(s, ch) {
      assert done == s.(loading := false, images := f.imagesPerTarget, closeFlag := true);
    } else {
      assert done == s.(images := f.imagesPerTarget);
    }
  }

  /** An error frame stops loading on the live channel and changes nothing
      else: the image store, the message and the close flag stay as they
      were, and the channel stays open. */
  lemma ErrorFrameKeepsStore(s: State, ch: nat, f: Frame)
    requires f.error.Some?
    ensures var r := FrameReceived(s, ch, f);
      && (Live(s, ch) ==> !r.loading)
      && r.images == s.images && r.closeFlag == s.closeFlag && r.message == s.message
      && r.(loading := s.loading) == s
  {
    var r := FrameReceived(s, ch, f);
    if Live(s, ch) {
      assert r == s.(loading := false);
    } else {
      assert r == s;
    }
  }
}
