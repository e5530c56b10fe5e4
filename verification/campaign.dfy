/** The entities of the campaign wizard and the one explicit state record that
    replaces the React component state of `App` and the steps. */
module Campaign {
  import opened Wrappers
  import opened Sorting

  /** A product feature extracted from the specification document. */
  datatype Feature = Feature(key: string, value: string, id: int)

  /** An output image size. */
  datatype Resolution = Resolution(width: int, height: int, id: int)

  /** The generated images for one audience segment. */
  datatype Buckets = Buckets(accepted: seq<string>, rejected: seq<string>)

  type ImageMap = map<string, Buckets>

  /** A generated email; either field may be missing from the server's reply. */
  datatype EmailBody = EmailBody(subject: Option<string>, content: Option<string>)

  /** The single frame sent on the generation channel. Each feature becomes a
      one-entry map from its key to its value. */
  datatype Payload = Payload(
    prompt: string,
    targetAudiences: seq<string>,
    features: seq<map<string, string>>,
    imageResolutions: seq<Resolution>)

  /** An inbound frame of the generation channel, by the keys it carries. */
  datatype Frame = Frame(
    error: Option<string>,
    response: Option<string>,
    imagesPerTarget: Option<ImageMap>)

  /** A generation channel. Its handlers are the closures of the render in
      which Create Campaign was clicked: every open sends the request built
      then, the close handler tests the close flag as it was then
      (`flagSeen`), and their loading, message and close-flag updates reach
      only the mount of step 5 that rendered them (`mount`). */
  datatype Channel = Channel(request: Payload, flagSeen: bool, mount: nat)

  /** A frame sent on channel number `channel`. */
  datatype Sent = Sent(channel: nat, request: Payload)

  /** Body of a `file-process` reply: the feature summary as (key, value) pairs
      in object-key order, and the raw audience segments. */
  datatype Extraction = Extraction(summary: seq<(string, string)>, segments: seq<string>)

  function FeatureId(f: Feature): int { f.id }
  function ResolutionId(r: Resolution): int { r.id }
  function LabelId(l: string): string { l }

  /** Feature order: by key (`localeCompare`, modelled as `StrLe`). */
  predicate FeatureLe(a: Feature, b: Feature) { StrLe(a.key, b.key) }

  /** Resolution order: by width (`a.width - b.width`). */
  predicate WidthLe(a: Resolution, b: Resolution) { a.width <= b.width }

  /** The five wizard steps, numbered as the wizard numbers them. */
  const PromptStep := 0
  const DocumentStep := 1
  const AudienceStep := 2
  const ResolutionStep := 3
  const GenerationStep := 4
  const LastStep := GenerationStep

  const ConnectingMessage := "Connecting to server."

  /** Everything the wizard holds. Fields below `step` are the steps' own
      local state; step 5's are those of its current mount, and `mount`
      counts its mounts. `channels`, `outbox` and `reconnects` record every
      channel created, every frame sent and every reconnect scheduled. */
  datatype State = State(
    // App
    prompt: string,
    specDoc: Option<string>,
    featureList: seq<Feature>,
    features: seq<Feature>,
    audienceList: seq<string>,
    audiences: seq<string>,
    resolutionList: seq<Resolution>,
    resolutions: seq<Resolution>,
    images: Option<ImageMap>,
    emails: map<string, EmailBody>,
    // Wizard
    step: nat,
    // Step 2 and Step 3
    extracting: bool,
    fetchingAudiences: bool,
    // Step 5
    mount: nat,
    generateClicked: bool,
    channels: seq<Channel>,
    outbox: seq<Sent>,
    loading: bool,
    message: string,
    closeFlag: bool,
    reconnects: nat,
    logoDialogOpen: bool,
    emailDialogOpen: bool,
    emailSending: bool)

  lemma FeatureLeIsTotalPreorder()
    ensures TotalPreorder(FeatureLe)
  {
    forall a, b ensures FeatureLe(a, b) || FeatureLe(b, a) {
      StrLeTotal(a.key, b.key);
    }
    forall a, b, c | FeatureLe(a, b) && FeatureLe(b, c) ensures FeatureLe(a, c) {
      StrLeTransitive(a.key, b.key, c.key);
    }
  }

  lemma WidthLeIsTotalPreorder()
    ensures TotalPreorder(WidthLe)
  {
  }
}
