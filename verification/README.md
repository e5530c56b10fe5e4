# Campaign wizard: selection, gating and generation-session model

The campaign generator is a five-step wizard:

1. a prompt;
2. a specification document, from which features and audience segments are extracted;
3. the audience segments;
4. one image resolution;
5. generation over a persistent channel, followed by logo overlay and email generation and sending per audience segment.

This project models the logic in the wizard's event handlers. Each handler becomes a pure transition function over one explicit state record, `Campaign.State`, which holds the state of `App` and of the steps.

The modules, in dependency order:

- `Wrappers`: the `Option` type, and `Reply`. A `Reply` is a network reply that either arrived with a 2xx status and a body (`Ok`) or was thrown (`Failed`). The HTTP client rejects every other status, so a 4xx or 5xx reply is `Failed`.
- `Seqs`: filtering, duplicate-freedom and multiset facts.
- `Sorting`: a stable insertion sort that takes an ordering as a parameter, and `StrLe`, the code-point string order.
- `Selection`: the toggle-and-reorder selection model shared by steps 2 to 4. A displayed list is always the sorted selection followed by the sorted unselected master items.
- `Labels`: audience-label normalisation. It splits a segment on `/[\s-]+/`, capitalises each word and joins the words with single spaces.
- `Campaign`: the entities, the identifier and ordering functions, the step numbers and the state record.
- `Features` (step 2), `Audiences` (step 3) and `Resolutions` (step 4): the click, mount and fetch handlers.
- `Navigation`: when the Previous and Next buttons are disabled, and the step change a click makes.
- `Session` (step 5): the mount of the step, the generation request, the channels a Create Campaign click creates, the frame sent on every channel open, the dispatch of inbound frames and the reconnect guard.
- `Results` (step 5): the logo-overlay merge into the image store, the email cache and the send-mail flags.
- `App`: the initial state, the event type, which events the screen admits in a state, runs of events, and the invariant every run from the initial state keeps. Under that invariant at most one resolution is ever selected, every frame sent is the request of the channel it was sent on, and no event rewrites a channel once created, so every open of it sends the request built at its click.

Network replies, inbound frames, the wizard's own loading flag and the channel an open, a frame or a close concerns are all inputs: they are event parameters. A reply that writes a step's own state also carries whether the step that sent the request is still mounted (`ownMount`).

The wizard renders only the active step. Leaving step 5 and coming back mounts it afresh, which resets its local state (the Create Campaign button, the spinner, the message, the close flag and the dialogs); coming back to step 2 likewise lowers its loading flag. The extraction request of step 2 is a click (`Upload`) and a reply (`Extracted`); the reply can arrive on any step and writes the lists and selections of `App` wherever it lands. Each channel keeps the handlers of the render in which it was created. Its open handler sends the request built then, and its close handler tests the close flag as it was then, which is always down. A channel's handlers update the step's local state only while the mount that created it is on screen; the image store belongs to `App` and is written whatever the channel.

## Model

| member | source | states |
|---|---|---|
| Seqs.Filter | src/steps/Step2.tsx:41-43 | an element is kept exactly when it is in the input and satisfies the predicate; the result is no longer than the input |
| Seqs.FilterSplit | src/steps/Step2.tsx:50-58 | filtering by a predicate and by its complement splits a list into two parts whose multisets add up to the list's |
| Seqs.NoDupsPermutation | src/steps/Step2.tsx:60-65 | a permutation of a duplicate-free list is duplicate-free |
| Seqs.FilterCount | src/steps/Step2.tsx:50-58 | filtering keeps every copy of an element that satisfies the predicate and no copy of one that does not |
| Sorting.Insert | src/steps/Step2.tsx:61-64 | insertion adds exactly the one element (multiset) |
| Sorting.SortBy | src/steps/Step2.tsx:61-64 | the sort's output is a permutation of its input |
| Sorting.SortBySorted | src/steps/Step2.tsx:61-64 | with a total, transitive comparator the sort's output is ordered |
| Sorting.StrLeIsTotalPreorder | src/steps/Step3.tsx:45 | the string order used by the default sort is total and transitive |
| Campaign.FeatureLeIsTotalPreorder | src/steps/Step2.tsx:61-64 | ordering features by key is total and transitive |
| Campaign.WidthLeIsTotalPreorder | src/steps/Step4.tsx:44-45 | ordering resolutions by width is total and transitive |
| Selection.ToggleById | src/steps/Step2.tsx:39-48 | whether the clicked id is selected flips; other ids keep their status; the result holds exactly the old items with another id, plus the clicked item when its id was not selected; an unselected item is appended after the old selection |
| Selection.ToggleRemovesOne | src/steps/Step2.tsx:41-43 | with unique ids, clicking a selected item deletes its position and keeps the other selected items in order |
| Selection.Unselected | src/steps/Step2.tsx:50-58 | holds exactly the master items whose id is not selected |
| Selection.ReorderPartition | src/steps/Step2.tsx:50-65 | the displayed list is the selection (same multiset, sorted) followed by the master items whose id is not selected (sorted), each with exactly as many copies as in the master list |
| Selection.ReorderIsPermutation | src/steps/Step2.tsx:50-65 | with unique ids and the selection inside the master list, the displayed list is a permutation of the master list |
| Selection.UniqueIdsPermutation | src/steps/Step2.tsx:60-65 | a permutation of a list with unique ids has unique ids |
| Selection.ToggleKeepsUniqueIds | src/steps/Step2.tsx:39-48 | a toggle keeps selected ids unique |
| Selection.ToggleKeepsInv | src/steps/Step2.tsx:39-48 | toggling an item of the master list keeps the selection inside the list with unique ids |
| Selection.ReorderKeepsInv | src/steps/Step2.tsx:50-65 | the displayed list, used as the next master list, keeps the selection invariant |
| Selection.ToggleTwiceRestoresIds | src/steps/Step2.tsx:39-48 | toggling the same item twice restores the set of selected ids |
| Selection.ReorderRestoresInv | src/steps/Step3.tsx:89-96 | from a master list emptied by a failed request, the reorder re-creates a list that contains the selection |
| Labels.WordLength | src/steps/Step2.tsx:99 | the length of the longest separator-free prefix: the prefix has no separator and the next character is one |
| Labels.DropSeps | src/steps/Step2.tsx:99 | removes exactly the leading run of separators |
| Labels.WordsWellSplit | src/steps/Step2.tsx:99 | the split yields at least one word; no word contains a separator; only the first and last may be empty |
| Labels.WordsOfJoin | src/steps/Step2.tsx:99-104 | splitting a space-join of well-split words gives the words back |
| Labels.Capitalise | src/steps/Step2.tsx:100-103 | the first character is upper-cased and every later one lower-cased; the length is kept |
| Labels.CapitaliseIdempotent | src/steps/Step2.tsx:100-103 | capitalising twice is capitalising once |
| Labels.JoinSeparators | src/steps/Step2.tsx:104 | the only separators in a join of separator-free words are the joining spaces |
| Labels.NormaliseWords | src/steps/Step2.tsx:96-105 | the words of a normalised label are the capitalised words of the segment |
| Labels.NormaliseShape | src/steps/Step2.tsx:96-105 | a normalised label has no dash and no white space but single spaces; it has as many words as the segment's split; every word is capitalised |
| Labels.NormaliseIdempotent | src/steps/Step2.tsx:96-105 | normalising twice is normalising once |
| Labels.NormaliseExample | src/steps/Step2.tsx:96-105 | "gen-z" normalises to "Gen Z" |
| Labels.NormaliseAll | src/steps/Step3.tsx:61-70 | every segment is normalised, position by position |
| Labels.SortedLabels | src/steps/Step3.tsx:71 | the stored audience list holds exactly the normalised segments, sorted |
| Features.ClickFeature | src/steps/Step2.tsx:39-65 | only the feature list and selection change; the clicked id's membership flips; other ids are unchanged; an unselected feature is appended after the old selection |
| Features.ClickFeatureRemovesOne | src/steps/Step2.tsx:41-43 | with unique ids, clicking a selected feature deletes its position and keeps the others in order |
| Features.ClickFeatureDisplay | src/steps/Step2.tsx:50-65 | the new list is the selection sorted by key, then every unselected master feature, with its multiplicity, sorted by key |
| Features.ClickFeatureKeepsInv | src/steps/Step2.tsx:50-65 | a click keeps the selection invariant and the new list is a permutation of the old |
| Features.ClickFeatureTwice | src/steps/Step2.tsx:39-48 | clicking a feature twice restores the selected ids |
| Features.Numbered | src/steps/Step2.tsx:87-92 | summary entry i becomes the feature with id i and that key and value |
| Features.ExtractedFeatures | src/steps/Step2.tsx:87-93 | a permutation of the numbered summary, sorted by key, with unique ids; a feature is in it exactly when it matches the summary entry at its id |
| Features.FileUploaded | src/steps/Step2.tsx:71-119 | a 200 reply replaces both master lists; any other reply empties them; a reply that arrived clears both selections; a thrown request keeps them; the loading flag is lowered exactly when the sending mount is still on screen; nothing else changes |
| Features.FailedUploadOrphansSelection | src/steps/Step2.tsx:113-116 | after a thrown request a selected feature can be missing from the emptied list |
| Audiences.HasLabel | src/steps/Step3.tsx:31-34 | a label is selected by identity exactly when it occurs in the selection |
| Audiences.ToggleLabel | src/steps/Step3.tsx:30-45 | the clicked label's membership flips; other labels keep theirs; the stored selection is sorted |
| Audiences.ClickAudience | src/steps/Step3.tsx:30-45 | only the audience list and selection change; the displayed list starts with exactly the stored selection |
| Audiences.ClickAudienceDisplay | src/steps/Step3.tsx:42-45 | after the selection come the old list's unselected labels, every copy of each and nothing else, sorted |
| Audiences.ClickAudienceKeepsInv | src/steps/Step3.tsx:42-45 | with distinct labels and the selection in the list, a click keeps both and the new list is a permutation of the old |
| Audiences.MountAudiences | src/steps/Step3.tsx:84-97 | the fetch starts exactly when the list is empty; the selection is sorted in place; the displayed list starts with it |
| Audiences.MountAudiencesDisplay | src/steps/Step3.tsx:89-96 | after the selection the mount shows every copy of every unselected label and nothing else, sorted |
| Audiences.MountAudiencesKeepsInv | src/steps/Step3.tsx:89-96 | the mount restores the invariant after a failed request and is a permutation when it already held |
| Audiences.AudiencesFetched | src/steps/Step3.tsx:59-81 | a 200 reply stores the sorted normalised labels; other replies empty the list; a reply that arrived clears the selection; a thrown request keeps it; a reply to an earlier mount's fetch still writes the list and selection but leaves the current loading flag |
| Audiences.DuplicateLabelShrinksDisplay | src/steps/Step3.tsx:42-45 | two segments normalising to one label make a click drop both copies from the unselected part |
| Resolutions.SelectResolution | src/steps/Step4.tsx:49-69 | at most one resolution is selected; the selection empties exactly when the clicked id is the first selected one; otherwise it is the clicked resolution alone |
| Resolutions.ClickResolution | src/steps/Step4.tsx:49-84 | only the resolution list and selection change; the selection holds at most one resolution |
| Resolutions.ClickResolutionFlips | src/steps/Step4.tsx:52-68 | with at most one selected, a click flips whether the clicked id is selected |
| Resolutions.SecondSelectedStaysSelected | src/steps/Step4.tsx:58-64 | with two selected, clicking the second keeps it selected and drops the first |
| Resolutions.ClickResolutionDisplay | src/steps/Step4.tsx:71-84 | the new list is the selection, then every master item whose id is not selected, with its multiplicity and nothing else, sorted by width |
| Resolutions.ClickResolutionKeepsInv | src/steps/Step4.tsx:71-84 | clicking a listed resolution of a list with unique ids gives the invariant and a permutation of the list, whatever was selected |
| Resolutions.MountResolutions | src/steps/Step4.tsx:33-47 | only the list changes; it starts with the selection's items |
| Resolutions.MountResolutionsDisplay | src/steps/Step4.tsx:33-47 | the mount shows the selection sorted by width, then every master item whose id is not selected, with its multiplicity and nothing else, sorted by width |
| Resolutions.MountResolutionsKeepsInv | src/steps/Step4.tsx:33-47 | the mount keeps the invariant and the list is a permutation |
| Navigation.Next | src/Navigation.tsx:45-52 | the step advances by one exactly when Next is enabled and stays otherwise; nothing else changes |
| Navigation.Previous | src/Navigation.tsx:36-37 | the step goes back by one exactly when Previous is enabled and stays otherwise; nothing else changes |
| Navigation.NextMatchesStageRule | src/Navigation.tsx:46-52 | with at most one resolution selected and no request of the current step in flight, Next is enabled exactly when the stage rule allows an advance; with two resolutions selected, during an extraction, or during an audience fetch once an audience is selected, it is enabled although the rule forbids it |
| Navigation.PreviousMatchesStageRule | src/Navigation.tsx:36-37 | with no request of the current step in flight, Previous is enabled exactly when the stage rule allows a retreat; while one is in flight and the wizard is idle, it is enabled although the rule forbids it |
| Navigation.DocumentStepUngated | src/Navigation.tsx:46-52 | at step 1 Next is enabled exactly when the wizard is not busy |
| Navigation.GateReadsOwnInput | src/Navigation.tsx:46-52 | states at the same step that agree on that step's input agree on Next |
| Navigation.PreviousThenNext | src/Navigation.tsx:36-52 | at the level of the two buttons alone (no remount), Previous then Next returns to the same state when idle and the step re-entered has its input |
| Session.FeatureMaps | src/steps/Step5.tsx:96-99 | one map per feature, in order, whose only key is that feature's key |
| Session.FeatureMapsRecoverPairs | src/steps/Step5.tsx:96-99 | each one-entry map gives back its feature's key and value |
| Session.BuildPayload | src/steps/Step5.tsx:96-106 | the prompt, audiences and resolutions are sent unchanged; each feature is sent as the map from its key to its value |
| Session.MountGeneration | src/steps/Step5.tsx:71-86 | entering step 5 starts a new mount: the button is back, nothing loads, the message is empty, the close flag, the sending flag and both dialogs are down; nothing else changes |
| Session.GenerateClicked | src/steps/Step5.tsx:155-162 | the first click of a mount appends one channel holding the request built from the state then, the close flag as it is then and the mount; earlier channels and everything else are unchanged; later clicks change nothing |
| Session.SocketOpened | src/steps/Step5.tsx:91-107 | an open appends the opened channel's own request once to the frames sent; only when that channel is live does it also start loading and show the connecting message; nothing else changes |
| Session.Classify | src/steps/Step5.tsx:113-126 | an error key wins over a response key; a response key wins over anything else |
| Session.FrameReceived | src/steps/Step5.tsx:113-126 | on the live channel: error frames only stop loading, progress frames only set the message, other frames stop loading, replace the image store and raise the close flag; on any other channel only the image store is written; an unknown channel changes nothing |
| Session.SocketClosed | src/steps/Step5.tsx:128-133 | a reconnect is scheduled exactly when the closed channel's own captured flag is down; nothing else changes |
| Session.OpenKeepsSessionInv | src/steps/Step5.tsx:91-107 | every frame sent is the request of the channel it was sent on, across any number of opens |
| Session.LiveChannelIsLast | src/steps/Step5.tsx:155-162 | a live channel is the last one created, and the current mount has clicked |
| Session.FrameKeepsSessionInv | src/steps/Step5.tsx:113-126 | inbound frames keep the channel log consistent; the close flag is raised only after a click |
| Session.EveryCloseReconnects | src/steps/Step5.tsx:119-133 | every channel captured the close flag down, so its close schedules a reconnect, also after a result frame raised the current flag |
| Session.ErrorFrameKeepsStore | src/steps/Step5.tsx:115-116 | an error frame stops loading on the live channel and leaves the store, message and close flag alone |
| Results.LogoImages | src/steps/Step5.tsx:176-183 | the accepted images are the target's; the rejected are the target's when ticked, else empty; none when the store or its target entry is missing |
| Results.LogoRequest | src/steps/Step5.tsx:185-189 | the file and images parts are attached exactly when a file was chosen |
| Results.MergeLogo | src/steps/Step5.tsx:198-202 | accepted is always replaced; rejected is replaced only by a non-empty result; other targets and the key set are unchanged |
| Results.MergeLogoIdempotent | src/steps/Step5.tsx:198-202 | merging the same result twice is merging it once |
| Results.EmptyRejectedKeepsRejected | src/steps/Step5.tsx:200-202 | a result with empty rejected images keeps the stored rejected images |
| Results.LogoUploaded | src/steps/Step5.tsx:172-210 | the request is built from the chosen file; nothing changes when it cannot be built; success merges and closes the dialog; loading is cleared on success and failure |
| Results.LogoUploadTouchesOnlyTarget | src/steps/Step5.tsx:198-203 | a logo upload changes at most the target's entry of the store |
| Results.GenerateEmail | src/steps/Step5.tsx:219-249 | no change when the target is cached; on success exactly the target's entry is added; on failure the cache is unchanged; loading is cleared |
| Results.CachedEmailIgnoresReply | src/steps/Step5.tsx:221 | once cached, the reply has no effect |
| Results.GenerateEmailIdempotent | src/steps/Step5.tsx:221-242 | after a successful generation, asking again changes nothing |
| Results.MailFormFor | src/steps/Step5.tsx:262-269 | the subject and body are the cached ones, each defaulting to the empty string |
| Results.GeneratedMailIsSent | src/steps/Step5.tsx:237-269 | after a successful generation the send form carries exactly the generated subject and body |
| Results.SendMail | src/steps/Step5.tsx:256-284 | the sending flag stays raised exactly on failure; the dialog closes only on success; nothing else changes |
| App.Init | src/App.tsx:58-92 | empty prompt, selections, lists and email cache; an empty image store; the resolution list sorted by width |
| App.InitialResolutionsInOrder | src/App.tsx:80-92 | the offered resolutions are already sorted by width |
| App.InitInv | src/App.tsx:58-92 | the initial state satisfies the wizard invariant |
| App.ApplyKeepsInv | src/App.tsx:100-160 | every admissible event keeps the wizard invariant |
| App.RunKeepsInv | src/App.tsx:100-160 | every run of events keeps the wizard invariant |
| App.NextClicked | src/Navigation.tsx:45-52 | Next moves as the button allows; entering step 5 mounts it afresh with the channels kept; entering step 2 lowers its loading flag; otherwise it is the plain step change |
| App.PreviousClicked | src/Navigation.tsx:35-38 | Previous moves as the button allows; entering step 2 lowers its loading flag; otherwise it is the plain step change |
| App.BackThenForward | src/Navigation.tsx:35-52 | Previous then Next restores the state, except that step 2's loading flag is lowered when passing through it and step 5 comes back remounted |
| App.NextDuringExtraction | src/steps/Step2.tsx:78-81 | right after a file is chosen the extraction is in flight and Next is still enabled and leads to step 3 |
| App.LateExtractionClearsSelections | src/steps/Step2.tsx:86-112 | an extraction reply that lands on step 3 clears both selections and so disables Next there |
| App.ApplyKeepsChannels | src/steps/Step5.tsx:155-162 | no event rewrites or drops a channel; only Create Campaign appends one |
| App.RunKeepsChannels | src/steps/Step5.tsx:155-162 | along any run the channel log only grows, each channel keeping what its click captured |
| App.EveryReopenResendsClickRequest | src/steps/Step5.tsx:91-107 | whatever events follow a Create Campaign click, an open of its channel sends exactly the request built from the selections at the click |
| App.ReachableFacts | src/steps/Step4.tsx:49-69 | in every reachable state at most one resolution is selected, the step is in range, every frame sent is its channel's request, each mount creates at most one channel, and every close of any channel schedules a reconnect |
| App.SecondCampaignAfterRemount | src/steps/Step5.tsx:155-162 | Previous, another resolution and Next bring Create Campaign back; a second click adds a channel requesting the new resolution while the earlier channel still resends its own request |
| App.FailedSendDisablesSend | src/steps/Step5.tsx:538-547 | after a failed send the sending flag stays raised, so neither Send nor Cancel can be clicked |
| App.LockedEventKeepsLock | src/steps/Step5.tsx:538-547 | while a send is pending behind a failed reply, every admissible event keeps the email dialog open and locked |
| App.FailedSendLocksDialog | src/steps/Step5.tsx:271-289 | after a failed send, no run of events closes the email dialog |

## Left out

- Rendering, Fluent UI components, toasts, CSS, `StepHeader.tsx`, `main.tsx` and `Step1.tsx` are presentation. Step 1's prompt setter appears only as the `EditPrompt` event.
- HTTP and WebSocket I/O, `FormData` and JSON text are not modelled. A reply is `Ok(status, body)` with a 2xx status, or `Failed` for a thrown request. The HTTP client rejects every non-2xx status, so such a reply is `Failed` too. A frame is a record of its optional `error`, `response` and `images_per_target` keys. A 200 reply whose body lacks the summary or the segments throws inside the handler's `try`, which has the same effect as `Failed`.
- The 500 ms reconnect delay is not modelled: a scheduled reconnect is counted, and the later open is the `Opened` event.
- React batching is not modelled: the updates a handler makes take effect together, as one event.
- The unmount cleanup (`src/steps/Step5.tsx:146-152`) is not an event. It reads the channel of the first render, which is still `null`, so it never closes a channel.
- Step 5's logo, email and send requests are each one event, request and reply together. A reply that arrives after step 5 was left or remounted is therefore not modelled; the generation channel, whose frames can arrive at any time, is.
- Which mount of step 2 or step 3 sent a pending request is not tracked. Whether that mount is still on screen when the reply arrives is the `ownMount` parameter of `Extracted` and `AudiencesArrived`, so the model also admits a reply that claims a mount which has since been replaced.
- The mounts of steps 3 and 4 (`EnterAudiences`, `EnterResolutions`) are separate events, admissible whenever their step is on screen, rather than being tied to the Next or Previous click that shows the step.
- Campaign.FeatureLe: `localeCompare` is modelled by code-point order (`StrLe`). The two orders differ even on ASCII text: `localeCompare` puts "apple" before "Banana", code-point order puts "Banana" first. The order in which feature keys are displayed is therefore not the one the browser shows; the partition, permutation and sortedness properties hold for any total preorder and are unaffected.
- Sorting.StrLe also stands in for the default `sort()` of the audience labels, which compares UTF-16 code units. The two differ only for characters outside the Basic Multilingual Plane.
- Case mapping covers ASCII letters only; other letters are left unchanged.
- The tab setters, the selected image, `handleDownload` and the checkbox setter are UI state. The selected tab is passed in as `target`.
- Audiences.AudienceInv is not part of `App.Inv`: two segments can normalise to the same label, and then the audience list has duplicates (`Audiences.DuplicateLabelShrinksDisplay`). The wizard invariant keeps only that the selected labels are distinct.
- Navigation.Next: the wizard's loading flag is an input (`busy`). How the wizard library computes it is not modelled.
