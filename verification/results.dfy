/** Step 5, after generation: the per-segment image store updated by the
    logo overlay, the per-segment email cache and the send-mail flags. The
    segment acted on is the selected tab, passed in as `target`. */
module Results {
  import opened Wrappers
  import opened Campaign

  /** The images sent with a logo: the target's accepted images, and its
      rejected images only when the checkbox is ticked. `None` when the store
      is absent or has no entry for the target, where the handler fails
      before any request is made. */
  function LogoImages(images: Option<ImageMap>, target: string, checked: bool): (r: Option<Buckets>)
    ensures r.Some? <==> images.Some? && target in images.value
    ensures r.Some? ==> r.value.accepted == images.value[target].accepted
    ensures r.Some? && checked ==> r.value.rejected == images.value[target].rejected
    ensures r.Some? && !checked ==> r.value.rejected == []
  {
    if images.None? || target !in images.value then None
    else
      var b := images.value[target];
      Some(Buckets(b.accepted, if checked then b.rejected else []))
  }

  /** The multipart form of the logo request: the logo file and the images
      part are attached only when a file was chosen. */
  datatype LogoForm = LogoForm(logo: Option<string>, images: Option<Buckets>)

  function LogoRequest(images: Option<ImageMap>, target: string, checked: bool, file: Option<string>): (r: Option<LogoForm>)
    ensures r.Some? <==> LogoImages(images, target, checked).Some?
    ensures r.Some? ==> r.value.logo == file
    ensures r.Some? ==> (r.value.images.Some? <==> file.Some?)
    ensures r.Some? && file.Some? ==> r.value.images == LogoImages(images, target, checked)
  {
    var b := LogoImages(images, target, checked);
    if b.None? then None
    else if file.Some? then Some(LogoForm(file, b))
    else Some(LogoForm(None, None))
  }

  /** Merges a logo result into the store: the target's accepted images are
      always replaced, its rejected images only when the result has some;
      every other segment is left as it was. */
  function MergeLogo(store: ImageMap, target: string, result: Buckets): (r: ImageMap)
    ensures target !in store ==> r == store
    ensures r.Keys == store.Keys
    ensures target in store ==> r[target].accepted == result.accepted
    ensures target in store && |result.rejected| > 0 ==> r[target].rejected == result.rejected
    ensures target in store && |result.rejected| == 0 ==> r[target].rejected == store[target].rejected
    ensures forall t :: t in store && t != target ==> r[t] == store[t]
  {
    if target !in store then store
    else
      var prev := store[target];
      store[target := Buckets(result.accepted, if |result.rejected| > 0 then result.rejected else prev.rejected)]
  }

  /** Merging the same result twice is merging it once. */
  lemma MergeLogoIdempotent(store: ImageMap, target: string, result: Buckets)
    ensures MergeLogo(MergeLogo(store, target, result), target, result) == MergeLogo(store, target, result)
  {
    var once := MergeLogo(store, target, result);
    var twice := MergeLogo(once, target, result);
    if target in store {
      assert twice[target] == once[target];
      assert forall t :: t in twice <==> t in once;
    }
  }

  /** A result whose rejected list is empty cannot clear the target's
      rejected images: an empty rejected result and "no update" look alike. */
  lemma EmptyRejectedKeepsRejected(store: ImageMap, target: string, accepted: seq<string>)
    requires target in store
    ensures MergeLogo(store, target, Buckets(accepted, [])) ==
      store[target := Buckets(accepted, store[target].rejected)]
  {
  }

  /** The logo upload with the chosen file `file`. When the store is absent
      or lacks the target the handler fails while building the request and
      nothing changes. Otherwise the request is sent, the reply is merged on
      success, which also closes the logo dialog, and loading is cleared on
      success and on failure alike. */
  function LogoUploaded(s: State, target: string, checked: bool, file: Option<string>, reply: Reply<Buckets>): (r: State)
    ensures LogoImages(s.images, target, checked).None? ==> r == s
    ensures LogoImages(s.images, target, checked).Some? && reply.Ok? ==>
      r == s.(images := Some(MergeLogo(s.images.value, target, reply.body)),
              logoDialogOpen := false, loading := false)
    ensures LogoImages(s.images, target, checked).Some? && reply.Failed? ==>
      r == s.(loading := false)
  {
    var form := LogoRequest(s.images, target, checked, file);
    if form.None? then s
    else if reply.Ok? then
      s.(images := Some(MergeLogo(s.images.value, target, reply.body)), logoDialogOpen := false, loading := false)
    else s.(loading := false)
  }

  /** A logo upload changes at most the target's entry of the store. */
  lemma LogoUploadTouchesOnlyTarget(s: State, target: string, checked: bool, file: Option<string>, reply: Reply<Buckets>)
    ensures var r := LogoUploaded(s, target, checked, file, reply);
      && r.images.Some? == s.images.Some?
      && (s.images.Some? ==> r.images.value.Keys == s.images.value.Keys)
      && (s.images.Some? ==> forall t :: t in s.images.value && t != target ==> r.images.value[t] == s.images.value[t])
  {
  }

  /** Email generation for the target. Nothing is requested when the cache
      already holds an entry for it. Otherwise a successful reply adds that
      one entry, a failed one leaves the cache as it was, and loading is
      cleared in both cases. */
  function GenerateEmail(s: State, target: string, reply: Reply<EmailBody>): (r: State)
    ensures target in s.emails ==> r == s
    ensures target !in s.emails ==> r.(emails := s.emails, loading := s.loading) == s && !r.loading
    ensures target !in s.emails && reply.Ok? ==>
      r.emails.Keys == s.emails.Keys + {target} && r.emails[target] == reply.body
    ensures target !in s.emails ==> forall t :: t in s.emails ==> t in r.emails && r.emails[t] == s.emails[t]
    ensures reply.Failed? ==> r.emails == s.emails
  {
    var fetch := target !in s.emails;
    s.(emails := if fetch && reply.Ok? then s.emails[target := reply.body] else s.emails,
       loading := if fetch then false else s.loading)
  }

  /** Once an email is cached for the target, any later reply is ignored. */
  lemma CachedEmailIgnoresReply(s: State, target: string, a: Reply<EmailBody>, b: Reply<EmailBody>)
    requires target in s.emails
    ensures GenerateEmail(s, target, a) == GenerateEmail(s, target, b)
  {
  }

  /** A generation that succeeded is not repeated: asking again changes
      nothing, whatever the second reply would have been. */
  lemma GenerateEmailIdempotent(s: State, target: string, reply: Reply<EmailBody>, again: Reply<EmailBody>)
    requires reply.Ok?
    ensures var once := GenerateEmail(s, target, reply);
      GenerateEmail(once, target, again) == once
  {
  }

  function OrEmpty(o: Option<string>): string {
    if o.Some? then o.value else ""
  }

  /** The subject and body sent with an email: those cached for the target,
      each defaulting to the empty string when missing. */
  function MailFormFor(emails: map<string, EmailBody>, target: string): (r: (string, string))
    ensures target !in emails ==> r == ("", "")
    ensures target in emails && emails[target].subject.Some? ==> r.0 == emails[target].subject.value
    ensures target in emails && emails[target].subject.None? ==> r.0 == ""
    ensures target in emails && emails[target].content.Some? ==> r.1 == emails[target].content.value
    ensures target in emails && emails[target].content.None? ==> r.1 == ""
  {
    if target !in emails then ("", "")
    else (OrEmpty(emails[target].subject), OrEmpty(emails[target].content))
  }

  /** After a successful generation the send form carries exactly the
      generated subject and body. */
  lemma GeneratedMailIsSent(s: State, target: string, subject: string, content: string)
    requires target !in s.emails
    ensures var r := GenerateEmail(s, target, Ok(200, EmailBody(Some(subject), Some(content))));
      MailFormFor(r.emails, target) == (subject, content)
  {
  }

  /** Sending an email: the sending flag is raised before the request and
      lowered only on success, which also closes the email dialog; after a
      failure the flag stays raised. */
  function SendMail(s: State, reply: Reply<()>): (r: State)
    ensures r.(emailSending := s.emailSending, emailDialogOpen := s.emailDialogOpen) == s
    ensures r.emailSending <==> reply.Failed?
    ensures r.emailDialogOpen <==> reply.Failed? && s.emailDialogOpen
  {
    if reply.Ok? then s.(emailSending := false, emailDialogOpen := false)
    else s.(emailSending := true)
  }
}
