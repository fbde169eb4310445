/** The comment submission form: three text fields, a submit button that is
    disabled while a submission is in flight, and one error and one success
    banner. `handleSubmit` is split at its single `await`: `BeginSubmit` is
    everything before the backend call, `EndSubmit` everything after it, and
    the backend's answer is a parameter. */
module CommentForm {
  import opened Text
  import opened Backend

  const RequiredMessage := "所有字段都是必填的"
  const FailureMessage := "提交评论时出错，请稍后再试"
  const SuccessMessage := "评论已提交，等待审核"

  /** The component's state hooks. */
  datatype Form = Form(
    name: string,
    email: string,
    content: string,
    isSubmitting: bool,
    error: string,
    success: string)

  datatype Field = Name | Email | Content

  /** The object handed to `createComment`. */
  datatype Payload = Payload(postId: string, name: string, email: string, content: string)

  /** The form's own check: every field is non-empty once trimmed. */
  predicate Filled(f: Form)
  {
    !Blank(f.name) && !Blank(f.email) && !Blank(f.content)
  }

  /** An input's `onChange`: that field takes the new value. */
  function Edit(f: Form, field: Field, value: string): (r: Form)
    ensures r.name == (if field == Name then value else f.name)
    ensures r.email == (if field == Email then value else f.email)
    ensures r.content == (if field == Content then value else f.content)
    ensures r.(name := f.name, email := f.email, content := f.content) == f
  {
    match field
    case Name => f.(name := value)
    case Email => f.(email := value)
    case Content => f.(content := value)
  }

  /** The submit button's `disabled` attribute is the negation of this. */
  predicate SubmitEnabled(f: Form)
  {
    !f.isSubmitting
  }

  /** The synchronous part of `handleSubmit`: either validation refuses the
      form, or the payload goes to the backend and the form waits. */
  datatype Start = Refused(form: Form) | Sent(form: Form, payload: Payload)

  function BeginSubmit(f: Form, postId: string): (r: Start)
    ensures r.Refused? <==> !Filled(f)
    ensures r.Refused? <==> AllSpace(f.name) || AllSpace(f.email) || AllSpace(f.content)
    ensures r.Refused? ==>
      && r.form.error == RequiredMessage && r.form.success == ""
      && !r.form.isSubmitting
      && (r.form.name, r.form.email, r.form.content) == (f.name, f.email, f.content)
    ensures r.Sent? ==>
      && r.form.error == "" && r.form.success == ""
      && r.form.isSubmitting && !SubmitEnabled(r.form)
      && (r.form.name, r.form.email, r.form.content) == (f.name, f.email, f.content)
      && r.payload == Payload(postId, f.name, f.email, f.content)
  {
    BlankIffAllSpace(f.name);
    BlankIffAllSpace(f.email);
    BlankIffAllSpace(f.content);
    var cleared := f.(isSubmitting := true, error := "", success := "");
    if !Filled(f) then
      Refused(cleared.(error := RequiredMessage, isSubmitting := false))
    else
      Sent(cleared, Payload(postId, f.name, f.email, f.content))
  }

  /** What the form looks like once `handleSubmit` has returned, and how many
      times it called `onCommentAdded`. */
  datatype Settled = Settled(form: Form, notified: nat)

  /** The part of `handleSubmit` after `await createComment(...)`, applied to
      the form as it stands when the reply arrives (the fields stay editable
      while the request is in flight). `callbackThrows` says whether
      `onCommentAdded` throws when called; its exception lands in the same
      `catch` as a backend failure. */
  function EndSubmit(f: Form, reply: Reply<()>, callbackThrows: bool): (r: Settled)
    ensures !r.form.isSubmitting && SubmitEnabled(r.form)
    ensures r.notified == (if reply.Answered? then 1 else 0)
    ensures reply.Answered? ==>
      && r.form.success == SuccessMessage
      && r.form.name == "" && r.form.email == "" && r.form.content == ""
      && r.form.error == (if callbackThrows then FailureMessage else f.error)
    ensures reply.Failed? ==>
      && r.form.error == FailureMessage && r.form.success == f.success
      && (r.form.name, r.form.email, r.form.content) == (f.name, f.email, f.content)
  {
    match reply
    case Answered(_) =>
      var done := f.(success := SuccessMessage, name := "", email := "", content := "");
      var afterCall := if callbackThrows then done.(error := FailureMessage) else done;
      Settled(afterCall.(isSubmitting := false), 1)
    case Failed =>
      Settled(f.(error := FailureMessage, isSubmitting := false), 0)
  }

  /** One whole submission with no edits while it is in flight: the final
      form, the payloads sent to the backend, and the `onCommentAdded` calls. */
  datatype Submission = Submission(form: Form, calls: seq<Payload>, notified: nat)

  function HandleSubmit(f: Form, postId: string, reply: Reply<()>, callbackThrows: bool): (r: Submission)
    ensures !r.form.isSubmitting
    ensures |r.calls| <= 1 && r.notified <= 1
    ensures r.calls == [] <==> !Filled(f)
    ensures r.notified == 1 <==> Filled(f) && reply.Answered?
    ensures forall p :: p in r.calls ==> p == Payload(postId, f.name, f.email, f.content)
  {
    match BeginSubmit(f, postId)
    case Refused(g) => Submission(g, [], 0)
    case Sent(g, p) =>
      var s := EndSubmit(g, reply, callbackThrows);
      Submission(s.form, [p], s.notified)
  }

  /** A form whose fields are blank after trimming never reaches the backend:
      it shows the "required" message, clears the success banner, keeps the
      fields and is ready for another try. */
  lemma BlankFieldRefused(f: Form, postId: string, reply: Reply<()>, callbackThrows: bool)
    requires Blank(f.name) || Blank(f.email) || Blank(f.content)
    ensures var r := HandleSubmit(f, postId, reply, callbackThrows);
      && r.calls == [] && r.notified == 0
      && r.form == f.(isSubmitting := false, error := RequiredMessage, success := "")
  {
  }

  /** An accepted submission sends the raw, untrimmed fields with the form's
      post, empties the fields, shows the success banner and calls
      `onCommentAdded` exactly once. */
  lemma AcceptedClearsFields(f: Form, postId: string, data: Option<()>)
    requires Filled(f)
    ensures var r := HandleSubmit(f, postId, Answered(data), false);
      && r.calls == [Payload(postId, f.name, f.email, f.content)]
      && r.notified == 1
      && r.form == Form("", "", "", false, "", SuccessMessage)
  {
  }

  /** A failed submission keeps what the user typed, shows the error banner
      and does not call `onCommentAdded`. */
  lemma FailureKeepsFields(f: Form, postId: string, callbackThrows: bool)
    requires Filled(f)
    ensures var r := HandleSubmit(f, postId, Failed, callbackThrows);
      && r.calls == [Payload(postId, f.name, f.email, f.content)]
      && r.notified == 0
      && r.form == f.(isSubmitting := false, error := FailureMessage, success := "")
  {
  }

  /** Unless `onCommentAdded` throws, a finished submission shows exactly one
      of the two banners: the "required" or failure message, or the success
      message. */
  lemma OneBanner(f: Form, postId: string, reply: Reply<()>)
    ensures var r := HandleSubmit(f, postId, reply, false);
      (r.form.error == "") != (r.form.success == "")
  {
  }

  /** If `onCommentAdded` did throw, its exception would land in the `catch`
      after the success banner was set, and both banners would show. */
  lemma ThrowingCallbackShowsBoth(f: Form, postId: string, data: Option<()>)
    requires Filled(f)
    ensures var r := HandleSubmit(f, postId, Answered(data), true);
      r.form.error == FailureMessage && r.form.success == SuccessMessage && r.notified == 1
  {
  }

  /** After a failure the user can press submit again and the very same
      payload is sent; after a success the emptied form is refused locally,
      so the comment is not posted twice. */
  lemma RetryAfterOutcome(f: Form, postId: string, first: Reply<()>, second: Reply<()>)
    requires Filled(f)
    ensures var r := HandleSubmit(f, postId, first, false);
      var again := HandleSubmit(r.form, postId, second, false);
      && (first.Failed? ==> again.calls == r.calls)
      && (first.Answered? ==> again.calls == [] && again.form.error == RequiredMessage)
  {
    var r := HandleSubmit(f, postId, first, false);
    if first.Answered? {
      assert r.form.name == "";
      assert Blank(r.form.name);
    }
  }

  /** What a press of the submit button leads to: nothing at all while the
      button is disabled, otherwise a run of `handleSubmit`'s synchronous
      part. */
  datatype Press = Ignored | Handled(start: Start)

  /** Pressing the button (or pressing Enter in a field): a disabled submit
      button blocks the form's submission, so nothing happens while a
      submission is in flight. */
  function PressSubmit(f: Form, postId: string): (r: Press)
    ensures r.Ignored? <==> f.isSubmitting
    ensures r.Handled? && r.start.Sent? <==> !f.isSubmitting && Filled(f)
    ensures r.Handled? && r.start.Sent? ==>
      r.start.payload == Payload(postId, f.name, f.email, f.content)
    ensures r.Handled? && r.start.Refused? ==> r.start.form.error == RequiredMessage
  {
    if SubmitEnabled(f) then Handled(BeginSubmit(f, postId)) else Ignored
  }

  /** Once a payload is in flight a second press sends nothing and changes
      nothing, however the fields are edited meanwhile: no two submissions
      of one form overlap. */
  lemma NoOverlappingSubmit(f: Form, postId: string, edits: seq<(Field, string)>)
    requires BeginSubmit(f, postId).Sent?
    ensures var g := ApplyEdits(BeginSubmit(f, postId).form, edits);
      g.isSubmitting && PressSubmit(g, postId) == Ignored
  {
    EditsKeepFlags(BeginSubmit(f, postId).form, edits);
  }

  function ApplyEdits(f: Form, edits: seq<(Field, string)>): Form
    decreases |edits|
  {
    if edits == [] then f else ApplyEdits(Edit(f, edits[0].0, edits[0].1), edits[1..])
  }

  /** Typing never touches the submitting flag or the banners. */
  lemma {:induction false} EditsKeepFlags(f: Form, edits: seq<(Field, string)>)
    ensures var g := ApplyEdits(f, edits);
      g.isSubmitting == f.isSubmitting && g.error == f.error && g.success == f.success
    decreases |edits|
  {
    if edits != [] {
      EditsKeepFlags(Edit(f, edits[0].0, edits[0].1), edits[1..]);
    }
  }
}
