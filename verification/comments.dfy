/** The comment section of a post: the list of comments with its loading
    and error flags, and the comment form below it, whose success callback
    re-fetches the list. `getComments`'s answer is a parameter. */
module Comments {
  import opened Backend
  import CommentForm

  const LoadErrorMessage := "无法加载评论，请稍后再试"

  /** A row of `getComments`'s answer, as the component reads it. */
  datatype Comment = Comment(id: string, name: string, content: string, createdAt: string)

  /** The component's prop and state hooks. */
  datatype State = State(postId: string, comments: seq<Comment>, loading: bool, error: string)

  /** `fetchComments` up to its `await`: the spinner is on and `getComments`
      is asked for the comments of `request`. */
  datatype Fetch = Fetch(state: State, request: string)

  function StartFetch(s: State): (r: Fetch)
    ensures r.state.loading && r.request == s.postId
    ensures r.state.(loading := s.loading) == s
  {
    Fetch(s.(loading := true), s.postId)
  }

  /** The first render and the effect that follows it: empty list, spinner
      on, no error, and one fetch for the post. */
  function Mount(postId: string): (r: Fetch)
    ensures r.request == postId
    ensures r.state.postId == postId && r.state.comments == [] && r.state.loading && r.state.error == ""
  {
    StartFetch(State(postId, [], true, ""))
  }

  /** `fetchComments` after its `await`. A successful answer replaces the
      list (an absent list reads as empty); a failure sets the error and
      keeps the old list. The error is never cleared, not even by a later
      success. The spinner stops either way. The reply is applied whatever
      post it was for. */
  function FetchSettled(s: State, reply: Reply<seq<Comment>>): (r: State)
    ensures !r.loading && r.postId == s.postId
    ensures reply.Answered? ==> r.comments == ListOrEmpty(reply.data) && r.error == s.error
    ensures reply.Failed? ==> r.comments == s.comments && r.error == LoadErrorMessage
  {
    match reply
    case Answered(data) => s.(comments := ListOrEmpty(data), loading := false)
    case Failed => s.(error := LoadErrorMessage, loading := false)
  }

  /** A re-render with a `postId` prop, and the fetches it starts. */
  datatype Rerender = Rerender(state: State, requests: seq<string>)

  /** The effect depends on `[postId]`: a new post starts a fetch for it, the
      same post starts nothing. The old list stays until the new one lands. */
  function PostIdSet(s: State, postId: string): (r: Rerender)
    ensures r.requests == (if postId == s.postId then [] else [postId])
    ensures r.requests != [] ==> r.state == s.(postId := postId, loading := true)
    ensures r.requests == [] ==> r.state == s
  {
    if postId == s.postId then Rerender(s, [])
    else
      var f := StartFetch(s.(postId := postId));
      Rerender(f.state, [f.request])
  }

  /** What the section body shows below its header. */
  datatype View = Spinner | ErrorBanner(message: string) | Thread(comments: seq<Comment>) | NoComments

  /** The header's count and the body. */
  datatype Page = Page(count: nat, view: View)

  /** The render: the spinner wins over the error, the error over the list,
      and a non-empty list over the "no comments yet" message. */
  function Render(s: State): (p: Page)
    ensures p.count == |s.comments|
    ensures p.view.Spinner? <==> s.loading
    ensures p.view.ErrorBanner? <==> !s.loading && s.error != ""
    ensures p.view.Thread? <==> !s.loading && s.error == "" && s.comments != []
    ensures p.view.NoComments? <==> !s.loading && s.error == "" && s.comments == []
    ensures p.view.ErrorBanner? ==> p.view.message == s.error
    ensures p.view.Thread? ==> p.view.comments == s.comments && p.count == |p.view.comments|
  {
    var view :=
      if s.loading then Spinner
      else if s.error != "" then ErrorBanner(s.error)
      else if |s.comments| > 0 then Thread(s.comments)
      else NoComments;
    Page(|s.comments|, view)
  }

  /** What can happen to the section: the page passes another post, the
      form reports a new comment, or a `getComments` call settles. */
  datatype Event = Navigated(postId: string) | Added | Settled(reply: Reply<seq<Comment>>)

  function Step(s: State, e: Event): State
  {
    match e
    case Navigated(p) => PostIdSet(s, p).state
    case Added => StartFetch(s).state
    case Settled(reply) => FetchSettled(s, reply)
  }

  function Run(s: State, es: seq<Event>): State
    decreases |es|
  {
    if es == [] then s else Run(Step(s, es[0]), es[1..])
  }

  /** Once loading has failed, the error stays whatever happens next, and
      the list is never shown again: the section shows the spinner or the
      error banner. */
  lemma {:induction false} ErrorSticky(s: State, es: seq<Event>)
    requires s.error == LoadErrorMessage
    ensures Run(s, es).error == LoadErrorMessage
    ensures var v := Render(Run(s, es)).view; v.Spinner? || v == ErrorBanner(LoadErrorMessage)
    decreases |es|
  {
    if es != [] {
      ErrorSticky(Step(s, es[0]), es[1..]);
    }
  }

  /** The only error the section ever holds is the load error. */
  lemma {:induction false} OnlyLoadError(s: State, es: seq<Event>)
    requires s.error == "" || s.error == LoadErrorMessage
    ensures Run(s, es).error == "" || Run(s, es).error == LoadErrorMessage
    decreases |es|
  {
    if es != [] {
      OnlyLoadError(Step(s, es[0]), es[1..]);
    }
  }

  predicate AnswerAt(es: seq<Event>, j: int)
    requires 0 <= j < |es|
  {
    es[j].Settled? && es[j].reply.Answered?
  }

  lemma AnswerAtTail(es: seq<Event>)
    requires es != []
    ensures forall j :: 0 <= j < |es| - 1 ==> (AnswerAt(es[1..], j) <==> AnswerAt(es, j + 1))
  {
    forall j | 0 <= j < |es| - 1
      ensures AnswerAt(es[1..], j) <==> AnswerAt(es, j + 1)
    {
      assert es[1..][j] == es[j + 1];
    }
  }

  /** Without a successful answer the list does not change: nothing is added
      to it locally. */
  lemma {:induction false} NoAnswerKeepsComments(s: State, es: seq<Event>)
    requires forall j :: 0 <= j < |es| ==> !AnswerAt(es, j)
    ensures Run(s, es).comments == s.comments
    decreases |es|
  {
    if es != [] {
      assert !AnswerAt(es, 0);
      AnswerAtTail(es);
      NoAnswerKeepsComments(Step(s, es[0]), es[1..]);
    }
  }

  /** The list shown is the last successful answer to arrive, whichever post
      it was for and whatever arrived after it. */
  lemma {:induction false} LastAnswerWins(s: State, es: seq<Event>, i: int)
    requires 0 <= i < |es| && AnswerAt(es, i)
    requires forall j :: i < j < |es| ==> !AnswerAt(es, j)
    ensures Run(s, es).comments == ListOrEmpty(es[i].reply.data)
    decreases |es|
  {
    AnswerAtTail(es);
    if i == 0 {
      NoAnswerKeepsComments(Step(s, es[0]), es[1..]);
    } else {
      LastAnswerWins(Step(s, es[0]), es[1..], i - 1);
    }
  }

  /** Switching from one post to another while the first post's fetch is
      still out: if the first post's answer arrives last, its comments are
      shown under the second post. */
  lemma StaleAnswerShown(s: State, other: string, mine: seq<Comment>, theirs: seq<Comment>)
    requires other != s.postId
    ensures var r := Run(s, [Navigated(other), Settled(Answered(Some(mine))), Settled(Answered(Some(theirs)))]);
      r.postId == other && r.comments == theirs
  {
    var es := [Navigated(other), Settled(Answered(Some(mine))), Settled(Answered(Some(theirs)))];
    assert AnswerAt(es, 2);
    LastAnswerWins(s, es, 2);
    var s1 := Step(s, es[0]);
    var s2 := Step(s1, es[1]);
    assert Run(s2, es[2..]) == Step(s2, es[2]);
    assert Run(s, es) == Run(s2, es[2..]) by {
      assert es[1..][1..] == es[2..];
    }
  }

  /** The whole section: the list and the form rendered under it with the
      same post. */
  datatype Section = Section(list: State, form: CommentForm.Form)

  /** A submission from the section's form, the comments it created and the
      list fetches its callback started. */
  datatype Submitted = Submitted(section: Section, created: seq<CommentForm.Payload>, fetches: seq<string>)

  /** Pressing submit in the section's form. The callback is `fetchComments`,
      an async function: calling it only starts a fetch and never throws. */
  function Submit(sec: Section, reply: Reply<()>): (r: Submitted)
    ensures var f := sec.form;
      r.created == (if CommentForm.Filled(f) then [CommentForm.Payload(sec.list.postId, f.name, f.email, f.content)] else [])
    ensures r.fetches == (if CommentForm.Filled(sec.form) && reply.Answered? then [sec.list.postId] else [])
    ensures r.fetches != [] ==> r.section.list == sec.list.(loading := true)
    ensures r.fetches == [] ==> r.section.list == sec.list
    ensures r.section.form == CommentForm.HandleSubmit(sec.form, sec.list.postId, reply, false).form
  {
    var sub := CommentForm.HandleSubmit(sec.form, sec.list.postId, reply, false);
    if sub.notified == 1 then
      var f := StartFetch(sec.list);
      Submitted(Section(f.state, sub.form), sub.calls, [f.request])
    else
      Submitted(Section(sec.list, sub.form), sub.calls, [])
  }

  /** A new comment shows up only through a fresh fetch: an accepted
      submission puts the list back on the spinner and asks for the post's
      comments once; the list then shows what the backend answers (unless an
      earlier load error is still standing). */
  lemma AcceptedCommentRefetches(sec: Section, data: Option<()>, answer: seq<Comment>)
    requires CommentForm.Filled(sec.form)
    ensures var r := Submit(sec, Answered(data));
      && r.fetches == [sec.list.postId]
      && Render(r.section.list).view == Spinner
      && var after := FetchSettled(r.section.list, Answered(Some(answer)));
        && after.comments == answer
        && Render(after).view == (if sec.list.error != "" then ErrorBanner(sec.list.error)
                                  else if answer == [] then NoComments else Thread(answer))
  {
  }

  /** A submission that fails, or never reaches the backend, leaves the list
      exactly as it was. */
  lemma RejectedCommentKeepsList(sec: Section, reply: Reply<()>)
    requires !CommentForm.Filled(sec.form) || reply.Failed?
    ensures Submit(sec, reply).fetches == [] && Submit(sec, reply).section.list == sec.list
  {
  }
}
