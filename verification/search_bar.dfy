/** The incremental search box: the query input, the result list, the
    spinner and the drop-down panel. Each event handler is a function from
    the component's state to its next state; the debounce timer is in
    `Debounce`, and `searchPosts`'s answer is a parameter. */
module SearchBar {
  import opened Text
  import opened Backend
  import Debounce

  /** Shortest trimmed query that is sent to the backend. */
  const MinQueryLength := 2
  /** How much of a post's excerpt a result line shows. */
  const ExcerptLength := 60
  const Ellipsis := "..."

  /** A row of `searchPosts`'s answer, as the component reads it. */
  datatype SearchResult = SearchResult(
    id: string,
    title: string,
    slug: string,
    excerpt: string,
    categoryName: string)

  /** The component's state hooks. */
  datatype Search = Search(
    query: string,
    results: seq<SearchResult>,
    isSearching: bool,
    showResults: bool)

  const Mounted := Search("", [], false, false)

  /** The query is long enough to search for: its trimmed form has at least
      two UTF-16 code units, so a single character outside the Basic
      Multilingual Plane already qualifies. */
  predicate LongEnough(query: string)
  {
    Utf16Length(Trim(query)) >= MinQueryLength
  }

  /** A one-character query is searched for exactly when its character
      takes two code units; no whitespace character does. */
  lemma OneCharacterQuery(c: char)
    ensures LongEnough([c]) <==> c as int > 0xFFFF
  {
  }

  /** The input's `onChange`: the query takes the typed value and nothing
      else changes. */
  function Type(s: Search, query: string): (r: Search)
    ensures r.query == query && r.(query := s.query) == s
  {
    s.(query := query)
  }

  /** What the debounce timer's callback does: start a search, or clear the
      results without asking the backend. */
  datatype Fire = Issued(state: Search, request: string) | Cleared(state: Search)

  /** The debounce timer elapses. The timer is cancelled whenever the query
      changes, so the query it acts on is the current one. A short query is
      cleared only here, after the delay, not when it is typed. */
  function TimerFires(s: Search): (r: Fire)
    ensures r.Issued? <==> Utf16Length(Trim(s.query)) >= MinQueryLength
    ensures r.state.query == s.query
    ensures r.Issued? ==>
      && r.request == s.query
      && r.state.isSearching
      && r.state.results == s.results && r.state.showResults == s.showResults
    ensures r.Cleared? ==>
      && r.state.results == [] && !r.state.showResults
      && r.state.isSearching == s.isSearching
  {
    if LongEnough(s.query) then Issued(s.(isSearching := true), s.query)
    else Cleared(s.(results := [], showResults := false))
  }

  /** `searchPosts` settles. A successful answer replaces the results (an
      absent list reads as empty) and opens the panel even when nothing
      matched; a failure is only logged, so results and panel stay as they
      were. Either way the spinner stops. The reply is applied whatever
      query it was for: the component keeps no record of which search is
      the latest. */
  function SearchSettled(s: Search, reply: Reply<seq<SearchResult>>): (r: Search)
    ensures !r.isSearching && r.query == s.query
    ensures reply.Answered? ==> r.showResults && r.results == ListOrEmpty(reply.data)
    ensures reply.Failed? ==> r.results == s.results && r.showResults == s.showResults
  {
    match reply
    case Answered(data) => s.(results := ListOrEmpty(data), showResults := true, isSearching := false)
    case Failed => s.(isSearching := false)
  }

  /** A `mousedown` anywhere in the document: outside the component it
      closes the panel; inside it changes nothing. */
  function MouseDown(s: Search, inside: bool): (r: Search)
    ensures r.showResults <==> s.showResults && inside
    ensures r.(showResults := s.showResults) == s
  {
    if inside then s else s.(showResults := false)
  }

  /** The input gains focus: a long enough query reopens the panel; a short
      one leaves it as it is (the handler never closes it). */
  function Focus(s: Search): (r: Search)
    ensures r.showResults <==> s.showResults || LongEnough(s.query)
    ensures r.(showResults := s.showResults) == s
  {
    if LongEnough(s.query) then s.(showResults := true) else s
  }

  /** A result link is clicked: the panel closes before the browser follows
      the link; query and results stay. */
  function SelectResult(s: Search): (r: Search)
    ensures !r.showResults && r.(showResults := s.showResults) == s
  {
    s.(showResults := false)
  }

  function Min(a: int, b: int): int
  {
    if a <= b then a else b
  }

  /** `excerpt.substring(0, 60)` followed by the literal "...". */
  function Excerpt(excerpt: string): (r: string)
    ensures |r| == Min(|excerpt|, ExcerptLength) + |Ellipsis| <= ExcerptLength + |Ellipsis|
    ensures r[..|r| - |Ellipsis|] <= excerpt && r[|r| - |Ellipsis|..] == Ellipsis
  {
    excerpt[..Min(|excerpt|, ExcerptLength)] + Ellipsis
  }

  /** The ellipsis is appended whether or not anything was cut: the excerpt
      is shown whole exactly when it has at most 60 characters. */
  lemma ExcerptWhole(excerpt: string)
    ensures Excerpt(excerpt) == excerpt + Ellipsis <==> |excerpt| <= ExcerptLength
  {
    if Excerpt(excerpt) == excerpt + Ellipsis {
      assert |Excerpt(excerpt)| == |excerpt| + |Ellipsis|;
    }
  }

  /** One line of the panel: the link, its title, and the caption
      "category · excerpt...". */
  datatype Item = Item(href: string, title: string, caption: string)

  function ItemOf(r: SearchResult): Item
  {
    Item("/blog/" + r.slug, r.title, r.categoryName + " · " + Excerpt(r.excerpt))
  }

  /** What the drop-down shows. */
  datatype Panel = Hidden | NoMatches | Listing(items: seq<Item>)

  function RenderPanel(s: Search): (p: Panel)
    ensures p.Hidden? <==> !s.showResults
    ensures p.NoMatches? <==> s.showResults && s.results == []
    ensures p.Listing? ==>
      && |p.items| == |s.results| > 0
      && forall i :: 0 <= i < |p.items| ==> p.items[i] == ItemOf(s.results[i])
  {
    if !s.showResults then Hidden
    else if |s.results| > 0 then Listing(seq(|s.results|, i requires 0 <= i < |s.results| => ItemOf(s.results[i])))
    else NoMatches
  }

  /** A search that matches nothing opens the panel on the "no matches"
      message rather than hiding it. */
  lemma EmptyAnswerShowsNoMatches(s: Search, data: Option<seq<SearchResult>>)
    requires LongEnough(s.query)
    requires data == None || data == Some([])
    ensures var fired := TimerFires(s);
      fired.Issued? && RenderPanel(SearchSettled(fired.state, Answered(data))) == NoMatches
  {
  }

  /** A query shorter than two characters once trimmed never reaches the
      backend, and when its timer fires the panel closes and the results are
      dropped. */
  lemma ShortQueryHides(s: Search)
    requires !LongEnough(s.query)
    ensures TimerFires(s).Cleared?
    ensures RenderPanel(TimerFires(s).state) == Hidden && TimerFires(s).state.results == []
  {
  }

  /** The queries of the timers `fired`, in order, that `wanted` accepts. */
  function Keep(fired: seq<Debounce.Edit>, wanted: string -> bool): seq<string>
  {
    if fired == [] then []
    else if wanted(fired[0].query) then [fired[0].query] + Keep(fired[1..], wanted)
    else Keep(fired[1..], wanted)
  }

  lemma {:induction false} KeepIff(fired: seq<Debounce.Edit>, wanted: string -> bool, q: string)
    ensures q in Keep(fired, wanted) <==> wanted(q) && exists k :: 0 <= k < |fired| && fired[k].query == q
  {
    if fired != [] {
      KeepIff(fired[1..], wanted, q);
      if exists k :: 0 <= k < |fired| && fired[k].query == q {
        var k :| 0 <= k < |fired| && fired[k].query == q;
        if k > 0 {
          assert fired[1..][k - 1].query == q;
        }
      }
      if exists k :: 0 <= k < |fired[1..]| && fired[1..][k].query == q {
        var k :| 0 <= k < |fired[1..]| && fired[1..][k].query == q;
        assert fired[k + 1].query == q;
      }
    }
  }

  /** The searches the fired timers issue, in order. */
  function Requests(fired: seq<Debounce.Edit>): seq<string>
  {
    Keep(fired, LongEnough)
  }

  /** Among the fired timers, exactly those whose query is long enough turn
      into searches, each for that query. */
  lemma RequestsIff(fired: seq<Debounce.Edit>, q: string)
    ensures q in Requests(fired) <==> LongEnough(q) && exists k :: 0 <= k < |fired| && fired[k].query == q
  {
    KeepIff(fired, LongEnough, q);
  }

  /** Typing three successive queries 100 ms apart (say "a", "ab", "abc"),
      at least one window after the box mounted, sends a single search, for
      the last of them; the empty query of the mount fires too but sends
      nothing. */
  lemma TypingBurstSendsOneSearch(t: int, q1: string, q2: string, q3: string)
    requires t >= Debounce.Delay
    requires q1 != "" && q2 != q1 && q3 != q2
    requires LongEnough(q3)
    ensures var edits := [Debounce.Edit(t, q1), Debounce.Edit(t + 100, q2), Debounce.Edit(t + 200, q3)];
      var fired := Debounce.Fired(Debounce.Timeline(0, edits));
      && fired == [Debounce.Edit(Debounce.Delay, ""), Debounce.Edit(t + 200 + Debounce.Delay, q3)]
      && Requests(fired) == [q3]
  {
    var edits := [Debounce.Edit(t, q1), Debounce.Edit(t + 100, q2), Debounce.Edit(t + 200, q3)];
    BurstTimeline(t, q1, q2, q3);
    var cs := [Debounce.Edit(0, "")] + edits;
    var last := Debounce.Edit(t + 200 + Debounce.Delay, q3);
    BurstFired(cs, last);
    BurstRequests(Debounce.Edit(Debounce.Delay, ""), last);
  }

  lemma BurstRequests(mount: Debounce.Edit, last: Debounce.Edit)
    requires mount.query == "" && LongEnough(last.query)
    ensures Requests([mount, last]) == [last.query]
  {
    assert Keep([last], LongEnough) == [last.query] by {
      assert [last][1..] == [];
    }
    assert !LongEnough(mount.query) by {
      assert Trim("") == [];
    }
    assert [mount, last][1..] == [last];
  }

  lemma BurstTimeline(t: int, q1: string, q2: string, q3: string)
    requires q1 != "" && q2 != q1 && q3 != q2
    ensures var edits := [Debounce.Edit(t, q1), Debounce.Edit(t + 100, q2), Debounce.Edit(t + 200, q3)];
      Debounce.Timeline(0, edits) == [Debounce.Edit(0, "")] + edits
  {
    var edits := [Debounce.Edit(t, q1), Debounce.Edit(t + 100, q2), Debounce.Edit(t + 200, q3)];
    assert Debounce.Changes(q2, edits[2..]) == edits[2..];
    assert Debounce.Changes(q1, edits[1..]) == edits[1..];
  }

  lemma BurstFired(cs: seq<Debounce.Edit>, last: Debounce.Edit)
    requires |cs| == 4 && cs[0] == Debounce.Edit(0, "")
    requires cs[1].time >= Debounce.Delay && cs[2].time == cs[1].time + 100 && cs[3].time == cs[1].time + 200
    requires last == Debounce.Fire(cs[3])
    ensures Debounce.Fired(cs) == [Debounce.Edit(Debounce.Delay, ""), last]
  {
    assert Debounce.FiredFrom(cs, 3) == [last];
    assert Debounce.FiredFrom(cs, 2) == [last];
    assert Debounce.FiredFrom(cs, 1) == [last];
  }

  /** Replies applied in the order they arrive. */
  function SettleAll(s: Search, replies: seq<Reply<seq<SearchResult>>>): Search
    decreases |replies|
  {
    if replies == [] then s else SettleAll(SearchSettled(s, replies[0]), replies[1..])
  }

  /** Failed searches change nothing but the spinner. */
  lemma {:induction false} FailuresKeepResults(s: Search, replies: seq<Reply<seq<SearchResult>>>)
    requires forall j :: 0 <= j < |replies| ==> replies[j].Failed?
    ensures var r := SettleAll(s, replies);
      r.results == s.results && r.showResults == s.showResults && r.query == s.query
      && (replies != [] ==> !r.isSearching)
    decreases |replies|
  {
    if replies != [] {
      FailuresKeepResults(SearchSettled(s, replies[0]), replies[1..]);
    }
  }

  /** The last successful answer to arrive decides the results, whichever
      query it answered: a slow reply to an older query overwrites the
      results of a newer one. */
  lemma {:induction false} LastAnswerWins(s: Search, replies: seq<Reply<seq<SearchResult>>>, i: int)
    requires 0 <= i < |replies| && replies[i].Answered?
    requires forall j :: i < j < |replies| ==> replies[j].Failed?
    ensures var r := SettleAll(s, replies);
      r.results == ListOrEmpty(replies[i].data) && r.showResults && !r.isSearching
    decreases |replies|
  {
    if i == 0 {
      FailuresKeepResults(SearchSettled(s, replies[0]), replies[1..]);
    } else {
      LastAnswerWins(SearchSettled(s, replies[0]), replies[1..], i - 1);
    }
  }

  /** The events the component reacts to. `Fired` is the debounce timer
      elapsing; `Settled` is a reply to any one of the searches in flight. */
  datatype Event =
    | Typed(query: string)
    | Fired
    | Settled(reply: Reply<seq<SearchResult>>)
    | MousedDown(inside: bool)
    | Focused
    | Selected

  /** The component together with the searches it has sent and not yet seen
      answered, and everything it has sent. */
  datatype World = World(ui: Search, inFlight: nat, sent: seq<string>)

  function Step(w: World, e: Event): World
  {
    match e
    case Typed(q) => w.(ui := Type(w.ui, q))
    case Fired =>
      (match TimerFires(w.ui)
       case Issued(u, q) => World(u, w.inFlight + 1, w.sent + [q])
       case Cleared(u) => w.(ui := u))
    case Settled(reply) =>
      if w.inFlight == 0 then w else World(SearchSettled(w.ui, reply), w.inFlight - 1, w.sent)
    case MousedDown(inside) => w.(ui := MouseDown(w.ui, inside))
    case Focused => w.(ui := Focus(w.ui))
    case Selected => w.(ui := SelectResult(w.ui))
  }

  function Run(w: World, es: seq<Event>): World
    decreases |es|
  {
    if es == [] then w else Run(Step(w, es[0]), es[1..])
  }

  /** The spinner only turns while a search is in flight, and every search
      sent was for a query long enough to search for. */
  predicate Consistent(w: World)
  {
    && (w.ui.isSearching ==> w.inFlight > 0)
    && (forall q :: q in w.sent ==> LongEnough(q))
  }

  lemma StepConsistent(w: World, e: Event)
    requires Consistent(w)
    ensures Consistent(Step(w, e))
  {
    if e.Fired? {
      var f := TimerFires(w.ui);
      if f.Issued? {
        assert Step(w, e) == World(f.state, w.inFlight + 1, w.sent + [f.request]);
        assert forall x :: x in w.sent + [f.request] ==> x in w.sent || x == f.request;
      } else {
        assert Step(w, e) == w.(ui := f.state);
      }
    } else if e.Settled? {
      assert w.inFlight == 0 ==> Step(w, e) == w;
    } else {
      assert Step(w, e).sent == w.sent && Step(w, e).inFlight == w.inFlight;
      assert Step(w, e).ui.isSearching == w.ui.isSearching;
    }
  }

  lemma {:induction false} RunConsistent(w: World, es: seq<Event>)
    requires Consistent(w)
    ensures Consistent(Run(w, es))
    decreases |es|
  {
    if es != [] {
      StepConsistent(w, es[0]);
      RunConsistent(Step(w, es[0]), es[1..]);
    }
  }

  /** The converse does not hold: with two searches overlapping, the first
      reply stops the spinner while the second is still out, and when that
      second, older reply lands its results replace the newer ones. */
  lemma OverlappingSearches(older: string, newer: string, a: seq<SearchResult>, b: seq<SearchResult>)
    requires LongEnough(older) && LongEnough(newer)
    ensures var es := [Typed(older), Fired, Typed(newer), Fired, Settled(Answered(Some(b)))];
      var w := Run(World(Mounted, 0, []), es);
      && w.sent == [older, newer] && w.inFlight == 1 && !w.ui.isSearching
      && Step(w, Settled(Answered(Some(a)))).ui.results == a
  {
    var tail := [Fired, Typed(newer), Fired, Settled(Answered(Some(b)))];
    var w0 := World(Mounted, 0, []);
    assert [Typed(older), Fired, Typed(newer), Fired, Settled(Answered(Some(b)))] == [Typed(older)] + tail;
    RunCons(w0, Typed(older), tail);
    TypedStep(w0, older);
    SecondSearchOverlaps(older, newer, b);
  }

  /** The trace of `OverlappingSearches` once the first query is typed. */
  lemma SecondSearchOverlaps(older: string, newer: string, b: seq<SearchResult>)
    requires LongEnough(older) && LongEnough(newer)
    ensures Run(World(Search(older, [], false, false), 0, []), [Fired, Typed(newer), Fired, Settled(Answered(Some(b)))])
      == World(Search(newer, b, false, true), 1, [older, newer])
  {
    FirstSearchIssued(older, newer, b);
    SecondQueryTyped(older, newer, b);
    SecondReplyLands(newer, b, [older]);
    assert [older] + [newer] == [older, newer];
  }

  /** The first timer of `OverlappingSearches` sends the first search. */
  lemma FirstSearchIssued(older: string, newer: string, b: seq<SearchResult>)
    requires LongEnough(older)
    ensures Run(World(Search(older, [], false, false), 0, []), [Fired, Typed(newer), Fired, Settled(Answered(Some(b)))])
      == Run(World(Search(older, [], true, false), 1, [older]), [Typed(newer), Fired, Settled(Answered(Some(b)))])
  {
    var w1 := World(Search(older, [], false, false), 0, []);
    assert [Fired, Typed(newer), Fired, Settled(Answered(Some(b)))]
      == [Fired] + [Typed(newer), Fired, Settled(Answered(Some(b)))];
    RunCons(w1, Fired, [Typed(newer), Fired, Settled(Answered(Some(b)))]);
    FiredIssues(w1);
    assert [] + [older] == [older];
  }

  /** The second query of `OverlappingSearches` is typed with the first
      search still out. */
  lemma SecondQueryTyped(older: string, newer: string, b: seq<SearchResult>)
    ensures Run(World(Search(older, [], true, false), 1, [older]), [Typed(newer), Fired, Settled(Answered(Some(b)))])
      == Run(World(Search(newer, [], true, false), |[older]|, [older]), [Fired, Settled(Answered(Some(b)))])
  {
    var w2 := World(Search(older, [], true, false), 1, [older]);
    assert [Typed(newer), Fired, Settled(Answered(Some(b)))]
      == [Typed(newer)] + [Fired, Settled(Answered(Some(b)))];
    RunCons(w2, Typed(newer), [Fired, Settled(Answered(Some(b)))]);
    TypedStep(w2, newer);
  }

  /** The last two events of `OverlappingSearches`. */
  lemma SecondReplyLands(newer: string, b: seq<SearchResult>, sent: seq<string>)
    requires LongEnough(newer)
    ensures Run(World(Search(newer, [], true, false), |sent|, sent), [Fired, Settled(Answered(Some(b)))])
      == World(Search(newer, b, false, true), |sent|, sent + [newer])
  {
    var w3 := World(Search(newer, [], true, false), |sent|, sent);
    var w4 := World(Search(newer, [], true, false), |sent| + 1, sent + [newer]);
    RunTwo(w3, Fired, Settled(Answered(Some(b))));
    FiredIssues(w3);
    AnswerLands(w4, b);
  }

  lemma RunStep(w: World, es: seq<Event>)
    requires es != []
    ensures Run(w, es) == Run(Step(w, es[0]), es[1..])
  {
  }

  lemma RunCons(w: World, e: Event, es: seq<Event>)
    ensures Run(w, [e] + es) == Run(Step(w, e), es)
  {
    RunStep(w, [e] + es);
    assert ([e] + es)[1..] == es;
  }

  lemma RunTwo(w: World, e1: Event, e2: Event)
    ensures Run(w, [e1, e2]) == Step(Step(w, e1), e2)
  {
    RunStep(w, [e1, e2]);
    assert [e1, e2][1..] == [e2];
    RunStep(Step(w, e1), [e2]);
    assert [e2][1..] == [];
  }

  lemma TypedStep(w: World, q: string)
    ensures Step(w, Typed(q)) == w.(ui := w.ui.(query := q))
  {
  }

  lemma AnswerLands(w: World, b: seq<SearchResult>)
    requires w.inFlight > 0
    ensures Step(w, Settled(Answered(Some(b)))) ==
      World(w.ui.(results := b, showResults := true, isSearching := false), w.inFlight - 1, w.sent)
  {
  }

  /** The timer's step in a run sends exactly the search `Requests` derives
      from that timer: `Requests` is the log of the step function. */
  lemma FiredSends(w: World, t: int)
    ensures Step(w, Fired).sent == w.sent + Requests([Debounce.Edit(t, w.ui.query)])
  {
    var e := Debounce.Edit(t, w.ui.query);
    assert Keep([e][1..], LongEnough) == [] by {
      assert [e][1..] == [];
    }
    if LongEnough(w.ui.query) {
      FiredIssues(w);
      assert Requests([e]) == [w.ui.query];
    } else {
      assert Requests([e]) == [];
      assert w.sent + [] == w.sent;
    }
  }

  lemma FiredIssues(w: World)
    requires LongEnough(w.ui.query)
    ensures Step(w, Fired) == World(w.ui.(isSearching := true), w.inFlight + 1, w.sent + [w.ui.query])
  {
  }
}
