/** The search box's debounce: every change of the query re-runs an effect
    whose cleanup cancels the pending 300 ms timer and whose body starts a
    new one. Time is explicit here: an edit is a timestamped value of the
    input, and the result is the list of timers that actually fire. */
module Debounce {
  import opened Backend

  /** The `setTimeout` delay, in milliseconds. */
  const Delay := 300

  /** The input holds `query` from instant `time` (milliseconds) on. Also
      used for a timer that fires at `time` with `query`. */
  datatype Edit = Edit(time: int, query: string)

  predicate Chronological(es: seq<Edit>)
  {
    forall i, j :: 0 <= i < j < |es| ==> es[i].time <= es[j].time
  }

  /** The query shown after the edits `es`, starting from `current`. */
  function Final(current: string, es: seq<Edit>): string
  {
    if es == [] then current else es[|es| - 1].query
  }

  /** The edits that change the query. The effect depends on `[query]`, and
      setting a state hook to the value it already holds re-renders nothing,
      so only these re-run the effect. */
  function Changes(current: string, edits: seq<Edit>): (r: seq<Edit>)
    ensures |r| <= |edits|
    ensures |r| > 0 ==> r[0].query != current
    ensures forall k :: 0 < k < |r| ==> r[k].query != r[k - 1].query
    ensures Final(current, r) == Final(current, edits)
    decreases |edits|
  {
    if edits == [] then []
    else if edits[0].query == current then Changes(current, edits[1..])
    else
      [edits[0]] + Changes(edits[0].query, edits[1..])
  }

  /** Every change is one of the edits. */
  lemma {:induction false} ChangesAreEdits(current: string, edits: seq<Edit>)
    ensures forall c :: c in Changes(current, edits) ==> c in edits
    decreases |edits|
  {
    if edits != [] {
      var next := if edits[0].query == current then current else edits[0].query;
      ChangesAreEdits(next, edits[1..]);
      assert forall c :: c in edits[1..] ==> c in edits;
    }
  }

  /** No change is lost: every edit that sets the input to something other
      than what it held just before is one of the changes. */
  lemma {:induction false} ChangesComplete(current: string, edits: seq<Edit>, k: int)
    requires 0 <= k < |edits| && edits[k].query != Final(current, edits[..k])
    ensures edits[k] in Changes(current, edits)
    decreases |edits|
  {
    var next := edits[0].query;
    assert Changes(current, edits) == Changes(next, edits[1..])
      || Changes(current, edits) == [edits[0]] + Changes(next, edits[1..]);
    if k > 0 {
      assert Final(next, edits[1..][..k - 1]) == Final(current, edits[..k]);
      assert edits[1..][k - 1] == edits[k];
      ChangesComplete(next, edits[1..], k - 1);
    }
  }

  /** `ChangesComplete` for every edit at once. */
  lemma ChangesCompleteAll(current: string, edits: seq<Edit>)
    ensures forall k :: 0 <= k < |edits| && edits[k].query != Final(current, edits[..k]) ==>
      edits[k] in Changes(current, edits)
  {
    forall k | 0 <= k < |edits| && edits[k].query != Final(current, edits[..k]) {
      ChangesComplete(current, edits, k);
    }
  }

  /** Dropping edits keeps the timeline in time order, and no change is
      earlier than the first edit. */
  lemma {:induction false} ChangesChronological(current: string, edits: seq<Edit>)
    requires Chronological(edits)
    ensures var r := Changes(current, edits);
      && Chronological(r)
      && (|edits| > 0 ==> forall k :: 0 <= k < |r| ==> edits[0].time <= r[k].time)
    decreases |edits|
  {
    if edits != [] {
      var next := if edits[0].query == current then current else edits[0].query;
      ChangesChronological(next, edits[1..]);
      var rest := Changes(next, edits[1..]);
      if |edits| > 1 {
        assert forall k :: 0 <= k < |rest| ==> edits[0].time <= edits[1].time <= rest[k].time;
      }
    }
  }

  /** The query changes seen by the effect from the moment the search box
      mounts with an empty query: one run at the mount, then one per change,
      never twice in a row with the same query, ending at the input's final
      value. */
  function Timeline(mount: int, edits: seq<Edit>): (r: seq<Edit>)
    ensures 1 <= |r| <= |edits| + 1
    ensures r[0] == Edit(mount, "")
    ensures forall k :: 0 < k < |r| ==> r[k].query != r[k - 1].query
    ensures Final("", r) == Final("", edits)
    ensures forall c :: c in r[1..] ==> c in edits
    ensures forall k :: 0 <= k < |edits| && edits[k].query != Final("", edits[..k]) ==> edits[k] in r[1..]
  {
    ChangesAreEdits("", edits);
    ChangesCompleteAll("", edits);
    assert ([Edit(mount, "")] + Changes("", edits))[1..] == Changes("", edits);
    [Edit(mount, "")] + Changes("", edits)
  }

  /** The timer a change schedules. */
  function Fire(c: Edit): Edit
  {
    Edit(c.time + Delay, c.query)
  }

  /** Change `i` is not followed by another before its timer is due. An edit
      landing exactly at the deadline is taken to arrive after the timer. */
  predicate Quiet(cs: seq<Edit>, i: int)
    requires 0 <= i < |cs|
  {
    i == |cs| - 1 || cs[i + 1].time >= cs[i].time + Delay
  }

  /** No later change at all comes before change `i`'s deadline: the query
      stays as set by change `i` for the whole window. */
  predicate Undisturbed(cs: seq<Edit>, i: int)
    requires 0 <= i < |cs|
  {
    forall j :: i < j < |cs| ==> cs[j].time >= cs[i].time + Delay
  }

  /** The timers of changes `k..` that fire, in order. */
  function FiredFrom(cs: seq<Edit>, k: int): seq<Edit>
    requires 0 <= k <= |cs|
    decreases |cs| - k
  {
    if k == |cs| then []
    else (if Quiet(cs, k) then [Fire(cs[k])] else []) + FiredFrom(cs, k + 1)
  }

  /** The timers that fire for the changes `cs`: the declarative rule. */
  function Fired(cs: seq<Edit>): seq<Edit>
  {
    FiredFrom(cs, 0)
  }

  /** The mechanism itself: one pending timer handle, which fires if its
      deadline comes before the next change and is otherwise cancelled and
      replaced by that change's timer. It fires exactly the timers `Fired`
      describes. */
  method RunTimers(cs: seq<Edit>) returns (fired: seq<Edit>)
    ensures fired == Fired(cs)
  {
    fired := [];
    if cs == [] {
      return;
    }
    var pending := Fire(cs[0]);
    for i := 1 to |cs|
      invariant pending == Fire(cs[i - 1])
      invariant fired + FiredFrom(cs, i - 1) == Fired(cs)
    {
      var c := cs[i];
      if pending.time <= c.time {
        assert FiredFrom(cs, i - 1) == [pending] + FiredFrom(cs, i);
        fired := fired + [pending];
      } else {
        assert FiredFrom(cs, i - 1) == FiredFrom(cs, i);
      }
      pending := Fire(c);
    }
    assert FiredFrom(cs, |cs| - 1) == [pending];
    fired := fired + [pending];
  }

  /** On a chronological timeline the next change is the earliest one, so
      "quiet until the next change" means "undisturbed for the window". */
  lemma QuietIffUndisturbed(cs: seq<Edit>, i: int)
    requires Chronological(cs) && 0 <= i < |cs|
    ensures Quiet(cs, i) <==> Undisturbed(cs, i)
  {
  }

  lemma {:induction false} FiredFromMembership(cs: seq<Edit>, k: int, e: Edit)
    requires 0 <= k <= |cs|
    ensures e in FiredFrom(cs, k) <==> exists i :: k <= i < |cs| && Quiet(cs, i) && e == Fire(cs[i])
    decreases |cs| - k
  {
    if k < |cs| {
      FiredFromMembership(cs, k + 1, e);
    }
  }

  /** A timer fires for exactly those changes after which the query stays
      unchanged for the full window, and it fires with that change's query
      at that change's time plus the delay. */
  lemma FiredIff(cs: seq<Edit>, e: Edit)
    requires Chronological(cs)
    ensures e in Fired(cs) <==> exists i :: 0 <= i < |cs| && Undisturbed(cs, i) && e == Fire(cs[i])
  {
    FiredFromMembership(cs, 0, e);
    forall i | 0 <= i < |cs|
      ensures Quiet(cs, i) <==> Undisturbed(cs, i)
    {
      QuietIffUndisturbed(cs, i);
    }
  }

  lemma {:induction false} LastFiresFrom(cs: seq<Edit>, k: int)
    requires 0 <= k < |cs|
    ensures var f := FiredFrom(cs, k); f != [] && f[|f| - 1] == Fire(cs[|cs| - 1])
    decreases |cs| - k
  {
    if k < |cs| - 1 {
      LastFiresFrom(cs, k + 1);
    }
  }

  /** When typing stops, the last query always fires. */
  lemma LastFires(cs: seq<Edit>)
    requires |cs| > 0
    ensures var f := Fired(cs); f != [] && f[|f| - 1] == Fire(cs[|cs| - 1])
  {
    LastFiresFrom(cs, 0);
  }

  /** Every timer in `f` is due at `t` or later. */
  predicate AllFrom(f: seq<Edit>, t: int)
  {
    forall m :: 0 <= m < |f| ==> f[m].time >= t
  }

  /** Consecutive timers in `f` are at least one window apart. */
  predicate Spaced(f: seq<Edit>)
  {
    forall m :: 0 < m < |f| ==> f[m].time >= f[m - 1].time + Delay
  }

  lemma {:induction false} FiredFromSpaced(cs: seq<Edit>, k: int)
    requires Chronological(cs) && 0 <= k <= |cs|
    ensures k < |cs| ==> AllFrom(FiredFrom(cs, k), cs[k].time + Delay)
    ensures Spaced(FiredFrom(cs, k))
    decreases |cs| - k
  {
    if k < |cs| {
      FiredFromSpaced(cs, k + 1);
      var rest := FiredFrom(cs, k + 1);
      var f := FiredFrom(cs, k);
      if k + 1 < |cs| {
        assert cs[k].time <= cs[k + 1].time;
      }
      if rest != [] {
        assert k + 1 < |cs|;
        assert rest[0].time >= cs[k + 1].time + Delay;
      }
      if Quiet(cs, k) {
        assert f == [Fire(cs[k])] + rest;
        assert forall m :: 0 < m < |f| ==> f[m] == rest[m - 1];
      } else {
        assert f == rest;
      }
    }
  }

  /** Fired timers come in time order, at least one window apart: however
      fast the user types, at most one timer fires per 300 ms. */
  lemma FiredSpaced(cs: seq<Edit>)
    requires Chronological(cs)
    ensures Spaced(Fired(cs))
  {
    FiredFromSpaced(cs, 0);
  }
}
