/** The pull-request timeline view: the table from event type to view component,
    the author-filter reducer, the filter applied to the events, the choice of
    what each kept event renders as, and the effect that adds missing authors to
    the filter. Whether an event is new is decided elsewhere and arrives here as
    a boolean; rendering itself is not modelled, only which case applies. */
module Timeline {
  import opened Common
  import opened Store

  // ---------------------------------------------------------------------------
  // The components table

  /** The view components an event type can be shown with. */
  datatype Component =
    | CommitView
    | ReviewView
    | CommentView
    | MergedView
    | ThreadView
    | RenamedTitleView
    | ReferenceView

  /** The event types the table has an entry for. */
  const TableKinds: set<string> := {
    "Commit", "PullRequestReview", "PullRequestReviewComment", "IssueComment", "MergedEvent",
    ThreadType, "RenamedTitleEvent", "CrossReferencedEvent", "ReferencedEvent" }

  /** The table lookup `components[event.type]`. Two pairs of types share a
      component: both comment kinds use the comment view, and both reference
      kinds use the reference view; every other component serves one type. */
  function ComponentFor(kind: string): (c: Option<Component>)
    ensures c.None? <==> kind !in TableKinds
    ensures c == Some(CommentView) <==> kind == "PullRequestReviewComment" || kind == "IssueComment"
    ensures c == Some(ReferenceView) <==> kind == "CrossReferencedEvent" || kind == "ReferencedEvent"
    ensures c == Some(CommitView) <==> kind == "Commit"
    ensures c == Some(ReviewView) <==> kind == "PullRequestReview"
    ensures c == Some(MergedView) <==> kind == "MergedEvent"
    ensures c == Some(ThreadView) <==> kind == ThreadType
    ensures c == Some(RenamedTitleView) <==> kind == "RenamedTitleEvent"
  {
    if kind == "Commit" then Some(CommitView)
    else if kind == "PullRequestReview" then Some(ReviewView)
    else if kind == "PullRequestReviewComment" then Some(CommentView)
    else if kind == "IssueComment" then Some(CommentView)
    else if kind == "MergedEvent" then Some(MergedView)
    else if kind == ThreadType then Some(ThreadView)
    else if kind == "RenamedTitleEvent" then Some(RenamedTitleView)
    else if kind == "CrossReferencedEvent" then Some(ReferenceView)
    else if kind == "ReferencedEvent" then Some(ReferenceView)
    else None
  }

  // ---------------------------------------------------------------------------
  // The author-filter reducer

  /** `list.find(u => u === login)` used as a condition: it yields the login
      itself, so it is truthy only when the login is present and not empty. */
  predicate Found(list: seq<string>, login: string)
  {
    login in list && login != ""
  }

  function IsNot(user: string): (keep: string -> bool)
  {
    (u: string) => u != user
  }

  /** filterByUserReducer: a user found in the filter is removed (every
      occurrence, the others keeping their order); otherwise it is appended. */
  function FilterByUser(state: seq<string>, user: string): (r: seq<string>)
    ensures Found(state, user) ==> user !in r && IsSubsequence(r, state)
    ensures Found(state, user) ==>
      forall k :: 0 <= k < |state| && state[k] != user ==> multiset(r)[state[k]] == multiset(state)[state[k]]
    ensures !Found(state, user) ==> r == state + [user]
  {
    if Found(state, user) then Filter(state, IsNot(user)) else state + [user]
  }

  /** Toggling a user flips that user's checkbox and no other. */
  lemma ToggleFlipsOnlyUser(state: seq<string>, user: string)
    requires user != ""
    ensures Found(FilterByUser(state, user), user) == !Found(state, user)
    ensures forall v :: v != user ==> (v in FilterByUser(state, user) <==> v in state)
  {
  }

  /** Toggling the same absent user twice gives back the original filter. */
  lemma ToggleAbsentTwice(state: seq<string>, user: string)
    requires user != "" && user !in state
    ensures FilterByUser(FilterByUser(state, user), user) == state
  {
    FilterAppend(state, [user], IsNot(user));
    FilterKeepsAll(state, IsNot(user));
    assert Filter([user], IsNot(user)) == [];
  }

  // ---------------------------------------------------------------------------
  // The author filter over the events

  /** A comment written by someone in the filter. */
  predicate Matches(filter: seq<string>, c: Comment)
  {
    c.author.Some? && Found(filter, c.author.value.login)
  }

  /** Some comment by someone in the filter comes before any comment without an author. */
  predicate MatchFirst(filter: seq<string>, cs: seq<Comment>)
  {
    exists k :: 0 <= k < |cs| && Matches(filter, cs[k]) && forall j :: 0 <= j < k ==> cs[j].author.Some?
  }

  /** Some comment without an author comes before any comment by someone in the filter. */
  predicate MissingFirst(filter: seq<string>, cs: seq<Comment>)
  {
    exists k :: 0 <= k < |cs| && cs[k].author.None? && forall j :: 0 <= j < k ==> !Matches(filter, cs[j])
  }

  /** `comments.find(c => filter.find(u => u === c.author.login))` as a condition:
      the comments are read in order until one matches, and reading the author of
      a comment that has none throws, which is `None`. */
  function ThreadVerdict(filter: seq<string>, cs: seq<Comment>): (r: Option<bool>)
    ensures r == Some(true) <==> MatchFirst(filter, cs)
    ensures r.None? <==> MissingFirst(filter, cs)
    ensures r.Some? ==> (r == Some(true) <==> exists c :: c in cs && Matches(filter, c))
  {
    if cs == [] then Some(false)
    else if cs[0].author.None? then
      assert MissingFirst(filter, cs) by { assert cs[0].author.None?; }
      None
    else if Found(filter, cs[0].author.value.login) then
      assert MatchFirst(filter, cs) by { assert Matches(filter, cs[0]); }
      Some(true)
    else
      var rest := ThreadVerdict(filter, cs[1..]);
      SkipNonMatching(filter, cs);
      rest
  }

  /** Reading past a comment that has an author outside the filter changes neither condition. */
  lemma SkipNonMatching(filter: seq<string>, cs: seq<Comment>)
    requires |cs| > 0 && cs[0].author.Some? && !Matches(filter, cs[0])
    ensures MatchFirst(filter, cs) <==> MatchFirst(filter, cs[1..])
    ensures MissingFirst(filter, cs) <==> MissingFirst(filter, cs[1..])
    ensures (exists c :: c in cs && Matches(filter, c)) <==> (exists c :: c in cs[1..] && Matches(filter, c))
  {
    SkipMatchFirst(filter, cs);
    SkipMissingFirst(filter, cs);
    assert cs == [cs[0]] + cs[1..];
  }

  lemma SkipMatchFirst(filter: seq<string>, cs: seq<Comment>)
    requires |cs| > 0 && cs[0].author.Some? && !Matches(filter, cs[0])
    ensures MatchFirst(filter, cs) <==> MatchFirst(filter, cs[1..])
  {
    var tail := cs[1..];
    if MatchFirst(filter, cs) {
      var k :| 0 <= k < |cs| && Matches(filter, cs[k]) && forall j :: 0 <= j < k ==> cs[j].author.Some?;
      forall j | 0 <= j < k - 1
        ensures tail[j].author.Some?
      {
        assert tail[j] == cs[j + 1];
      }
      assert Matches(filter, tail[k - 1]);
    }
    if MatchFirst(filter, tail) {
      var k :| 0 <= k < |tail| && Matches(filter, tail[k]) && forall j :: 0 <= j < k ==> tail[j].author.Some?;
      forall j | 0 <= j < k + 1
        ensures cs[j].author.Some?
      {
        if j > 0 {
          assert cs[j] == tail[j - 1];
        }
      }
      assert Matches(filter, cs[k + 1]);
    }
  }

  lemma SkipMissingFirst(filter: seq<string>, cs: seq<Comment>)
    requires |cs| > 0 && cs[0].author.Some? && !Matches(filter, cs[0])
    ensures MissingFirst(filter, cs) <==> MissingFirst(filter, cs[1..])
  {
    var tail := cs[1..];
    if MissingFirst(filter, cs) {
      var k :| 0 <= k < |cs| && cs[k].author.None? && forall j :: 0 <= j < k ==> !Matches(filter, cs[j]);
      forall j | 0 <= j < k - 1
        ensures !Matches(filter, tail[j])
      {
        assert tail[j] == cs[j + 1];
      }
      assert tail[k - 1].author.None?;
    }
    if MissingFirst(filter, tail) {
      var k :| 0 <= k < |tail| && tail[k].author.None? && forall j :: 0 <= j < k ==> !Matches(filter, tail[j]);
      forall j | 0 <= j < k + 1
        ensures !Matches(filter, cs[j])
      {
        if j > 0 {
          assert cs[j] == tail[j - 1];
        }
      }
      assert cs[k + 1].author.None?;
    }
  }

  /** The filter's verdict on one event, or `None` where the source throws: an
      event without an author is kept only if it is a review thread with a
      comment by someone in the filter; reading the comments of a thread that has
      none, or the author of a comment that has none, fails. */
  function KeepEvent(filter: seq<string>, e: Event): (r: Option<bool>)
  {
    if |filter| == 0 then Some(true)
    else if e.author.Some? then Some(Found(filter, e.author.value.login))
    else if e.kind == ThreadType then
      match e.comments
      case None => None
      case Some(cs) => ThreadVerdict(filter, cs)
    else Some(false)
  }

  function Kept(filter: seq<string>): (keep: Event -> bool)
  {
    (e: Event) => KeepEvent(filter, e) == Some(true)
  }

  /** The events the timeline shows, or `None` when the filter throws. */
  function FilterEvents(events: seq<Event>, filter: seq<string>): (r: Option<seq<Event>>)
    ensures r.None? <==>
      |filter| > 0 && exists e :: e in events && e.author.None? && e.kind == ThreadType
                                 && (e.comments.None? || ThreadVerdict(filter, e.comments.value).None?)
    ensures |filter| == 0 ==> r == Some(events)
    ensures r.Some? ==> IsSubsequence(r.value, events)
    ensures r.Some? && |filter| > 0 ==> forall e :: e in events ==>
      (e in r.value <==>
        if e.author.Some? then Found(filter, e.author.value.login)
        else e.kind == ThreadType && e.comments.Some? && exists c :: c in e.comments.value && Matches(filter, c))
    ensures r.Some? ==>
      forall k :: 0 <= k < |events| && events[k] in r.value ==> multiset(r.value)[events[k]] == multiset(events)[events[k]]
  {
    if exists e :: e in events && KeepEvent(filter, e).None? then None
    else
      var kept := Filter(events, Kept(filter));
      KeptExactly(events, filter, kept);
      Some(kept)
  }

  lemma KeptExactly(events: seq<Event>, filter: seq<string>, kept: seq<Event>)
    requires kept == Filter(events, Kept(filter))
    ensures forall e :: e in events ==> (e in kept <==> KeepEvent(filter, e) == Some(true))
    ensures |filter| == 0 ==> kept == events
  {
    if |filter| == 0 {
      FilterKeepsAll(events, Kept(filter));
    }
    forall e | e in events
      ensures e in kept <==> KeepEvent(filter, e) == Some(true)
    {
      var k :| 0 <= k < |events| && events[k] == e;
      if KeepEvent(filter, e) == Some(true) {
        assert multiset(kept)[e] == multiset(events)[e] > 0;
      }
      if e in kept {
        var j :| 0 <= j < |kept| && kept[j] == e;
        assert Kept(filter)(kept[j]);
      }
    }
  }

  // ---------------------------------------------------------------------------
  // What each shown event renders as

  datatype Rendering =
    | Dimmed(kind: string)          // a known event, dimmed, labelled with its type
    | Nothing                       // a pending review: nothing at all
    | Shown(component: Component)   // the table's component for the type
    | TypeName(kind: string)        // an unknown type: its name as plain text

  predicate IsPendingReview(e: Event)
  {
    e.kind == "PullRequestReview" && e.state == Some("PENDING")
  }

  /** The per-event choice: dimming an old event comes first and applies to every
      type, then a pending review is hidden, then the table decides, with the type
      name as the fallback. */
  function Render(e: Event, dimKnownEvents: bool, isNew: bool): (r: Rendering)
    ensures r.Dimmed? <==> dimKnownEvents && !isNew
    ensures r == Nothing <==> !(dimKnownEvents && !isNew) && IsPendingReview(e)
    ensures r.Shown? <==> !(dimKnownEvents && !isNew) && !IsPendingReview(e) && ComponentFor(e.kind).Some?
    ensures r.Shown? ==> ComponentFor(e.kind) == Some(r.component)
    ensures r.Dimmed? || r.TypeName? ==> r.kind == e.kind
  {
    if dimKnownEvents && !isNew then Dimmed(e.kind)
    else if IsPendingReview(e) then Nothing
    else match ComponentFor(e.kind)
      case Some(c) => Shown(c)
      case None => TypeName(e.kind)
  }

  /** The timeline body: the filtered events, each classified in order. */
  function RenderTimeline(events: seq<Event>, filter: seq<string>, dimKnownEvents: bool, isNew: Event -> bool)
    : (r: Option<seq<Rendering>>)
    ensures r.None? <==> FilterEvents(events, filter).None?
    ensures r.Some? ==> |r.value| == |FilterEvents(events, filter).value|
    ensures r.Some? ==> forall k :: 0 <= k < |r.value| ==>
      var e := FilterEvents(events, filter).value[k];
      r.value[k] == Render(e, dimKnownEvents, isNew(e))
  {
    match FilterEvents(events, filter)
    case None => None
    case Some(kept) => Some(Map(kept, (e: Event) => Render(e, dimKnownEvents, isNew(e))))
  }

  /** With no author filter and no dimming, every event gets one rendering, and
      only pending reviews render as nothing. */
  lemma UnfilteredShowsEveryEvent(events: seq<Event>, isNew: Event -> bool)
    ensures var r := RenderTimeline(events, [], false, isNew);
      r.Some? && |r.value| == |events| &&
      forall k :: 0 <= k < |events| ==> (r.value[k] == Nothing <==> IsPendingReview(events[k]))
  {
  }

  // ---------------------------------------------------------------------------
  // The effect that adds missing authors

  function IsAbsent(shown: seq<string>): (keep: string -> bool)
  {
    (u: string) => u !in shown
  }

  /** Dispatching filterByUserReducer once per user, in order. */
  function ToggleEach(state: seq<string>, users: seq<string>): (r: seq<string>)
    decreases |users|
  {
    if users == [] then state else ToggleEach(FilterByUser(state, users[0]), users[1..])
  }

  /** The effect run when the pull request changes: every user not in the filter
      `shown` that the render saw is toggled, each dispatch applied to the state the
      previous one produced. For distinct users this appends exactly the missing
      ones, in order, so afterwards every user is in the filter and none was removed. */
  method AddMissingUsers(shown: seq<string>, users: seq<string>) returns (filter: seq<string>)
    ensures filter == ToggleEach(shown, Filter(users, IsAbsent(shown)))
    ensures Distinct(users) ==> filter == shown + Filter(users, IsAbsent(shown))
    ensures Distinct(users) ==> forall u :: u in users ==> u in filter
  {
    filter := shown;
    var i := 0;
    assert users[0..] == users;
    while i < |users|
      invariant 0 <= i <= |users|
      invariant ToggleEach(filter, Filter(users[i..], IsAbsent(shown))) == ToggleEach(shown, Filter(users, IsAbsent(shown)))
    {
      var user := users[i];
      assert users[i..][1..] == users[i + 1..];
      if FirstIndex(shown, user).None? {
        filter := FilterByUser(filter, user);
      }
      i := i + 1;
    }
    if Distinct(users) {
      MissingUsersAppended(shown, users);
    }
  }

  lemma MissingUsersAppended(shown: seq<string>, users: seq<string>)
    requires Distinct(users)
    ensures ToggleEach(shown, Filter(users, IsAbsent(shown))) == shown + Filter(users, IsAbsent(shown))
    ensures forall u :: u in users ==> u in shown + Filter(users, IsAbsent(shown))
  {
    var missing := Filter(users, IsAbsent(shown));
    FilterDistinct(users, IsAbsent(shown));
    assert forall k :: 0 <= k < |missing| ==> missing[k] !in shown by {
      forall k | 0 <= k < |missing| ensures missing[k] !in shown {
        assert IsAbsent(shown)(missing[k]);
      }
    }
    ToggleEachAppends(shown, missing);
    forall u | u in users && u !in shown
      ensures u in missing
    {
      var k :| 0 <= k < |users| && users[k] == u;
      assert multiset(missing)[u] == multiset(users)[u] > 0;
    }
  }

  /** Toggling users that are all absent and distinct appends each in turn. */
  lemma {:induction false} ToggleEachAppends(state: seq<string>, xs: seq<string>)
    requires Distinct(xs)
    requires forall k :: 0 <= k < |xs| ==> xs[k] !in state
    ensures ToggleEach(state, xs) == state + xs
    decreases |xs|
  {
    if xs != [] {
      var next := state + [xs[0]];
      assert FilterByUser(state, xs[0]) == next;
      forall k | 0 <= k < |xs[1..]|
        ensures xs[1..][k] !in next
      {
        assert xs[1..][k] == xs[k + 1] != xs[0];
      }
      ToggleEachAppends(next, xs[1..]);
      assert next + xs[1..] == state + xs;
    }
  }
}
