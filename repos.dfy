/** The update functions of the "repos" slice. Each one maps over the repository
    list and adds to, replaces in or removes from one nested level, matching by id;
    a target that matches nothing leaves the list as it was. */
module Repos {
  import opened Common
  import opened Store

  // ---------------------------------------------------------------------------
  // Locating the target pull request

  /** `r.prs.find(({ id }) => id === prId)`: the first pull request with that id. */
  function FindPR(prs: seq<PullRequest>, prId: PRId): (j: Option<nat>)
  {
    FirstIndex(PRIds(prs), prId)
  }

  /** Pull request `j` of `repo` is the one a repo/PR-scoped action edits:
      the repository's id matches and `j` is the first PR with the id. */
  predicate IsTarget(repo: Repo, j: int, repoId: RepoId, prId: PRId)
  {
    repo.repoId == repoId && FindPR(repo.prs, prId) == Some(j)
  }

  /** Some repository with the id holds a pull request with the id. */
  predicate HasTarget(repos: seq<Repo>, repoId: RepoId, prId: PRId)
  {
    exists i :: 0 <= i < |repos| && repos[i].repoId == repoId && prId in PRIds(repos[i].prs)
  }

  /** `b` holds `a`'s repositories and pull requests at the same positions with the
      same fields; only the event lists may differ. */
  ghost predicate OnlyEventsChange(a: seq<Repo>, b: seq<Repo>)
  {
    && |b| == |a|
    && (forall i :: 0 <= i < |a| ==> b[i] == a[i].(prs := b[i].prs) && |b[i].prs| == |a[i].prs|)
    && (forall i, j :: 0 <= i < |a| && 0 <= j < |a[i].prs| ==>
          b[i].prs[j] == a[i].prs[j].(events := b[i].prs[j].events))
  }

  /** Two repository lists of the same shape whose pull requests agree are equal. */
  lemma EqualByPRs(a: seq<Repo>, b: seq<Repo>)
    requires |b| == |a|
    requires forall i :: 0 <= i < |a| ==> b[i] == a[i].(prs := b[i].prs) && |b[i].prs| == |a[i].prs|
    requires forall i, j :: 0 <= i < |a| && 0 <= j < |a[i].prs| ==> b[i].prs[j] == a[i].prs[j]
    ensures a == b
  {
    forall i | 0 <= i < |a|
      ensures a[i] == b[i]
    {
      assert a[i].prs == b[i].prs;
    }
  }

  /** Two repository lists of the same shape whose event lists agree are equal. */
  lemma EqualByEvents(a: seq<Repo>, b: seq<Repo>)
    requires OnlyEventsChange(a, b)
    requires forall i, j :: 0 <= i < |a| && 0 <= j < |a[i].prs| ==> b[i].prs[j].events == a[i].prs[j].events
    ensures a == b
  {
    EqualByPRs(a, b);
  }

  /** `find` the target pull request, then update it alone. */
  function UpdateFirstPR(prs: seq<PullRequest>, prId: PRId, f: PullRequest -> PullRequest): (r: seq<PullRequest>)
    ensures |r| == |prs|
    ensures forall j :: 0 <= j < |prs| ==> r[j] == if FindPR(prs, prId) == Some(j) then f(prs[j]) else prs[j]
  {
    match FindPR(prs, prId)
    case None => prs
    case Some(j) => prs[j := f(prs[j])]
  }

  /** The shape shared by every repo/PR-scoped action: map over the repositories and,
      in each one whose id matches, update the first pull request with the id. */
  function InTargetPR(repos: seq<Repo>, repoId: RepoId, prId: PRId, f: PullRequest -> PullRequest): (r: seq<Repo>)
    ensures |r| == |repos|
    ensures forall i :: 0 <= i < |repos| ==> r[i] == repos[i].(prs := r[i].prs) && |r[i].prs| == |repos[i].prs|
    ensures forall i, j :: 0 <= i < |repos| && 0 <= j < |repos[i].prs| ==>
              r[i].prs[j] == if IsTarget(repos[i], j, repoId, prId) then f(repos[i].prs[j]) else repos[i].prs[j]
    ensures !HasTarget(repos, repoId, prId) ==> r == repos
  {
    var r := Map(repos, (repo: Repo) => if repo.repoId == repoId then repo.(prs := UpdateFirstPR(repo.prs, prId, f)) else repo);
    if !HasTarget(repos, repoId, prId) then
      EqualByPRs(repos, r);
      r
    else
      r
  }

  // ---------------------------------------------------------------------------
  // Event lists

  /** `p.events.map(e => e.id === event.id ? event : e)`. */
  function ReplaceById(events: seq<Event>, event: Event): (r: seq<Event>)
    ensures |r| == |events|
    ensures forall k :: 0 <= k < |events| ==> r[k] == if events[k].id == event.id then event else events[k]
    ensures event.id !in EventIds(events) ==> r == events
  {
    Map(events, (e: Event) => if e.id == event.id then event else e)
  }

  /** `p.events.filter(e => e.id !== id)`. */
  function RemoveById(events: seq<Event>, id: Option<string>): (r: seq<Event>)
    ensures id !in EventIds(r)
    ensures IsSubsequence(r, events)
    ensures forall k :: 0 <= k < |events| && events[k].id != id ==> multiset(r)[events[k]] == multiset(events)[events[k]]
    ensures id !in EventIds(events) ==> r == events
  {
    var r := Filter(events, (e: Event) => e.id != id);
    if id !in EventIds(events) then
      FilterKeepsAll(events, (e: Event) => e.id != id);
      r
    else
      r
  }

  // ---------------------------------------------------------------------------
  // Review threads and their comments

  /** `e.comments && e.comments.length > 0`. */
  predicate HasComments(e: Event)
  {
    e.comments.Some? && |e.comments.value| > 0
  }

  /** The event is a thread whose first comment has the id. */
  predicate StartsThread(e: Event, commentId: string)
  {
    HasComments(e) && e.comments.value[0].id == commentId
  }

  /** JavaScript truthiness of `topComment.id`: present and not the empty string. */
  predicate Truthy(id: Option<string>)
  {
    id.Some? && id.value != ""
  }

  /** The event pushed for a first inline comment: a thread with no `id` and no `author`. */
  function NewThread(comment: Comment): (e: Event)
  {
    Event(None, ThreadType, None, Some(comment.date), None, Some(false), Some([comment]))
  }

  /** `e.comments.push(comment)`. */
  function AppendComment(e: Event, comment: Comment): (r: Event)
    requires e.comments.Some?
  {
    e.(comments := Some(e.comments.value + [comment]))
  }

  /** The event-list part of addPRReviewComment. */
  function AddReviewComment(events: seq<Event>, topCommentId: Option<string>, comment: Comment): (r: seq<Event>)
    ensures !Truthy(topCommentId) ==> r == events + [NewThread(comment)]
    ensures Truthy(topCommentId) ==> |r| == |events|
    ensures Truthy(topCommentId) ==> forall k :: 0 <= k < |events| ==>
              r[k] == if StartsThread(events[k], topCommentId.value) then AppendComment(events[k], comment) else events[k]
    ensures Truthy(topCommentId) && (forall k :: 0 <= k < |events| ==> !StartsThread(events[k], topCommentId.value)) ==> r == events
  {
    if Truthy(topCommentId) then
      Map(events, (e: Event) => if StartsThread(e, topCommentId.value) then AppendComment(e, comment) else e)
    else
      events + [NewThread(comment)]
  }

  /** `e.comments.map(c => c.id === comment.id ? comment : c)`. */
  function ReplaceCommentById(comments: seq<Comment>, comment: Comment): (r: seq<Comment>)
    ensures |r| == |comments|
    ensures forall k :: 0 <= k < |comments| ==> r[k] == if comments[k].id == comment.id then comment else comments[k]
  {
    Map(comments, (c: Comment) => if c.id == comment.id then comment else c)
  }

  /** `e.comments.filter(c => c.id !== id)`. */
  function RemoveCommentById(comments: seq<Comment>, id: string): (r: seq<Comment>)
    ensures forall k :: 0 <= k < |r| ==> r[k].id != id
    ensures IsSubsequence(r, comments)
    ensures forall k :: 0 <= k < |comments| && comments[k].id != id ==> multiset(r)[comments[k]] == multiset(comments)[comments[k]]
  {
    Filter(comments, (c: Comment) => c.id != id)
  }

  /** Applies `g` to the comment list of every event that has a non-empty one. */
  function MapThreads(events: seq<Event>, g: seq<Comment> -> seq<Comment>): (r: seq<Event>)
    ensures |r| == |events|
    ensures forall k :: 0 <= k < |events| ==> r[k] == events[k].(comments := r[k].comments)
    ensures forall k :: 0 <= k < |events| && !HasComments(events[k]) ==> r[k] == events[k]
    ensures forall k :: 0 <= k < |events| && HasComments(events[k]) ==> r[k].comments == Some(g(events[k].comments.value))
  {
    Map(events, (e: Event) => if HasComments(e) then e.(comments := Some(g(e.comments.value))) else e)
  }

  // ---------------------------------------------------------------------------
  // The action table

  /** toggleRepo: flips `selected` on exactly the repositories whose id matches. */
  function ToggleRepo(repos: seq<Repo>, repoId: RepoId): (r: seq<Repo>)
    ensures |r| == |repos|
    ensures forall i :: 0 <= i < |repos| ==> r[i] == repos[i].(selected := r[i].selected)
    ensures forall i :: 0 <= i < |repos| ==> (r[i].selected != repos[i].selected <==> repos[i].repoId == repoId)
  {
    Map(repos, (repo: Repo) => if repo.repoId == repoId then repo.(selected := !repo.selected) else repo)
  }

  /** registerPRs: the matching repositories now hold exactly `prs`. */
  function RegisterPRs(repos: seq<Repo>, repoId: RepoId, prs: seq<PullRequest>): (r: seq<Repo>)
    ensures |r| == |repos|
    ensures forall i :: 0 <= i < |repos| ==> r[i] == repos[i].(prs := r[i].prs)
    ensures forall i :: 0 <= i < |repos| ==> r[i].prs == if repos[i].repoId == repoId then prs else repos[i].prs
  {
    Map(repos, (repo: Repo) => if repo.repoId == repoId then repo.(prs := prs) else repo)
  }

  /** addEventToPR: appends `event` to the target pull request's events. */
  function AddEventToPR(repos: seq<Repo>, repoId: RepoId, prId: PRId, event: Event): (r: seq<Repo>)
    ensures OnlyEventsChange(repos, r)
    ensures forall i, j :: 0 <= i < |repos| && 0 <= j < |repos[i].prs| ==>
              r[i].prs[j].events == if IsTarget(repos[i], j, repoId, prId) then repos[i].prs[j].events + [event]
                                    else repos[i].prs[j].events
    ensures !HasTarget(repos, repoId, prId) ==> r == repos
  {
    InTargetPR(repos, repoId, prId, (p: PullRequest) => p.(events := p.events + [event]))
  }

  /** replaceEvent: in every pull request of every repository, each event with
      `event`'s id becomes `event`. */
  function ReplaceEvent(repos: seq<Repo>, event: Event): (r: seq<Repo>)
    ensures OnlyEventsChange(repos, r)
    ensures forall i, j :: 0 <= i < |repos| && 0 <= j < |repos[i].prs| ==>
              r[i].prs[j].events == ReplaceById(repos[i].prs[j].events, event)
    ensures forall i, j :: 0 <= i < |repos| && 0 <= j < |repos[i].prs| && event.id !in EventIds(repos[i].prs[j].events) ==>
              r[i].prs[j] == repos[i].prs[j]
  {
    Map(repos, (repo: Repo) => repo.(prs := Map(repo.prs, (p: PullRequest) => p.(events := ReplaceById(p.events, event)))))
  }

  /** deleteEvent: removes every event with the id from every pull request. */
  function DeleteEvent(repos: seq<Repo>, id: Option<string>): (r: seq<Repo>)
    ensures OnlyEventsChange(repos, r)
    ensures forall i, j :: 0 <= i < |repos| && 0 <= j < |repos[i].prs| ==>
              r[i].prs[j].events == RemoveById(repos[i].prs[j].events, id)
    ensures forall i, j :: 0 <= i < |repos| && 0 <= j < |repos[i].prs| && id !in EventIds(repos[i].prs[j].events) ==>
              r[i].prs[j] == repos[i].prs[j]
  {
    Map(repos, (repo: Repo) => repo.(prs := Map(repo.prs, (p: PullRequest) => p.(events := RemoveById(p.events, id)))))
  }

  /** replaceEventInPR: replaceEvent restricted to the target pull request. */
  function ReplaceEventInPR(repos: seq<Repo>, repoId: RepoId, prId: PRId, event: Event): (r: seq<Repo>)
    ensures OnlyEventsChange(repos, r)
    ensures forall i, j :: 0 <= i < |repos| && 0 <= j < |repos[i].prs| ==>
              r[i].prs[j].events == if IsTarget(repos[i], j, repoId, prId) then ReplaceById(repos[i].prs[j].events, event)
                                    else repos[i].prs[j].events
    ensures !HasTarget(repos, repoId, prId) ==> r == repos
  {
    InTargetPR(repos, repoId, prId, (p: PullRequest) => p.(events := ReplaceById(p.events, event)))
  }

  /** deleteEventFromPR: deleteEvent restricted to the target pull request. */
  function DeleteEventFromPR(repos: seq<Repo>, repoId: RepoId, prId: PRId, id: Option<string>): (r: seq<Repo>)
    ensures OnlyEventsChange(repos, r)
    ensures forall i, j :: 0 <= i < |repos| && 0 <= j < |repos[i].prs| ==>
              r[i].prs[j].events == if IsTarget(repos[i], j, repoId, prId) then RemoveById(repos[i].prs[j].events, id)
                                    else repos[i].prs[j].events
    ensures !HasTarget(repos, repoId, prId) ==> r == repos
  {
    InTargetPR(repos, repoId, prId, (p: PullRequest) => p.(events := RemoveById(p.events, id)))
  }

  /** addPRReviewComment: in the target pull request, either appends `comment` to every
      thread whose first comment has `topCommentId`, or, when that id is not truthy,
      appends a new thread holding just `comment`. */
  function AddPRReviewComment(repos: seq<Repo>, repoId: RepoId, prId: PRId, topCommentId: Option<string>, comment: Comment): (r: seq<Repo>)
    ensures OnlyEventsChange(repos, r)
    ensures forall i, j :: 0 <= i < |repos| && 0 <= j < |repos[i].prs| ==>
              r[i].prs[j].events == if IsTarget(repos[i], j, repoId, prId) then AddReviewComment(repos[i].prs[j].events, topCommentId, comment)
                                    else repos[i].prs[j].events
    ensures !HasTarget(repos, repoId, prId) ==> r == repos
  {
    InTargetPR(repos, repoId, prId, (p: PullRequest) => p.(events := AddReviewComment(p.events, topCommentId, comment)))
  }

  /** replacePRReviewComment: in the target pull request, every comment with
      `comment`'s id inside a non-empty comment list becomes `comment`. */
  function ReplacePRReviewComment(repos: seq<Repo>, repoId: RepoId, prId: PRId, comment: Comment): (r: seq<Repo>)
    ensures OnlyEventsChange(repos, r)
    ensures forall i, j :: 0 <= i < |repos| && 0 <= j < |repos[i].prs| ==>
              r[i].prs[j].events == if IsTarget(repos[i], j, repoId, prId)
                                    then MapThreads(repos[i].prs[j].events, (cs: seq<Comment>) => ReplaceCommentById(cs, comment))
                                    else repos[i].prs[j].events
    ensures !HasTarget(repos, repoId, prId) ==> r == repos
  {
    InTargetPR(repos, repoId, prId,
      (p: PullRequest) => p.(events := MapThreads(p.events, (cs: seq<Comment>) => ReplaceCommentById(cs, comment))))
  }

  /** deletePRReviewComment: in the target pull request, every comment with the id is
      removed from every non-empty comment list; the events themselves stay. */
  function DeletePRReviewComment(repos: seq<Repo>, repoId: RepoId, prId: PRId, id: string): (r: seq<Repo>)
    ensures OnlyEventsChange(repos, r)
    ensures forall i, j :: 0 <= i < |repos| && 0 <= j < |repos[i].prs| ==>
              r[i].prs[j].events == if IsTarget(repos[i], j, repoId, prId)
                                    then MapThreads(repos[i].prs[j].events, (cs: seq<Comment>) => RemoveCommentById(cs, id))
                                    else repos[i].prs[j].events
    ensures !HasTarget(repos, repoId, prId) ==> r == repos
  {
    InTargetPR(repos, repoId, prId,
      (p: PullRequest) => p.(events := MapThreads(p.events, (cs: seq<Comment>) => RemoveCommentById(cs, id))))
  }

  /** replacePR: in every repository, each pull request with `pr`'s id becomes `pr`. */
  function ReplacePR(repos: seq<Repo>, pr: PullRequest): (r: seq<Repo>)
    ensures |r| == |repos|
    ensures forall i :: 0 <= i < |repos| ==> r[i] == repos[i].(prs := r[i].prs) && |r[i].prs| == |repos[i].prs|
    ensures forall i :: 0 <= i < |repos| ==> PRIds(r[i].prs) == PRIds(repos[i].prs)
    ensures forall i, j :: 0 <= i < |repos| && 0 <= j < |repos[i].prs| ==>
              r[i].prs[j] == if repos[i].prs[j].id == pr.id then pr else repos[i].prs[j]
  {
    Map(repos, (repo: Repo) => repo.(prs := Map(repo.prs, (p: PullRequest) => if p.id == pr.id then pr else p)))
  }

  /** addPR: appends `pr` to the pull requests of the matching repositories. */
  function AddPR(repos: seq<Repo>, repoId: RepoId, pr: PullRequest): (r: seq<Repo>)
    ensures |r| == |repos|
    ensures forall i :: 0 <= i < |repos| ==> r[i] == repos[i].(prs := r[i].prs)
    ensures forall i :: 0 <= i < |repos| ==> r[i].prs == if repos[i].repoId == repoId then repos[i].prs + [pr] else repos[i].prs
  {
    Map(repos, (repo: Repo) => if repo.repoId == repoId then repo.(prs := repo.prs + [pr]) else repo)
  }
}
