/** Laws relating several applications of the "repos" update functions. */
module ReposLaws {
  import opened Common
  import opened Store
  import opened Repos

  /** A list that only had events changed has the same repositories and pull requests
      at the same positions, so the same pull requests are targets. */
  lemma TargetsAgree(a: seq<Repo>, b: seq<Repo>, repoId: RepoId, prId: PRId)
    requires OnlyEventsChange(a, b)
    ensures forall i :: 0 <= i < |a| ==> PRIds(b[i].prs) == PRIds(a[i].prs)
    ensures forall i, j :: 0 <= i < |a| ==> (IsTarget(b[i], j, repoId, prId) <==> IsTarget(a[i], j, repoId, prId))
  {
  }

  lemma OnlyEventsChangeTrans(a: seq<Repo>, b: seq<Repo>, c: seq<Repo>)
    requires OnlyEventsChange(a, b) && OnlyEventsChange(b, c)
    ensures OnlyEventsChange(a, c)
  {
  }

  /** Toggling the same repository twice restores every `selected` flag. */
  lemma ToggleRepoTwice(repos: seq<Repo>, repoId: RepoId)
    ensures ToggleRepo(ToggleRepo(repos, repoId), repoId) == repos
  {
  }

  /** Replacing the same event twice is the same as replacing it once. */
  lemma ReplaceByIdTwice(events: seq<Event>, event: Event)
    ensures ReplaceById(ReplaceById(events, event), event) == ReplaceById(events, event)
  {
  }

  lemma ReplaceEventTwice(repos: seq<Repo>, event: Event)
    ensures ReplaceEvent(ReplaceEvent(repos, event), event) == ReplaceEvent(repos, event)
  {
    var once := ReplaceEvent(repos, event);
    var twice := ReplaceEvent(once, event);
    OnlyEventsChangeTrans(repos, once, twice);
    forall i, j | 0 <= i < |once| && 0 <= j < |once[i].prs|
      ensures twice[i].prs[j].events == once[i].prs[j].events
    {
      ReplaceByIdTwice(repos[i].prs[j].events, event);
    }
    EqualByEvents(once, twice);
  }

  /** deleteEvent is idempotent: a second delete of the same id changes nothing. */
  lemma DeleteEventTwice(repos: seq<Repo>, id: Option<string>)
    ensures DeleteEvent(DeleteEvent(repos, id), id) == DeleteEvent(repos, id)
  {
    var once := DeleteEvent(repos, id);
    var twice := DeleteEvent(once, id);
    forall i, j | 0 <= i < |once| && 0 <= j < |once[i].prs|
      ensures twice[i].prs[j].events == once[i].prs[j].events
    {
      assert once[i].prs[j].events == RemoveById(repos[i].prs[j].events, id);
    }
    EqualByEvents(once, twice);
  }

  /** deleteEventFromPR is idempotent as well. */
  lemma DeleteEventFromPRTwice(repos: seq<Repo>, repoId: RepoId, prId: PRId, id: Option<string>)
    ensures DeleteEventFromPR(DeleteEventFromPR(repos, repoId, prId, id), repoId, prId, id)
         == DeleteEventFromPR(repos, repoId, prId, id)
  {
    var once := DeleteEventFromPR(repos, repoId, prId, id);
    var twice := DeleteEventFromPR(once, repoId, prId, id);
    TargetsAgree(repos, once, repoId, prId);
    forall i, j | 0 <= i < |once| && 0 <= j < |once[i].prs|
      ensures twice[i].prs[j].events == once[i].prs[j].events
    {
      if IsTarget(repos[i], j, repoId, prId) {
        assert once[i].prs[j].events == RemoveById(repos[i].prs[j].events, id);
      }
    }
    EqualByEvents(once, twice);
  }

  /** replacePR is idempotent, and a no-op when no pull request has the id. */
  lemma ReplacePRTwice(repos: seq<Repo>, pr: PullRequest)
    ensures ReplacePR(ReplacePR(repos, pr), pr) == ReplacePR(repos, pr)
  {
    var once := ReplacePR(repos, pr);
    var twice := ReplacePR(once, pr);
    EqualByPRs(once, twice);
  }

  /** The event-list part of the scenario below. */
  lemma ThreadThenReplyEvents(events: seq<Event>, first: Comment, reply: Comment)
    requires first.id != ""
    requires forall k :: 0 <= k < |events| ==> !StartsThread(events[k], first.id)
    ensures AddReviewComment(AddReviewComment(events, None, first), Some(first.id), reply)
         == events + [NewThread(first).(comments := Some([first, reply]))]
  {
    var mid := AddReviewComment(events, None, first);
    var r := AddReviewComment(mid, Some(first.id), reply);
    assert forall k :: 0 <= k < |events| ==> mid[k] == events[k];
    assert StartsThread(mid[|events|], first.id);
    assert [first] + [reply] == [first, reply];
    assert r[|events|] == NewThread(first).(comments := Some([first, reply]));
    assert forall k :: 0 <= k < |events| ==> r[k] == events[k];
  }

  /** A first inline comment opens a thread; replying with that comment's id as
      `topComment.id` extends the same thread instead of opening a second one. */
  lemma ThreadThenReply(repos: seq<Repo>, repoId: RepoId, prId: PRId, first: Comment, reply: Comment)
    requires first.id != ""
    requires forall i, j, k :: 0 <= i < |repos| && 0 <= j < |repos[i].prs| && IsTarget(repos[i], j, repoId, prId)
               && 0 <= k < |repos[i].prs[j].events|
               ==> !StartsThread(repos[i].prs[j].events[k], first.id)
    ensures var r := AddPRReviewComment(AddPRReviewComment(repos, repoId, prId, None, first), repoId, prId, Some(first.id), reply);
      && OnlyEventsChange(repos, r)
      && forall i, j :: 0 <= i < |repos| && 0 <= j < |repos[i].prs| ==>
           r[i].prs[j].events == if IsTarget(repos[i], j, repoId, prId)
                                 then repos[i].prs[j].events + [NewThread(first).(comments := Some([first, reply]))]
                                 else repos[i].prs[j].events
  {
    var started := AddPRReviewComment(repos, repoId, prId, None, first);
    var r := AddPRReviewComment(started, repoId, prId, Some(first.id), reply);
    TargetsAgree(repos, started, repoId, prId);
    OnlyEventsChangeTrans(repos, started, r);
    forall i, j | 0 <= i < |repos| && 0 <= j < |repos[i].prs| && IsTarget(repos[i], j, repoId, prId)
      ensures r[i].prs[j].events == repos[i].prs[j].events + [NewThread(first).(comments := Some([first, reply]))]
    {
      ThreadThenReplyEvents(repos[i].prs[j].events, first, reply);
    }
  }

  /** Deleting the only comments of a thread keeps the thread, with an empty comment list. */
  lemma EmptiedThreadStays(repos: seq<Repo>, repoId: RepoId, prId: PRId, id: string, i: nat, j: nat, k: nat)
    requires i < |repos| && j < |repos[i].prs| && IsTarget(repos[i], j, repoId, prId)
    requires k < |repos[i].prs[j].events| && HasComments(repos[i].prs[j].events[k])
    requires forall c :: c in repos[i].prs[j].events[k].comments.value ==> c.id == id
    ensures var r := DeletePRReviewComment(repos, repoId, prId, id);
      |r[i].prs[j].events| == |repos[i].prs[j].events| &&
      r[i].prs[j].events[k] == repos[i].prs[j].events[k].(comments := Some([]))
  {
  }
}
