/** The "repos" action table as one sum type, each variant carrying the payload
    fields its update function reads, and the laws every action obeys. */
module ReposActions {
  import opened Common
  import opened Store
  import Repos

  datatype Action =
    | ToggleRepo(repoId: RepoId)
    | RegisterPRs(repoId: RepoId, prs: seq<PullRequest>)
    | AddEventToPR(repoId: RepoId, prId: PRId, event: Event)
    | ReplaceEvent(event: Event)
    | DeleteEvent(id: Option<string>)
    | ReplaceEventInPR(repoId: RepoId, prId: PRId, event: Event)
    | DeleteEventFromPR(repoId: RepoId, prId: PRId, id: Option<string>)
    | AddPRReviewComment(repoId: RepoId, prId: PRId, topCommentId: Option<string>, comment: Comment)
    | ReplacePRReviewComment(repoId: RepoId, prId: PRId, comment: Comment)
    | DeletePRReviewComment(repoId: RepoId, prId: PRId, commentId: string)
    | ReplacePR(pr: PullRequest)
    | AddPR(repoId: RepoId, pr: PullRequest)

  /** The reducer the store runs for an action on the "repos" slice. */
  function Apply(repos: seq<Repo>, a: Action): (r: seq<Repo>)
  {
    match a
    case ToggleRepo(repoId) => Repos.ToggleRepo(repos, repoId)
    case RegisterPRs(repoId, prs) => Repos.RegisterPRs(repos, repoId, prs)
    case AddEventToPR(repoId, prId, event) => Repos.AddEventToPR(repos, repoId, prId, event)
    case ReplaceEvent(event) => Repos.ReplaceEvent(repos, event)
    case DeleteEvent(id) => Repos.DeleteEvent(repos, id)
    case ReplaceEventInPR(repoId, prId, event) => Repos.ReplaceEventInPR(repos, repoId, prId, event)
    case DeleteEventFromPR(repoId, prId, id) => Repos.DeleteEventFromPR(repos, repoId, prId, id)
    case AddPRReviewComment(repoId, prId, topCommentId, comment) =>
      Repos.AddPRReviewComment(repos, repoId, prId, topCommentId, comment)
    case ReplacePRReviewComment(repoId, prId, comment) => Repos.ReplacePRReviewComment(repos, repoId, prId, comment)
    case DeletePRReviewComment(repoId, prId, commentId) => Repos.DeletePRReviewComment(repos, repoId, prId, commentId)
    case ReplacePR(pr) => Repos.ReplacePR(repos, pr)
    case AddPR(repoId, pr) => Repos.AddPR(repos, repoId, pr)
  }

  /** Nothing in `repos` is what the action addresses. */
  predicate TargetAbsent(repos: seq<Repo>, a: Action)
  {
    match a
    case ToggleRepo(repoId) => repoId !in RepoIds(repos)
    case RegisterPRs(repoId, _) => repoId !in RepoIds(repos)
    case AddPR(repoId, _) => repoId !in RepoIds(repos)
    case ReplaceEvent(event) =>
      forall i, j :: 0 <= i < |repos| && 0 <= j < |repos[i].prs| ==> event.id !in EventIds(repos[i].prs[j].events)
    case DeleteEvent(id) =>
      forall i, j :: 0 <= i < |repos| && 0 <= j < |repos[i].prs| ==> id !in EventIds(repos[i].prs[j].events)
    case ReplacePR(pr) => forall i :: 0 <= i < |repos| ==> pr.id !in PRIds(repos[i].prs)
    case AddEventToPR(repoId, prId, _) => !Repos.HasTarget(repos, repoId, prId)
    case ReplaceEventInPR(repoId, prId, _) => !Repos.HasTarget(repos, repoId, prId)
    case DeleteEventFromPR(repoId, prId, _) => !Repos.HasTarget(repos, repoId, prId)
    case AddPRReviewComment(repoId, prId, _, _) => !Repos.HasTarget(repos, repoId, prId)
    case ReplacePRReviewComment(repoId, prId, _) => !Repos.HasTarget(repos, repoId, prId)
    case DeletePRReviewComment(repoId, prId, _) => !Repos.HasTarget(repos, repoId, prId)
  }

  /** An action addressing an id that is not there returns the list unchanged. */
  lemma MissingTargetIsNoOp(repos: seq<Repo>, a: Action)
    requires TargetAbsent(repos, a)
    ensures Apply(repos, a) == repos
  {
    var r := Apply(repos, a);
    match a
    case ToggleRepo(repoId) =>
      assert forall i :: 0 <= i < |repos| ==> RepoIds(repos)[i] != repoId;
    case RegisterPRs(repoId, _) =>
      assert forall i :: 0 <= i < |repos| ==> RepoIds(repos)[i] != repoId;
      Repos.EqualByPRs(repos, r);
    case AddPR(repoId, _) =>
      assert forall i :: 0 <= i < |repos| ==> RepoIds(repos)[i] != repoId;
      Repos.EqualByPRs(repos, r);
    case ReplaceEvent(_) =>
      Repos.EqualByPRs(repos, r);
    case DeleteEvent(_) =>
      Repos.EqualByPRs(repos, r);
    case ReplacePR(pr) =>
      forall i, j | 0 <= i < |repos| && 0 <= j < |repos[i].prs|
        ensures r[i].prs[j] == repos[i].prs[j]
      {
        assert PRIds(repos[i].prs)[j] != pr.id;
      }
      Repos.EqualByPRs(repos, r);
    case AddEventToPR(_, _, _) =>
    case ReplaceEventInPR(_, _, _) =>
    case DeleteEventFromPR(_, _, _) =>
    case AddPRReviewComment(_, _, _, _) =>
    case ReplacePRReviewComment(_, _, _) =>
    case DeletePRReviewComment(_, _, _) =>
  }

  /** No action adds, removes, reorders or renames a repository. */
  lemma ApplyKeepsRepositories(repos: seq<Repo>, a: Action)
    ensures RepoIds(Apply(repos, a)) == RepoIds(repos)
    ensures forall i :: 0 <= i < |repos| ==> Apply(repos, a)[i].name == repos[i].name
    ensures Distinct(RepoIds(repos)) ==> Distinct(RepoIds(Apply(repos, a)))
  {
  }

  /** Only toggleRepo changes a `selected` flag. */
  lemma OnlyToggleSelects(repos: seq<Repo>, a: Action)
    requires !a.ToggleRepo?
    ensures forall i :: 0 <= i < |repos| ==> Apply(repos, a)[i].selected == repos[i].selected
  {
  }

  /** Only registerPRs and addPR change which pull requests a repository holds:
      every other action keeps each repository's pull-request ids in place. */
  lemma OnlyRegisterAndAddChangePRs(repos: seq<Repo>, a: Action)
    requires !a.RegisterPRs? && !a.AddPR?
    ensures forall i :: 0 <= i < |repos| ==> PRIds(Apply(repos, a)[i].prs) == PRIds(repos[i].prs)
  {
  }
}
