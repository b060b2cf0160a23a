/** The records held in the "repos" slice: repositories own pull requests,
    pull requests own timeline events, and review-thread events own comments.
    Only the fields the modelled code reads or writes are kept. */
module Store {
  import opened Common

  type RepoId = string
  type PRId = string

  /** The thread type name, both as the server reports it and as a new local thread is tagged. */
  const ThreadType: string := "PullRequestReviewThread"

  datatype Author = Author(login: string)

  /** A review comment. The service reports no author for a deleted account. */
  datatype Comment = Comment(id: string, author: Option<Author>, date: string, body: string)

  /** A timeline event. `kind` is the JSON field `type`. Every other field may be
      absent: a thread created locally has no `id` and no `author`. */
  datatype Event = Event(
    id: Option<string>,
    kind: string,
    author: Option<Author>,
    date: Option<string>,
    state: Option<string>,
    isResolved: Option<bool>,
    comments: Option<seq<Comment>>)

  datatype PullRequest = PullRequest(id: PRId, number: int, title: string, events: seq<Event>)

  datatype Repo = Repo(repoId: RepoId, name: string, selected: bool, prs: seq<PullRequest>)

  function RepoIds(repos: seq<Repo>): (ids: seq<RepoId>)
    ensures |ids| == |repos|
    ensures forall i :: 0 <= i < |repos| ==> ids[i] == repos[i].repoId
  {
    seq(|repos|, i requires 0 <= i < |repos| => repos[i].repoId)
  }

  function PRIds(prs: seq<PullRequest>): (ids: seq<PRId>)
    ensures |ids| == |prs|
    ensures forall j :: 0 <= j < |prs| ==> ids[j] == prs[j].id
  {
    seq(|prs|, j requires 0 <= j < |prs| => prs[j].id)
  }

  function EventIds(events: seq<Event>): (ids: seq<Option<string>>)
    ensures |ids| == |events|
    ensures forall k :: 0 <= k < |events| ==> ids[k] == events[k].id
  {
    seq(|events|, k requires 0 <= k < |events| => events[k].id)
  }
}
