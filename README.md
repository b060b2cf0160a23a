# igit: the "repos" store and the pull-request view helpers

igit is a pull-request review client. It mirrors repositories, their pull
requests, the timeline events of each pull request and the comments of review
threads into a local store, and updates that store when the user acts. This
project models, in Dafny, the parts of that client that carry real logic:

- the **"repos" update table** (`Repos`, `ReposActions`, `ReposLaws`). These are
  twelve named update functions over a four-level nesting: repository → pull
  request → event → comment. Each maps over the repository list and adds to,
  replaces in or removes from one nested level, matching by id. A target that
  matches nothing changes nothing.
- three **commands** of the same file (`Context`):
  - the repository merge of `fetchAllRepos`, modelled as a loop proved against a closed form;
  - the decision in `fetchData` to fetch one extra pull request;
  - the window title computed by `setTotalUnread`.
- the **timeline view** (`Timeline`):
  - the table from event type to view component;
  - the author-filter reducer;
  - the filter applied to the events;
  - the choice of what each event renders as;
  - the effect that adds missing authors to the filter.
- the **pull-request header** (`PullRequestView`): the branch labels and the
  status line.

Records are Dafny datatypes (`Store`). Fields that may be `undefined` or `null`
are `Option`s. The JavaScript array methods `map`, `filter` and `find` are the
`Map`, `Filter` and `FirstIndex` functions of `Common`. JavaScript truthiness is
written out where the source relies on it:
- `topComment.id` counts only when present and non-empty (`Repos.Truthy`);
- `list.find(u => u === login)` counts only for a non-empty login that is present (`Timeline.Found`).

The update functions build a new top-level array but change the nested
repository, pull-request and event objects in place. The model has value
semantics: it describes the new state each update computes.

## Model

| member | source | states |
|---|---|---|
| `Repos.ToggleRepo` | src/logic/index.js:141-148 | the list keeps its length and order; only `selected` may change, and it flips exactly on the repositories whose id matches |
| `ReposLaws.ToggleRepoTwice` | src/logic/index.js:141-148 | toggling the same repository twice restores the original list |
| `Repos.RegisterPRs` | src/logic/index.js:149-156 | the repositories with the id hold exactly the given pull requests; every other repository and every other field is unchanged |
| `Repos.AddPR` | src/logic/index.js:297-304 | the repositories with the id get the pull request appended at the end; everything else is unchanged |
| `Repos.UpdateFirstPR` | src/logic/index.js:160-164 | only the first pull request with the id is updated, the list keeps its length, and nothing changes when no pull request has the id |
| `Repos.InTargetPR` | src/logic/index.js:157-168 | in each repository whose id matches, only the first pull request with the id is updated; repositories and pull requests keep their positions and fields; with no matching repository/pull request the list is returned unchanged |
| `Repos.AddEventToPR` | src/logic/index.js:157-168 | only event lists change; the target pull request's events grow by the event at the end; with no target nothing changes |
| `Repos.ReplaceById` | src/logic/index.js:172-177 | every event with the new event's id becomes the new event, all others keep their positions; the list is unchanged when the id is absent |
| `ReposLaws.ReplaceByIdTwice` | src/logic/index.js:172-177 | replacing the same event twice equals replacing it once |
| `Repos.ReplaceEvent` | src/logic/index.js:169-181 | only event lists change, each replaced by id in every pull request of every repository; a pull request without the id is unchanged |
| `ReposLaws.ReplaceEventTwice` | src/logic/index.js:169-181 | replaceEvent is idempotent |
| `Repos.RemoveById` | src/logic/index.js:185 | no event with the id is left; the rest stay in their original relative order and keep every occurrence; the list is unchanged when the id is absent |
| `Repos.DeleteEvent` | src/logic/index.js:182-189 | only event lists change, each with the id removed in every pull request; a pull request without the id is unchanged |
| `ReposLaws.DeleteEventTwice` | src/logic/index.js:182-189 | deleteEvent is idempotent |
| `Repos.ReplaceEventInPR` | src/logic/index.js:190-206 | replacement by id, only in the target pull request; no target means no change |
| `Repos.DeleteEventFromPR` | src/logic/index.js:207-218 | removal by id, only in the target pull request; no target means no change |
| `ReposLaws.DeleteEventFromPRTwice` | src/logic/index.js:207-218 | deleteEventFromPR is idempotent |
| `Repos.AddReviewComment` | src/logic/index.js:226-241 | without a truthy top-comment id, exactly one new thread is appended (no id, no author, unresolved, the comment's date, just that comment); with one, the event count is unchanged, the comment is appended to every thread whose first comment has that id, and nothing changes when none does |
| `Repos.AddPRReviewComment` | src/logic/index.js:219-246 | only event lists change; the target pull request's events are updated as above; no target means no change |
| `ReposLaws.ThreadThenReplyEvents` | src/logic/index.js:226-241 | opening a thread with a comment and then replying with that comment's id as the top comment yields one thread holding both comments, in order |
| `ReposLaws.ThreadThenReply` | src/logic/index.js:219-246 | the same scenario through the whole list: the target pull request gains exactly one thread with both comments and nothing else changes |
| `Repos.ReplaceCommentById` | src/logic/index.js:255-260 | every comment with the id becomes the new comment, others keep their positions |
| `Repos.RemoveCommentById` | src/logic/index.js:277 | no comment with the id is left; the others keep their order and every occurrence |
| `Repos.MapThreads` | src/logic/index.js:253-263 | only events with a non-empty comment list change, and only their comment lists; the event count is unchanged |
| `Repos.ReplacePRReviewComment` | src/logic/index.js:247-268 | only the comment lists of events with non-empty comment lists in the target pull request change, by replacement by id; no target means no change |
| `Repos.DeletePRReviewComment` | src/logic/index.js:269-285 | only the comment lists of events with non-empty comment lists in the target pull request change, by removal by id; event counts are unchanged; no target means no change |
| `ReposLaws.EmptiedThreadStays` | src/logic/index.js:269-285 | deleting every comment of a thread leaves the thread in place with an empty comment list |
| `Repos.ReplacePR` | src/logic/index.js:286-296 | every pull request with the id becomes the new one, in every repository; ids, positions and repository fields are unchanged |
| `ReposLaws.ReplacePRTwice` | src/logic/index.js:286-296 | replacePR is idempotent |
| `ReposActions.MissingTargetIsNoOp` | src/logic/index.js:140-305 | every action whose target repository, pull request or event id is absent returns the list unchanged |
| `ReposActions.ApplyKeepsRepositories` | src/logic/index.js:140-305 | no action adds, removes, reorders or renames a repository, so distinct repository ids stay distinct |
| `ReposActions.OnlyToggleSelects` | src/logic/index.js:140-305 | no action other than toggleRepo changes a `selected` flag |
| `ReposActions.OnlyRegisterAndAddChangePRs` | src/logic/index.js:140-305 | every action other than registerPRs and addPR keeps each repository's pull-request ids in place |
| `Context.FetchAllRepos` | src/logic/index.js:26-43 | the loop's result is the local repositories in order, where the first local entry with each remote repository's id is selected and the rest keep their flag, followed by the first remote repository with each new id, in remote order, itself selected when a later remote repository repeats its id |
| `Context.MergeOneStep` | src/logic/index.js:32-40 | one loop iteration (mark the first entry with the id, or append) preserves the closed form of the rest of the merge |
| `Context.FetchAllReposIds` | src/logic/index.js:26-43 | the merged ids are the local ids followed by the new remote ids; every remote id is present; distinct local ids give distinct merged ids |
| `Context.FetchAllReposKeepsLocal` | src/logic/index.js:26-43 | with distinct local ids, each local repository keeps its place and fields and is selected exactly when it was or a remote repository has its id |
| `Context.NeedsExtraPR` | src/logic/index.js:62-66 | an extra pull request is fetched exactly when a number was requested, the repository is the requested one, and no fetched pull request has that number |
| `Context.PRsToRegister` | src/logic/index.js:62-74 | the registered list is the fetched one, with the extra pull request appended exactly when it was needed and returned |
| `Context.RegisteredHoldsRequested` | src/logic/index.js:62-72 | once the requested pull request has been appended, no further fetch would be needed |
| `Context.NatToDecimal` | src/logic/index.js:116 | the decimal text of a count is non-empty, all digits, with no leading zero |
| `Context.DecimalRoundTrip` | src/logic/index.js:116 | reading the decimal text back gives the number |
| `Context.IntRoundTrip` | src/logic/index.js:116 | the signed decimal text reads back to the number, negatives included |
| `Context.UnreadTitle` | src/logic/index.js:112-118 | the title is the "well done" text exactly when the count is zero, and otherwise the count's decimal text followed by " unread" |
| `Context.UnreadTitleInjective` | src/logic/index.js:112-118 | different counts give different titles |
| `Timeline.ComponentFor` | src/components/Timeline/index.js:21-31 | a component exactly for the nine table types; both comment types share the comment component, both reference types the reference component, every other component serves one type |
| `Timeline.FilterByUser` | src/components/Timeline/index.js:33-38 | a user found in the filter is removed everywhere, the others keeping their order and occurrences; otherwise the user is appended at the end |
| `Timeline.ToggleFlipsOnlyUser` | src/components/Timeline/index.js:33-38 | toggling a user flips whether that user is in the filter and leaves every other user's membership unchanged |
| `Timeline.ToggleAbsentTwice` | src/components/Timeline/index.js:33-38 | toggling the same absent user twice restores the filter |
| `Timeline.ThreadVerdict` | src/components/Timeline/index.js:54 | the comments are read in order: the thread is kept iff a comment by someone in the filter comes before any comment without an author, and reading fails iff a comment without an author comes before any match |
| `Timeline.FilterEvents` | src/components/Timeline/index.js:48-59 | with an empty filter every event is kept in order. Otherwise the kept events are a subsequence, keeping all occurrences. An authored event is kept iff its author is in the filter. An authorless review thread is kept iff one of its comments is by someone in the filter. Any other authorless event is dropped. The filter fails exactly when an authorless thread has no comment list, or its scan reaches a comment without an author before a match |
| `Timeline.Render` | src/components/Timeline/index.js:60-79 | an old event with dimming on is dimmed whatever its type; otherwise a pending review renders nothing; otherwise a table type uses its component and any other type shows its name |
| `Timeline.RenderTimeline` | src/components/Timeline/index.js:48-80 | one rendering per kept event, in order, and a failure exactly when the filter fails |
| `Timeline.UnfilteredShowsEveryEvent` | src/components/Timeline/index.js:48-79 | with no filter and no dimming every event gets a rendering, and only pending reviews render as nothing |
| `Timeline.AddMissingUsers` | src/components/Timeline/index.js:82-88 | the effect's result is the filter toggled once per user missing from it, in order; for distinct users that appends exactly the missing users, so every user ends up in the filter and no one is removed |
| `Timeline.MissingUsersAppended` | src/components/Timeline/index.js:82-88 | for distinct users, toggling the missing ones appends them in order, and every user is then present |
| `Timeline.ToggleEachAppends` | src/components/Timeline/index.js:33-38 | toggling distinct users that are all absent appends each in turn |
| `PullRequestView.FormatBranchLabels` | src/components/PR.js:13-18 | two labels, base first, each ending with its branch's ref; the labels are the bare refs exactly when the owners agree, and owner-qualified otherwise |
| `PullRequestView.QualifiedRoundTrip` | src/components/PR.js:17 | an owner-qualified label splits back into its owner and ref when the owner has no ':' |
| `PullRequestView.BranchLabelsIdentifyBranches` | src/components/PR.js:13-18 | with different owners, both labels read back to the branches they came from |
| `PullRequestView.FormatPRStatus` | src/components/PR.js:19-26 | merged takes precedence over closed, closed over open; each state shows its own date field and CSS class |

## Left out

- Aliasing and in-place mutation. The source mutates the nested objects it
  reaches (`repo.selected`, `r.prs`, `p.events`, `e.comments`, and
  `found.selected` in fetchAllRepos). The model computes the new value and says
  nothing about which older references also change.
- The store library: dispatch, subscribers, notification order, and the
  "notifications" and "profile" slices. The library is not part of this model.
- The asynchronous command bodies and the remote API they await. The answers
  the model needs (fetched pull requests, the extra pull request, the remote and
  local repository lists) are parameters.
- `parseInt` of the requested number: `NeedsExtraPR` takes the number already
  parsed, as an `Option<int>`. A number that parses to NaN is not modelled; the
  source would then always fetch the extra pull request.
- Repositories or pull requests missing their `prs` or `events` arrays. The
  source throws on those; the model's records always carry the lists.
- Keys of the components table inherited from the object prototype, such as
  `constructor`. The model treats them as unknown types.
- The JavaScript number formatting of very large counts (exponent notation above
  10^21) and of non-integers. `UnreadTitle` writes every integer in plain decimal.
- `isItANewEvent`, `flattenUsers` and `formatDate` are not part of this model.
  Freshness is a boolean parameter of `Render` (a function parameter of
  `RenderTimeline`), the user list is a parameter of `AddMissingUsers`, and the
  status line carries the raw date field.
- JSX rendering, element keys, `camelCaseToRegularText`, the checkbox markup
  and the `document.title` assignment. Only the title string is modelled.
- `Timeline.AddMissingUsers`: React applies the queued dispatches after the
  effect returns. The model applies them in order to the filter the effect read,
  which is the state they are applied to when nothing else is pending.
- `Timeline.FilterByUser` and `Timeline.FilterEvents` keep JavaScript
  truthiness. An empty login is never found, so toggling it appends it again.
  `Timeline.ToggleFlipsOnlyUser` and `Timeline.ToggleAbsentTwice` therefore
  require a non-empty user.
