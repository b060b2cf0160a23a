/** The two pure helpers of the pull-request page: the branch labels shown in
    its header and the status line. Date formatting happens elsewhere; the
    status line here carries the raw date field it would format. */
module PullRequestView {
  import opened Common

  /** A branch as the service reports it: the owner of the fork and the ref name. */
  datatype BranchRef = BranchRef(owner: string, ref: string)

  /** The label of a branch qualified by its owner. */
  function Qualified(b: BranchRef): (text: string)
  {
    b.owner + ":" + b.ref
  }

  /** formatBranchLabels: two labels, base first. When both branches live in the
      same repository the bare refs suffice; otherwise each ref is qualified by
      its owner. */
  function FormatBranchLabels(base: BranchRef, head: BranchRef): (labels: seq<string>)
    ensures |labels| == 2
    ensures labels[0] == base.ref && labels[1] == head.ref <==> base.owner == head.owner
    ensures base.owner != head.owner ==> labels == [Qualified(base), Qualified(head)]
    ensures EndsWith(labels[0], base.ref) && EndsWith(labels[1], head.ref)
  {
    if base.owner == head.owner then [base.ref, head.ref]
    else
      assert Qualified(base)[|Qualified(base)| - |base.ref|..] == base.ref;
      assert Qualified(head)[|Qualified(head)| - |head.ref|..] == head.ref;
      [Qualified(base), Qualified(head)]
  }

  predicate EndsWith(s: string, suffix: string)
  {
    |suffix| <= |s| && s[|s| - |suffix|..] == suffix
  }

  /** Reads a qualified label back: the owner is everything before the first ':'.
      A label without ':' is a bare ref. */
  function SplitLabel(text: string): (b: BranchRef)
  {
    match FirstIndex(text, ':')
    case None => BranchRef("", text)
    case Some(i) => BranchRef(text[..i], text[i + 1..])
  }

  /** A qualified label names its branch unambiguously, as long as the owner
      contains no ':' (account names never do). */
  lemma QualifiedRoundTrip(b: BranchRef)
    requires ':' !in b.owner
    ensures SplitLabel(Qualified(b)) == b
  {
    var s := Qualified(b);
    var n := |b.owner|;
    assert s[n] == ':';
    assert s[..n] == b.owner;
    assert FirstIndex(s, ':') == Some(n);
    assert s[n + 1..] == b.ref;
  }

  /** With different owners, both labels of the header read back to the branches
      they were made from. */
  lemma BranchLabelsIdentifyBranches(base: BranchRef, head: BranchRef)
    requires base.owner != head.owner
    requires ':' !in base.owner && ':' !in head.owner
    ensures SplitLabel(FormatBranchLabels(base, head)[0]) == base
    ensures SplitLabel(FormatBranchLabels(base, head)[1]) == head
  {
    QualifiedRoundTrip(base);
    QualifiedRoundTrip(head);
  }

  /** The fields of a pull request the status line reads. */
  datatype PRHeader = PRHeader(
    merged: bool,
    closed: bool,
    mergedAt: Option<string>,
    closedAt: Option<string>,
    createdAt: Option<string>)

  datatype PRState = Merged | Closed | Open

  /** The status line: which state it names, its CSS classes, and the date field
      passed to the date formatter. */
  datatype StatusLine = StatusLine(state: PRState, cssClass: string, date: Option<string>)

  /** formatPRStatus: merged takes precedence over closed, closed over open; each
      state shows its own date. */
  function FormatPRStatus(pr: PRHeader): (line: StatusLine)
    ensures line.state == Merged <==> pr.merged
    ensures line.state == Closed <==> !pr.merged && pr.closed
    ensures line.state == Open <==> !pr.merged && !pr.closed
    ensures line.date == match line.state
                         case Merged => pr.mergedAt
                         case Closed => pr.closedAt
                         case Open => pr.createdAt
    ensures line.cssClass == match line.state
                             case Merged => "pr-status pr-status-merged"
                             case Closed => "pr-status pr-status-closed"
                             case Open => "pr-status"
  {
    if pr.merged then StatusLine(Merged, "pr-status pr-status-merged", pr.mergedAt)
    else if pr.closed then StatusLine(Closed, "pr-status pr-status-closed", pr.closedAt)
    else StatusLine(Open, "pr-status", pr.createdAt)
  }
}
