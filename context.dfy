/** The pure parts of the commands: the repository merge of fetchAllRepos, the
    extra-pull-request decision of fetchData and the title of setTotalUnread.
    The remote service's answers are parameters. */
module Context {
  import opened Common
  import opened Store

  // ---------------------------------------------------------------------------
  // fetchAllRepos

  /** The local list after the merge: an entry is selected when it already was, or
      when it is the first entry with its id and some remote repository has that id. */
  function MarkSelected(repos: seq<Repo>, remoteIds: seq<RepoId>): (marked: seq<Repo>)
  {
    seq(|repos|, i requires 0 <= i < |repos| =>
      repos[i].(selected := repos[i].selected
                            || (repos[i].repoId in remoteIds && FirstIndex(RepoIds(repos), repos[i].repoId) == Some(i))))
  }

  /** The remote repositories the merge appends: the first one with each id not in
      `seen`, in remote order, selected if a later remote repository repeats its id. */
  function Fresh(seen: seq<RepoId>, remote: seq<Repo>): (appended: seq<Repo>)
    decreases |remote|
  {
    if remote == [] then []
    else if remote[0].repoId in seen then Fresh(seen, remote[1..])
    else [remote[0].(selected := remote[0].selected || remote[0].repoId in RepoIds(remote[1..]))]
         + Fresh(seen + [remote[0].repoId], remote[1..])
  }

  /** What merging `remote` into `acc` yields, in closed form. */
  function Merged(acc: seq<Repo>, remote: seq<Repo>): (merged: seq<Repo>)
  {
    MarkSelected(acc, RepoIds(remote)) + Fresh(RepoIds(acc), remote)
  }

  /** One iteration of the merge loop. */
  function MergeOne(acc: seq<Repo>, remote: Repo): (next: seq<Repo>)
  {
    match FirstIndex(RepoIds(acc), remote.repoId)
    case Some(f) => acc[f := acc[f].(selected := true)]
    case None => acc + [remote]
  }

  /** Appending a repository whose id is new: earlier entries are marked as before,
      the new one only by the remote repositories that follow it. */
  lemma MarkSelectedAppend(acc: seq<Repo>, remote: Repo, later: seq<RepoId>)
    requires remote.repoId !in RepoIds(acc)
    ensures MarkSelected(acc + [remote], later)
         == MarkSelected(acc, [remote.repoId] + later) + [remote.(selected := remote.selected || remote.repoId in later)]
  {
    var k := remote.repoId;
    var next := acc + [remote];
    assert RepoIds(next) == RepoIds(acc) + [k];
    var marked := MarkSelected(next, later);
    var expected := MarkSelected(acc, [k] + later) + [remote.(selected := remote.selected || k in later)];
    forall i | 0 <= i < |acc|
      ensures marked[i] == expected[i]
    {
      FirstIndexAppend(RepoIds(acc), [k], acc[i].repoId);
    }
    assert FirstIndex(RepoIds(next), k) == Some(|acc|);
  }

  /** Marking the first entry with an id as selected absorbs that id. */
  lemma MarkSelectedFound(acc: seq<Repo>, k: RepoId, f: nat, later: seq<RepoId>)
    requires FirstIndex(RepoIds(acc), k) == Some(f)
    ensures MarkSelected(acc[f := acc[f].(selected := true)], later) == MarkSelected(acc, [k] + later)
  {
    var next := acc[f := acc[f].(selected := true)];
    assert RepoIds(next) == RepoIds(acc);
  }

  lemma MergeOneStep(acc: seq<Repo>, remote: seq<Repo>)
    requires remote != []
    ensures Merged(MergeOne(acc, remote[0]), remote[1..]) == Merged(acc, remote)
  {
    var r := remote[0];
    var k := r.repoId;
    var rest := remote[1..];
    assert RepoIds(remote) == [k] + RepoIds(rest);
    if k in RepoIds(acc) {
      var f := FirstIndex(RepoIds(acc), k).value;
      var next := acc[f := acc[f].(selected := true)];
      assert MergeOne(acc, r) == next;
      assert RepoIds(next) == RepoIds(acc);
      MarkSelectedFound(acc, k, f, RepoIds(rest));
      assert Fresh(RepoIds(acc), remote) == Fresh(RepoIds(acc), rest);
    } else {
      var next := acc + [r];
      var head := r.(selected := r.selected || k in RepoIds(rest));
      assert MergeOne(acc, r) == next;
      assert RepoIds(next) == RepoIds(acc) + [k];
      MarkSelectedAppend(acc, r, RepoIds(rest));
      assert Fresh(RepoIds(acc), remote) == [head] + Fresh(RepoIds(acc) + [k], rest);
      calc {
        Merged(next, rest);
        MarkSelected(next, RepoIds(rest)) + Fresh(RepoIds(acc) + [k], rest);
        MarkSelected(acc, RepoIds(remote)) + [head] + Fresh(RepoIds(acc) + [k], rest);
        Merged(acc, remote);
      }
    }
  }

  /** fetchAllRepos: starts from the local repositories, then for each remote one
      either marks the first entry with its id as selected or appends it. */
  method FetchAllRepos(localRepos: seq<Repo>, remoteRepos: seq<Repo>) returns (repos: seq<Repo>)
    ensures repos == MarkSelected(localRepos, RepoIds(remoteRepos)) + Fresh(RepoIds(localRepos), remoteRepos)
  {
    repos := localRepos;
    var i := 0;
    assert remoteRepos[0..] == remoteRepos;
    while i < |remoteRepos|
      invariant 0 <= i <= |remoteRepos|
      invariant Merged(repos, remoteRepos[i..]) == Merged(localRepos, remoteRepos)
    {
      var remote := remoteRepos[i];
      MergeOneStep(repos, remoteRepos[i..]);
      assert remoteRepos[i..][1..] == remoteRepos[i + 1..];
      var found := FirstIndex(RepoIds(repos), remote.repoId);
      if found.Some? {
        repos := repos[found.value := repos[found.value].(selected := true)];
      } else {
        repos := repos + [remote];
      }
      i := i + 1;
    }
    assert remoteRepos[i..] == [];
    assert MarkSelected(repos, []) == repos;
  }

  /** The ids the merge appends: each remote id not seen before, once, in order. */
  function NewIds(seen: seq<RepoId>, ids: seq<RepoId>): (added: seq<RepoId>)
    decreases |ids|
  {
    if ids == [] then []
    else if ids[0] in seen then NewIds(seen, ids[1..])
    else [ids[0]] + NewIds(seen + [ids[0]], ids[1..])
  }

  lemma {:induction false} FreshIds(seen: seq<RepoId>, remote: seq<Repo>)
    ensures RepoIds(Fresh(seen, remote)) == NewIds(seen, RepoIds(remote))
    decreases |remote|
  {
    if remote != [] {
      assert RepoIds(remote)[1..] == RepoIds(remote[1..]);
      if remote[0].repoId in seen {
        FreshIds(seen, remote[1..]);
      } else {
        FreshIds(seen + [remote[0].repoId], remote[1..]);
      }
    }
  }

  lemma {:induction false} NewIdsProperties(seen: seq<RepoId>, ids: seq<RepoId>)
    ensures Distinct(seen) ==> Distinct(seen + NewIds(seen, ids))
    ensures forall k :: k in ids ==> k in seen + NewIds(seen, ids)
    ensures forall k :: k in NewIds(seen, ids) ==> k in ids && k !in seen
    decreases |ids|
  {
    if ids != [] {
      var rest := ids[1..];
      assert ids == [ids[0]] + rest;
      if ids[0] in seen {
        NewIdsProperties(seen, rest);
      } else {
        var seen' := seen + [ids[0]];
        NewIdsProperties(seen', rest);
        assert seen + NewIds(seen, ids) == seen' + NewIds(seen', rest);
      }
    }
  }

  /** The merged list holds the local ids in local order, then every remote id not
      already present, once each, in remote order; no remote id is lost, and local
      ids that were distinct stay distinct. */
  lemma FetchAllReposIds(localRepos: seq<Repo>, remoteRepos: seq<Repo>)
    ensures var merged := MarkSelected(localRepos, RepoIds(remoteRepos)) + Fresh(RepoIds(localRepos), remoteRepos);
      && RepoIds(merged) == RepoIds(localRepos) + NewIds(RepoIds(localRepos), RepoIds(remoteRepos))
      && (forall k :: k in RepoIds(remoteRepos) ==> k in RepoIds(merged))
      && (Distinct(RepoIds(localRepos)) ==> Distinct(RepoIds(merged)))
  {
    var marked := MarkSelected(localRepos, RepoIds(remoteRepos));
    var appended := Fresh(RepoIds(localRepos), remoteRepos);
    assert RepoIds(marked + appended) == RepoIds(marked) + RepoIds(appended);
    assert RepoIds(marked) == RepoIds(localRepos);
    FreshIds(RepoIds(localRepos), remoteRepos);
    NewIdsProperties(RepoIds(localRepos), RepoIds(remoteRepos));
  }

  /** With distinct local ids, each local repository keeps its place and its fields,
      and is selected afterwards exactly when it was or a remote repository shares its id. */
  lemma FetchAllReposKeepsLocal(localRepos: seq<Repo>, remoteRepos: seq<Repo>)
    requires Distinct(RepoIds(localRepos))
    ensures var merged := MarkSelected(localRepos, RepoIds(remoteRepos)) + Fresh(RepoIds(localRepos), remoteRepos);
      forall i :: 0 <= i < |localRepos| ==>
        merged[i] == localRepos[i].(selected := localRepos[i].selected || localRepos[i].repoId in RepoIds(remoteRepos))
  {
  }

  // ---------------------------------------------------------------------------
  // fetchData

  /** fetchData fetches one extra pull request for a repository when a number was
      requested (`prNumber`, already parsed), the repository's name is the requested
      one, and no fetched pull request has that number. */
  function NeedsExtraPR(prNumber: Option<int>, repoName: Option<string>, repo: Repo, prs: seq<PullRequest>): (fetch: bool)
    ensures fetch <==> prNumber.Some? && repoName == Some(repo.name) && forall p :: p in prs ==> p.number != prNumber.value
  {
    match prNumber
    case None => false
    case Some(n) => repoName == Some(repo.name) && FirstIndex(Map(prs, (p: PullRequest) => p.number), n).None?
  }

  /** The list passed to registerPRs: the fetched one, plus the extra pull request
      when it was needed and the service returned one. */
  function PRsToRegister(prNumber: Option<int>, repoName: Option<string>, repo: Repo, prs: seq<PullRequest>,
                         otherPR: Option<PullRequest>): (registered: seq<PullRequest>)
    ensures registered == prs || (otherPR.Some? && registered == prs + [otherPR.value])
    ensures |registered| == |prs| + 1 <==> NeedsExtraPR(prNumber, repoName, repo, prs) && otherPR.Some?
  {
    if NeedsExtraPR(prNumber, repoName, repo, prs) && otherPR.Some? then prs + [otherPR.value] else prs
  }

  /** Once the requested pull request is in the list, fetchData would not fetch it again. */
  lemma RegisteredHoldsRequested(prNumber: Option<int>, repoName: Option<string>, repo: Repo, prs: seq<PullRequest>,
                                 otherPR: Option<PullRequest>)
    requires prNumber.Some? && repoName == Some(repo.name)
    requires otherPR.Some? && otherPR.value.number == prNumber.value
    ensures !NeedsExtraPR(prNumber, repoName, repo, PRsToRegister(prNumber, repoName, repo, prs, otherPR))
  {
  }

  // ---------------------------------------------------------------------------
  // setTotalUnread

  function DigitChar(d: nat): (c: char)
    requires d < 10
  {
    "0123456789"[d]
  }

  function DigitValue(c: char): (d: nat)
  {
    if '0' <= c <= '9' then (c as int - '0' as int) as nat else 0
  }

  /** The decimal digits of `n`, most significant first, as a template literal prints them. */
  function NatToDecimal(n: nat): (s: string)
    ensures |s| >= 1
    ensures forall k :: 0 <= k < |s| ==> '0' <= s[k] <= '9'
    ensures |s| > 1 ==> s[0] != '0'
  {
    if n < 10 then [DigitChar(n)] else NatToDecimal(n / 10) + [DigitChar(n % 10)]
  }

  function DecimalValue(s: string): (n: nat)
  {
    if s == [] then 0 else DecimalValue(s[..|s| - 1]) * 10 + DigitValue(s[|s| - 1])
  }

  lemma {:induction false} DecimalRoundTrip(n: nat)
    ensures DecimalValue(NatToDecimal(n)) == n
  {
    if n >= 10 {
      var s := NatToDecimal(n);
      assert s[..|s| - 1] == NatToDecimal(n / 10);
      DecimalRoundTrip(n / 10);
    }
  }

  /** A number in a template literal: a minus sign for negatives, then the digits. */
  function IntToDecimal(n: int): (s: string)
  {
    if n < 0 then "-" + NatToDecimal(-n) else NatToDecimal(n)
  }

  /** The document title setTotalUnread computes. */
  function UnreadTitle(totalUnread: int): (title: string)
    ensures totalUnread == 0 <==> title == "\U{2714} Well done "
    ensures totalUnread != 0 ==> title == IntToDecimal(totalUnread) + " unread"
  {
    if totalUnread == 0 then "\U{2714} Well done "
    else
      var title := IntToDecimal(totalUnread) + " unread";
      assert title[|title| - 1] == 'd';
      title
  }

  lemma IntToDecimalShape(n: int)
    ensures |IntToDecimal(n)| >= 1
    ensures IntToDecimal(n)[0] == '-' <==> n < 0
    ensures n < 0 ==> IntToDecimal(n)[1..] == NatToDecimal(-n)
    ensures n >= 0 ==> IntToDecimal(n) == NatToDecimal(n)
  {
  }

  /** Reads back what IntToDecimal writes. */
  function ParseInt(s: string): (n: int)
  {
    if |s| > 0 && s[0] == '-' then -(DecimalValue(s[1..]) as int) else DecimalValue(s)
  }

  lemma IntRoundTrip(n: int)
    ensures ParseInt(IntToDecimal(n)) == n
  {
    if n < 0 {
      NegativeRoundTrip(n);
    } else {
      NonNegativeRoundTrip(n);
    }
  }

  lemma NonNegativeRoundTrip(n: int)
    requires n >= 0
    ensures ParseInt(IntToDecimal(n)) == n
  {
    IntToDecimalShape(n);
    DecimalRoundTrip(n);
    var s := IntToDecimal(n);
    assert s == NatToDecimal(n);
    assert s[0] != '-';
  }

  lemma NegativeRoundTrip(n: int)
    requires n < 0
    ensures ParseInt(IntToDecimal(n)) == n
  {
    var d := NatToDecimal(-n);
    calc {
      ParseInt(IntToDecimal(n));
      ParseInt("-" + d);
      { ParseSigned(d); }
      -(DecimalValue(d) as int);
      { DecimalRoundTrip(-n); }
      n;
    }
  }

  lemma ParseSigned(d: string)
    ensures ParseInt("-" + d) == -(DecimalValue(d) as int)
  {
  }

  /** Different unread counts give different titles. */
  lemma UnreadTitleInjective(a: int, b: int)
    requires UnreadTitle(a) == UnreadTitle(b)
    ensures a == b
  {
    if a != 0 && b != 0 {
      var sa, sb := IntToDecimal(a), IntToDecimal(b);
      var ta := sa + " unread";
      var tb := sb + " unread";
      assert ta[..|sa|] == sa && tb[..|sb|] == sb;
      assert |sa| == |sb|;
      IntRoundTrip(a);
      IntRoundTrip(b);
    }
  }
}
