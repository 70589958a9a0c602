/**
 * `head_of`: the short commit id to deploy for a branch, taken from the remote tracking
 * branches of every remote. The repository is a snapshot of its state after each remote
 * has been fetched; `short` stands for `rev_parse(commit, short=8)`.
 */
module RemoteHead {
  import opened Wrappers

  type Commit = string

  /** A remote tracking ref such as `origin/main`, with the full commit it points at. */
  datatype Ref = Ref(name: string, commit: Commit)

  datatype Remote = Remote(name: string, refs: seq<Ref>)

  /** `activeBranch` is `None` where `repo.active_branch` raises (detached HEAD, unfinished rebase). */
  datatype Repo = Repo(activeBranch: Option<string>, head: Commit, remotes: seq<Remote>)

  datatype HeadError =
    | InconclusiveBranch
    | NoRemoteTrackingBranch(branch: string)
    | AmbiguousRemoteHeads(branch: string)

  /** The two readings of the ambiguity check of lines 176-184. */
  datatype Rule =
    | AsWritten  // `seen.keys() != 1` compares a keys view with an int, which is never equal
    | Intended   // the comments: bail out only when the matching refs differ in commit

  /** The name under which remote `remote` tracks `branch`. */
  function TrackingName(remote: string, branch: string): string {
    remote + "/" + branch
  }

  /** The refs named `want`, in their order. */
  function FilterRefs(refs: seq<Ref>, want: string): (r: seq<Ref>)
    ensures |r| <= |refs|
  {
    if refs == [] then []
    else
      var last := refs[|refs| - 1];
      FilterRefs(refs[..|refs| - 1], want) + (if last.name == want then [last] else [])
  }

  /** What the nested loops collect: remote by remote, each remote's refs named `{remote}/{branch}`. */
  function Matching(remotes: seq<Remote>, branch: string): seq<Ref> {
    if remotes == [] then []
    else
      var last := remotes[|remotes| - 1];
      Matching(remotes[..|remotes| - 1], branch) + FilterRefs(last.refs, TrackingName(last.name, branch))
  }

  /** The distinct full commits of `refs`: the keys of `seen`. */
  function Commits(refs: seq<Ref>): set<Commit> {
    set r | r in refs :: r.commit
  }

  predicate Aborts(rule: Rule, matches: seq<Ref>) {
    |matches| > 1 &&
    match rule
    case AsWritten => true
    case Intended => |Commits(matches)| != 1
  }

  /** The branch `head_of` works on: the given one, else the active branch of the repository. */
  function Target(repo: Repo, branch: Option<string>): (t: Option<string>)
    ensures t.None? <==> branch.None? && repo.activeBranch.None?
  {
    if branch.Some? then branch else repo.activeBranch
  }

  /** The outcome of `head_of(branch, local)` under the given reading of the ambiguity check. */
  function Resolve(repo: Repo, branch: Option<string>, local: bool, short: Commit -> string,
                   rule: Rule): (r: Result<string, HeadError>)
    ensures r == Failure(InconclusiveBranch) <==> Target(repo, branch).None?
    ensures r.Success? && local ==> r.value == short(repo.head)
    ensures r.Success? && !local ==>
              var m := Matching(repo.remotes, Target(repo, branch).value);
              m != [] && r.value == short(m[0].commit)
    ensures r.Failure? && Target(repo, branch).Some? ==>
              !local && r.error.branch == Target(repo, branch).value
  {
    var target := Target(repo, branch);
    if target.None? then Failure(InconclusiveBranch)
    else if local then Success(short(repo.head))
    else
      var matches := Matching(repo.remotes, target.value);
      if |matches| < 1 then Failure(NoRemoteTrackingBranch(target.value))
      else if Aborts(rule, matches) then Failure(AmbiguousRemoteHeads(target.value))
      else Success(short(matches[0].commit))
  }

  /** The loops of lines 148-166: every ref of every remote whose name is `{remote}/{branch}`. */
  method CollectRemoteRefs(remotes: seq<Remote>, branch: string) returns (remoteRefs: seq<Ref>)
    ensures remoteRefs == Matching(remotes, branch)
  {
    remoteRefs := [];
    for i := 0 to |remotes|
      invariant remoteRefs == Matching(remotes[..i], branch)
    {
      var remote := remotes[i];
      var want := TrackingName(remote.name, branch);
      for j := 0 to |remote.refs|
        invariant remoteRefs == Matching(remotes[..i], branch) + FilterRefs(remote.refs[..j], want)
      {
        var ref := remote.refs[j];
        assert remote.refs[..j + 1][..j] == remote.refs[..j];
        if ref.name == want {
          remoteRefs := remoteRefs + [ref];
        }
      }
      assert remote.refs[..|remote.refs|] == remote.refs;
      assert remotes[..i + 1][..i] == remotes[..i];
    }
    assert remotes[..|remotes|] == remotes;
  }

  /** The loop of lines 177-179: `seen` gets one key per distinct commit of `refs`. */
  method SeenCommits(refs: seq<Ref>) returns (seen: map<Commit, bool>)
    ensures seen.Keys == Commits(refs)
    ensures forall c :: c in seen ==> seen[c]
  {
    seen := map[];
    for k := 0 to |refs|
      invariant seen.Keys == Commits(refs[..k])
      invariant forall c :: c in seen ==> seen[c]
    {
      assert refs[..k + 1] == refs[..k] + [refs[k]];
      seen := seen[refs[k].commit := true];
    }
    assert refs[..|refs|] == refs;
  }

  /** `head_of` as written: a second matching ref always aborts, even when the commits agree. */
  method HeadOf(repo: Repo, branch: Option<string>, local: bool, short: Commit -> string)
    returns (r: Result<string, HeadError>)
    ensures r == Resolve(repo, branch, local, short, AsWritten)
  {
    var target := branch;
    if target.None? {
      target := repo.activeBranch;
      if target.None? {
        return Failure(InconclusiveBranch);
      }
    }
    if local {
      return Success(short(repo.head));
    }
    var remoteRefs := CollectRemoteRefs(repo.remotes, target.value);
    if |remoteRefs| < 1 {
      return Failure(NoRemoteTrackingBranch(target.value));
    }
    if |remoteRefs| > 1 {
      var seen := SeenCommits(remoteRefs);
      // `seen.keys() != 1` holds for every `seen`: a keys view never equals an int.
      return Failure(AmbiguousRemoteHeads(target.value));
    }
    return Success(short(remoteRefs[0].commit));
  }

  /** `head_of` with the check its comments describe: abort only when the matching refs disagree. */
  method HeadOfIntended(repo: Repo, branch: Option<string>, local: bool, short: Commit -> string)
    returns (r: Result<string, HeadError>)
    ensures r == Resolve(repo, branch, local, short, Intended)
  {
    var target := branch;
    if target.None? {
      target := repo.activeBranch;
      if target.None? {
        return Failure(InconclusiveBranch);
      }
    }
    if local {
      return Success(short(repo.head));
    }
    var remoteRefs := CollectRemoteRefs(repo.remotes, target.value);
    if |remoteRefs| < 1 {
      return Failure(NoRemoteTrackingBranch(target.value));
    }
    if |remoteRefs| > 1 {
      var seen := SeenCommits(remoteRefs);
      if |seen.Keys| != 1 {
        return Failure(AmbiguousRemoteHeads(target.value));
      }
    }
    return Success(short(remoteRefs[0].commit));
  }

  // ---- Properties of the selection ----

  /** A ref is kept exactly when it is one of `refs` and carries the wanted name. */
  lemma {:induction false} FilterRefsMember(refs: seq<Ref>, want: string, x: Ref)
    ensures x in FilterRefs(refs, want) <==> x in refs && x.name == want
  {
    if refs != [] {
      var init := refs[..|refs| - 1];
      FilterRefsMember(init, want, x);
      assert refs == init + [refs[|refs| - 1]];
    }
  }

  /** Filtering keeps the order of the refs: it distributes over concatenation. */
  lemma {:induction false} FilterRefsAppend(a: seq<Ref>, b: seq<Ref>, want: string)
    ensures FilterRefs(a + b, want) == FilterRefs(a, want) + FilterRefs(b, want)
  {
    if b == [] {
      assert a + b == a;
    } else {
      var init, last := b[..|b| - 1], b[|b| - 1];
      var tail := if last.name == want then [last] else [];
      FilterRefsAppend(a, init, want);
      assert (a + b)[..|a + b| - 1] == a + init;
      assert FilterRefs(a + b, want) == FilterRefs(a + init, want) + tail;
      assert FilterRefs(b, want) == FilterRefs(init, want) + tail;
    }
  }

  /** A ref is collected exactly when some remote holds it under the name `{remote}/{branch}`. */
  lemma {:induction false} MatchingMember(remotes: seq<Remote>, branch: string, x: Ref)
    ensures x in Matching(remotes, branch) <==>
            exists i :: 0 <= i < |remotes| && x in remotes[i].refs &&
                        x.name == TrackingName(remotes[i].name, branch)
  {
    if remotes != [] {
      var n := |remotes| - 1;
      var init := remotes[..n];
      MatchingMember(init, branch, x);
      FilterRefsMember(remotes[n].refs, TrackingName(remotes[n].name, branch), x);
      if x in Matching(remotes, branch) {
        if x in Matching(init, branch) {
          var i :| 0 <= i < |init| && x in init[i].refs && x.name == TrackingName(init[i].name, branch);
          assert remotes[i] == init[i];
        }
      } else {
        forall i | 0 <= i < |remotes|
          ensures !(x in remotes[i].refs && x.name == TrackingName(remotes[i].name, branch))
        {
          if i < n {
            assert remotes[i] == init[i];
          }
        }
      }
    }
  }

  /** Remotes are visited in order: the refs of earlier remotes come first. */
  lemma {:induction false} MatchingAppend(a: seq<Remote>, b: seq<Remote>, branch: string)
    ensures Matching(a + b, branch) == Matching(a, branch) + Matching(b, branch)
  {
    if b == [] {
      assert a + b == a;
    } else {
      var init, last := b[..|b| - 1], b[|b| - 1];
      var tail := FilterRefs(last.refs, TrackingName(last.name, branch));
      MatchingAppend(a, init, branch);
      assert (a + b)[..|a + b| - 1] == a + init;
      assert Matching(a + b, branch) == Matching(a + init, branch) + tail;
      assert Matching(b, branch) == Matching(init, branch) + tail;
    }
  }

  /** A single remote contributes its own refs named `{remote}/{branch}`, in its order. */
  lemma MatchingSingle(remote: Remote, branch: string)
    ensures Matching([remote], branch) == FilterRefs(remote.refs, TrackingName(remote.name, branch))
  {
    assert [remote][..0] == [];
  }

  // ---- Properties of the resolution ----

  /** The branch is settled first: no branch and no active branch fails, even in local mode. */
  lemma InconclusiveBranchFirst(repo: Repo, local: bool, short: Commit -> string, rule: Rule)
    requires repo.activeBranch.None?
    ensures Resolve(repo, None, local, short, rule) == Failure(InconclusiveBranch)
  {
  }

  /** Without an explicit branch, `head_of` behaves as if the active branch had been given. */
  lemma ResolveFromActiveBranch(repo: Repo, local: bool, short: Commit -> string, rule: Rule)
    ensures Resolve(repo, None, local, short, rule) == Resolve(repo, repo.activeBranch, local, short, rule)
  {
  }

  /** In local mode with a known branch the result is the short HEAD commit; remotes play no part. */
  lemma LocalIgnoresRemotes(repo: Repo, branch: Option<string>, short: Commit -> string, rule: Rule,
                            others: seq<Remote>)
    requires branch.Some? || repo.activeBranch.Some?
    ensures Resolve(repo, branch, true, short, rule) == Success(short(repo.head))
    ensures Resolve(repo.(remotes := others), branch, true, short, rule) == Resolve(repo, branch, true, short, rule)
  {
  }

  /** Without a matching remote tracking branch `head_of` fails, under both readings. */
  lemma NoMatchFails(repo: Repo, branch: string, short: Commit -> string, rule: Rule)
    requires forall i, x :: 0 <= i < |repo.remotes| && x in repo.remotes[i].refs ==>
               x.name != TrackingName(repo.remotes[i].name, branch)
    ensures Resolve(repo, Some(branch), false, short, rule) == Failure(NoRemoteTrackingBranch(branch))
  {
    var m := Matching(repo.remotes, branch);
    if m != [] {
      MatchingMember(repo.remotes, branch, m[0]);
    }
  }

  /** Exactly one matching ref: its short commit is the answer, under both readings. */
  lemma SingleMatchResolves(repo: Repo, branch: string, short: Commit -> string, rule: Rule)
    requires |Matching(repo.remotes, branch)| == 1
    ensures Resolve(repo, Some(branch), false, short, rule) ==
            Success(short(Matching(repo.remotes, branch)[0].commit))
  {
  }

  /** As written, any second matching ref aborts, whatever the commits. */
  lemma AsWrittenAbortsOnSecondMatch(repo: Repo, branch: string, short: Commit -> string)
    requires |Matching(repo.remotes, branch)| > 1
    ensures Resolve(repo, Some(branch), false, short, AsWritten) == Failure(AmbiguousRemoteHeads(branch))
  {
  }

  /** Refs agree on one commit exactly when every one of them has the first one's commit. */
  lemma {:induction false} CommitsSingleton(refs: seq<Ref>)
    requires refs != []
    ensures |Commits(refs)| == 1 <==> forall x :: x in refs ==> x.commit == refs[0].commit
  {
    var c := refs[0].commit;
    if forall x :: x in refs ==> x.commit == c {
      assert Commits(refs) == {c};
    } else {
      var y :| y in refs && y.commit != c;
      assert {c, y.commit} <= Commits(refs);
      assert |{c, y.commit}| == 2;
      SubsetCard({c, y.commit}, Commits(refs));
    }
  }

  lemma SubsetCard<T>(a: set<T>, b: set<T>)
    requires a <= b
    ensures |a| <= |b|
  {
    assert b == a + (b - a);
  }

  /**
   * The intended rule: with at least one match, `head_of` fails exactly when some matching ref
   * differs in commit from the first, and otherwise returns the short commit every match shares.
   */
  lemma IntendedResolution(repo: Repo, branch: string, short: Commit -> string)
    requires Matching(repo.remotes, branch) != []
    ensures var m := Matching(repo.remotes, branch);
            var r := Resolve(repo, Some(branch), false, short, Intended);
            && (r.Failure? <==> exists x :: x in m && x.commit != m[0].commit)
            && (r.Failure? ==> r.error == AmbiguousRemoteHeads(branch))
            && (r.Success? ==> forall x :: x in m ==> r.value == short(x.commit))
  {
    var m := Matching(repo.remotes, branch);
    CommitsSingleton(m);
    assert |m| == 1 ==> |Commits(m)| == 1;
  }

  /** The refs the example below collects for `main`. */
  lemma AgreeingRemotesMatches(o: Remote, w: Remote)
    requires o == Remote("origin", [Ref("origin/main", "abc12345ff")])
    requires w == Remote("mirror", [Ref("mirror/main", "abc12345ff")])
    ensures Matching([o, w], "main") == [Ref("origin/main", "abc12345ff"), Ref("mirror/main", "abc12345ff")]
  {
    var a := Ref("origin/main", "abc12345ff");
    var b := Ref("mirror/main", "abc12345ff");
    assert TrackingName(o.name, "main") == a.name;
    assert TrackingName(w.name, "main") == b.name;
    assert o.refs[..0] == [] && w.refs[..0] == [];
    assert FilterRefs(o.refs, a.name) == [a];
    assert FilterRefs(w.refs, b.name) == [b];
    assert [o, w][..1] == [o];
    assert [o][..0] == [];
    assert Matching([o], "main") == [a];
    assert Matching([o, w], "main") == Matching([o], "main") + [b];
  }

  /** Two remotes tracking `main` at the same commit: as written this aborts, as intended it resolves. */
  lemma AgreeingRemotesExample(short: Commit -> string)
    ensures var repo := Repo(Some("main"), "f00dfeed", [
                          Remote("origin", [Ref("origin/main", "abc12345ff")]),
                          Remote("mirror", [Ref("mirror/main", "abc12345ff")])]);
            && Resolve(repo, None, false, short, AsWritten) == Failure(AmbiguousRemoteHeads("main"))
            && Resolve(repo, None, false, short, Intended) == Success(short("abc12345ff"))
  {
    var o := Remote("origin", [Ref("origin/main", "abc12345ff")]);
    var w := Remote("mirror", [Ref("mirror/main", "abc12345ff")]);
    AgreeingRemotesMatches(o, w);
    var m := Matching([o, w], "main");
    assert Commits(m) == {"abc12345ff"};
  }
}
