/**
 * src/git.ts: the version-control steps of the helper. The branch lists git
 * reports and the staged diff are inputs; each git call becomes an entry of
 * the effect log. The choice among the three ways of switching to a branch is
 * pure and is stated on its own.
 */
module Git {
  import opened Text
  import opened Effects

  const RemoteName: string := "origin"
  const RemotePrefix: string := "origin/"

  // ---------------------------------------------------------------------------
  // Branch existence and the three-way decision
  // ---------------------------------------------------------------------------

  /** `b.replace("origin/", "")`: the first "origin/" in the entry is removed,
      wherever it stands. */
  function StripRemotePrefix(entry: string): (r: string)
  {
    ReplaceFirst(entry, RemotePrefix, "")
  }

  /** `localBranches.all.includes(name)`. */
  predicate ExistsLocal(local: seq<string>, name: string)
  {
    name in local
  }

  /** `remoteBranches.all.some(b => b.replace("origin/", "") === name)`. */
  predicate ExistsRemote(remote: seq<string>, name: string)
    decreases |remote|
  {
    remote != [] && (StripRemotePrefix(remote[0]) == name || ExistsRemote(remote[1..], name))
  }

  /** `some` holds exactly when one entry, stripped, equals the name. */
  lemma {:induction false} ExistsRemoteIff(remote: seq<string>, name: string)
    ensures ExistsRemote(remote, name) <==>
              exists i :: 0 <= i < |remote| && StripRemotePrefix(remote[i]) == name
    decreases |remote|
  {
    if remote != [] {
      ExistsRemoteIff(remote[1..], name);
      assert forall i :: 1 <= i < |remote| ==> remote[i] == remote[1..][i - 1];
    }
  }

  /** An entry "origin/<name>" always makes `name` exist on the remote. */
  lemma OriginEntryExists(remote: seq<string>, name: string)
    requires RemotePrefix + name in remote
    ensures ExistsRemote(remote, name)
  {
    ReplaceFirstPrefix(RemotePrefix, name);
    ExistsRemoteIff(remote, name);
  }

  /** An entry without "origin/" is compared as it is. */
  lemma StripWithoutPrefix(entry: string)
    requires !Contains(entry, RemotePrefix)
    ensures StripRemotePrefix(entry) == entry
  {
  }

  /** The way to switch to the branch. */
  datatype BranchAction =
    | SwitchTo(branch: string)      // the branch exists locally
    | TrackRemote(branch: string)   // only the remote has it: track origin/<branch>
    | CreateLocal(branch: string)   // nobody has it: create it

  /** The decision in `handleBranching`: local wins over remote. */
  function ResolveBranch(local: seq<string>, remote: seq<string>, name: string): (a: BranchAction)
    ensures a.branch == name
  {
    if ExistsLocal(local, name) then SwitchTo(name)
    else if ExistsRemote(remote, name) then TrackRemote(name)
    else CreateLocal(name)
  }

  /** The git call that carries out an action. */
  function CheckoutEffect(a: BranchAction): (e: Effect)
    ensures IsCheckout(e)
  {
    match a
    case SwitchTo(b) => GitCheckout([b])
    case TrackRemote(b) => GitCheckout(["-b", b, RemotePrefix + b])
    case CreateLocal(b) => GitCheckoutLocalBranch(b)
  }

  /** A branch present locally is switched to with a plain checkout, whatever
      the remote list holds. */
  lemma ResolveLocalWins(local: seq<string>, remote: seq<string>, name: string)
    requires name in local
    ensures CheckoutEffect(ResolveBranch(local, remote, name)) == GitCheckout([name])
  {
  }

  /** A branch only the remote has is created tracking origin/<name>. */
  lemma ResolveTracksRemote(local: seq<string>, remote: seq<string>, name: string)
    requires name !in local
    requires exists i :: 0 <= i < |remote| && StripRemotePrefix(remote[i]) == name
    ensures CheckoutEffect(ResolveBranch(local, remote, name)) == GitCheckout(["-b", name, "origin/" + name])
  {
    ExistsRemoteIff(remote, name);
  }

  /** A branch nobody has is created fresh. */
  lemma ResolveCreatesFresh(local: seq<string>, remote: seq<string>, name: string)
    requires name !in local
    requires forall i :: 0 <= i < |remote| ==> StripRemotePrefix(remote[i]) != name
    ensures CheckoutEffect(ResolveBranch(local, remote, name)) == GitCheckoutLocalBranch(name)
  {
    ExistsRemoteIff(remote, name);
  }

  /** Exactly one of the three cases applies, each for exactly its condition. */
  lemma ResolveCases(local: seq<string>, remote: seq<string>, name: string)
    ensures var a := ResolveBranch(local, remote, name);
            && (a.SwitchTo? <==> name in local)
            && (a.TrackRemote? <==> name !in local && ExistsRemote(remote, name))
            && (a.CreateLocal? <==> name !in local && !ExistsRemote(remote, name))
  {
  }

  /** What `handleBranching` issues: the two listings, then one checkout. */
  function BranchingEffects(local: seq<string>, remote: seq<string>, name: string): (t: seq<Effect>)
    ensures CountCheckouts(t) == 1
  {
    var t := [GitBranchLocal, GitBranchRemote, CheckoutEffect(ResolveBranch(local, remote, name))];
    assert CountCheckouts(t[2..]) == 1 by { assert t[2..][1..] == []; }
    assert t[1..][1..] == t[2..];
    assert CountCheckouts(t[1..]) == 1;
    t
  }

  // ---------------------------------------------------------------------------
  // The git steps, as calls appending to the effect log
  // ---------------------------------------------------------------------------

  /** `addStagedChanges`: `git add .`. */
  method AddStagedChanges(log: EffectLog)
    modifies log
    ensures log.events == old(log.events) + [GitAdd(".")]
  {
    log.Record(GitAdd("."));
  }

  /** `getStagedDiff`: the text `git diff --staged` printed. */
  method GetStagedDiff(log: EffectLog, staged: string) returns (diff: string)
    modifies log
    ensures diff == staged
    ensures log.events == old(log.events) + [GitDiffStaged]
  {
    log.Record(GitDiffStaged);
    diff := staged;
  }

  /** `handleBranching`: list local and remote branches (git answers `local`
      and `remote`), then switch to `branchName` one of three ways. */
  method HandleBranching(log: EffectLog, branchName: string, local: seq<string>, remote: seq<string>)
    modifies log
    ensures log.events == old(log.events) + BranchingEffects(local, remote, branchName)
  {
    log.Record(GitBranchLocal);
    var existsLocal := ExistsLocal(local, branchName);
    log.Record(GitBranchRemote);
    var existsRemote := ExistsRemote(remote, branchName);
    if existsLocal {
      log.Record(GitCheckout([branchName]));
    } else if existsRemote {
      log.Record(GitCheckout(["-b", branchName, RemotePrefix + branchName]));
    } else {
      log.Record(GitCheckoutLocalBranch(branchName));
    }
  }

  /** `commitChanges`: the message is passed on unchanged. */
  method CommitChanges(log: EffectLog, message: string)
    modifies log
    ensures log.events == old(log.events) + [GitCommit(message)]
  {
    log.Record(GitCommit(message));
  }

  /** `pushChanges`: push the branch to origin, setting its upstream. */
  method PushChanges(log: EffectLog, branchName: string)
    modifies log
    ensures log.events == old(log.events) + [GitPush(RemoteName, branchName, ["-u"])]
  {
    log.Record(GitPush(RemoteName, branchName, ["-u"]));
  }
}
