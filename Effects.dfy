/**
 * The externally visible steps of one run of the helper: each call into git,
 * each request to the language model and each interactive prompt, in the
 * order they are issued. Console logging is not an effect here: it has no
 * bearing on what happens next.
 */
module Effects {

  datatype Effect =
    | GitAdd(pathspec: string)                                       // git add <pathspec>
    | GitDiffStaged                                                  // git diff --staged
    | GitBranchLocal                                                 // git branch (local list)
    | GitBranchRemote                                                // git branch -r
    | GitCheckout(args: seq<string>)                                 // git checkout <args>
    | GitCheckoutLocalBranch(branch: string)                         // git checkout -b <branch>
    | GitCommit(message: string)                                     // git commit -m <message>
    | GitPush(remote: string, branch: string, options: seq<string>)  // git push <remote> <branch> <options>
    | AskClassification(diff: string)                                // chat completion: type and gitmoji
    | AskCommitMessage(diff: string)                                 // chat completion: message line
    | PromptAction(suggestion: string)                               // select: commit / edit / cancel
    | PromptEdit(initial: string)                                    // input: edited message

  /** An effect that switches the working tree to a branch. */
  predicate IsCheckout(e: Effect)
  {
    e.GitCheckout? || e.GitCheckoutLocalBranch?
  }

  /** The number of branch switches in a trace. */
  function CountCheckouts(trace: seq<Effect>): (n: nat)
    ensures n <= |trace|
    ensures n == 0 <==> forall i :: 0 <= i < |trace| ==> !IsCheckout(trace[i])
  {
    if trace == [] then 0
    else (if IsCheckout(trace[0]) then 1 else 0) + CountCheckouts(trace[1..])
  }

  lemma {:induction false} CountCheckoutsAppend(a: seq<Effect>, b: seq<Effect>)
    ensures CountCheckouts(a + b) == CountCheckouts(a) + CountCheckouts(b)
    decreases |a|
  {
    if a != [] {
      assert (a + b)[1..] == a[1..] + b;
      CountCheckoutsAppend(a[1..], b);
    } else {
      assert a + b == b;
    }
  }

  /** The log the helper's steps append to, in issue order. */
  class EffectLog {
    var events: seq<Effect>

    constructor ()
      ensures events == []
    {
      events := [];
    }

    method Record(e: Effect)
      modifies this
      ensures events == old(events) + [e]
    {
      events := events + [e];
    }
  }
}
