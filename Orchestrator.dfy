/**
 * src/index.ts: one run of the helper. Stage, read the staged diff (stop with
 * exit code 1 when it is empty), resolve the commit type (the override, or
 * the classifier), switch to the branch `<type>/<name>`, draft the message,
 * ask the user, then commit and push (or stop with exit code 0 on cancel).
 *
 * The outside world's answers (the diff, the model's replies, the branch
 * lists, the user's choice) form a `Scenario`; the run is the method `Run`,
 * proved to produce the trace and exit code `Session` specifies.
 */
module Orchestrator {
  import opened Wrappers
  import opened Text
  import opened CommitTypes
  import opened Effects
  import opened Ai
  import opened Git

  /** The command line: `typeOverride` is the `--type` value, with "" standing
      for an option that was not given (both are falsy); `name` is `--name`. */
  datatype Options = Options(typeOverride: string, name: string)

  /** The answer to the select prompt; an edit carries the text typed in. */
  datatype Choice = Accept | Edit(text: string) | Cancel

  /** Everything the run receives from outside. */
  datatype Scenario = Scenario(
    options: Options,
    staged: string,            // what `git diff --staged` printed
    reply: Reply,              // the classification request's outcome
    local: seq<string>,        // the local branch list
    remote: seq<string>,       // the remote branch list
    message: MessageReply,     // the message request's outcome
    choice: Choice)

  /** The effects issued, in order, and the process exit code. */
  datatype Outcome = Outcome(trace: seq<Effect>, exitCode: int)

  /** The type and emoji the run settles on. */
  datatype Resolved = Resolved(kind: string, gitmoji: string)

  // ---------------------------------------------------------------------------
  // The local rules of `run`
  // ---------------------------------------------------------------------------

  /** The override when given (with no emoji), the classifier's answer
      otherwise, and "chore" if that still left the type empty. */
  function ResolveType(typeOverride: string, diff: string, reply: Reply): (r: Resolved)
  {
    var first :=
      if typeOverride == "" then
        var c := Classify(diff, reply);
        Resolved(c.kind.Name(), c.gitmoji)
      else Resolved(typeOverride, "");
    if first.kind == "" then Resolved("chore", first.gitmoji) else first
  }

  /** The branch the run works on. */
  function BranchName(kind: string, name: string): (b: string)
    ensures |b| == |kind| + 1 + |name| && b[|kind|] == '/'
    ensures b[..|kind|] == kind && b[|kind| + 1..] == name
  {
    kind + "/" + name
  }

  /** `${gitmoji} ${commitMessageAI}`.trim() */
  function DraftMessage(gitmoji: string, text: string): (m: string)
  {
    Trim(gitmoji + " " + text)
  }

  /** The message committed: the edited text after an edit, the draft otherwise. */
  function FinalMessage(choice: Choice, drafted: string): (m: string)
  {
    if choice.Edit? then choice.text else drafted
  }

  // ---------------------------------------------------------------------------
  // The specification of a run
  // ---------------------------------------------------------------------------

  /** `git add .` then `git diff --staged`. */
  const Staging: seq<Effect> := [GitAdd("."), GitDiffStaged]

  /** Everything up to and including the message request: staging, the
      classification request when no type was given, the branch switch, and
      the message request. */
  function Prelude(sc: Scenario, branch: string): (t: seq<Effect>)
  {
    Classified(sc) + BranchingEffects(sc.local, sc.remote, branch) + [AskCommitMessage(sc.staged)]
  }

  /** Staging, then the classification request when no type was given. */
  function Classified(sc: Scenario): (t: seq<Effect>)
  {
    if sc.options.typeOverride == "" then Staging + [AskClassification(sc.staged)] else Staging
  }

  /** The branch a run with a non-empty diff works on. */
  function SessionBranch(sc: Scenario): (b: string)
  {
    BranchName(ResolveType(sc.options.typeOverride, sc.staged, sc.reply).kind, sc.options.name)
  }

  /** The message a run drafts from an answered message request. */
  function SessionDraft(sc: Scenario): (m: string)
    requires sc.message.Answered?
  {
    DraftMessage(ResolveType(sc.options.typeOverride, sc.staged, sc.reply).gitmoji, GeneratedText(sc.message.content))
  }

  /** The effects and exit code of a run in the given scenario. A failed
      message request is an uncaught error: the top-level handler exits 1. */
  function Session(sc: Scenario): (o: Outcome)
  {
    if sc.staged == "" then Outcome(Staging, 1)
    else
      var prelude := Prelude(sc, SessionBranch(sc));
      if sc.message.RequestFailed? then Outcome(prelude, 1)
      else
        var drafted := SessionDraft(sc);
        var prompted := prelude + [PromptAction(drafted)];
        if sc.choice.Cancel? then Outcome(prompted, 0)
        else
          var edited := if sc.choice.Edit? then prompted + [PromptEdit(drafted)] else prompted;
          Outcome(edited + [GitCommit(FinalMessage(sc.choice, drafted))]
                         + [GitPush(RemoteName, SessionBranch(sc), ["-u"])], 0)
  }

  // ---------------------------------------------------------------------------
  // The run, step by step
  // ---------------------------------------------------------------------------

  /** `run`: the steps in order, with the two early exits. */
  method Run(sc: Scenario) returns (trace: seq<Effect>, exitCode: int)
    ensures Outcome(trace, exitCode) == Session(sc)
  {
    var log := new EffectLog();
    AddStagedChanges(log);
    var diff := GetStagedDiff(log, sc.staged);
    assert log.events == Staging;
    if diff == "" {
      return log.events, 1;
    }

    var kind := sc.options.typeOverride;
    var gitmoji := "";
    if kind == "" {
      log.Record(AskClassification(diff));
      var detected := Classify(diff, sc.reply);
      kind := detected.kind.Name();
      gitmoji := detected.gitmoji;
    }
    assert log.events == Classified(sc);
    if kind == "" {
      kind := "chore";
    }
    assert Resolved(kind, gitmoji) == ResolveType(sc.options.typeOverride, sc.staged, sc.reply);

    var branchName := BranchName(kind, sc.options.name);
    HandleBranching(log, branchName, sc.local, sc.remote);

    log.Record(AskCommitMessage(diff));
    if sc.message.RequestFailed? {
      return log.events, 1;
    }
    var commitMessageAI := GeneratedText(sc.message.content);
    var commitMessage := DraftMessage(gitmoji, commitMessageAI);

    log.Record(PromptAction(commitMessage));
    var finalCommitMessage := commitMessage;
    if sc.choice.Cancel? {
      return log.events, 0;
    }
    if sc.choice.Edit? {
      log.Record(PromptEdit(commitMessage));
      finalCommitMessage := sc.choice.text;
    }

    CommitChanges(log, finalCommitMessage);
    PushChanges(log, branchName);
    return log.events, 0;
  }

  // ---------------------------------------------------------------------------
  // Properties of a run
  // ---------------------------------------------------------------------------

  /** The resolved type is never empty; without an override it is one of the
      five literals and carries the classifier's emoji; with one it is the
      override itself and the emoji stays empty. */
  lemma ResolveTypeSpec(typeOverride: string, diff: string, reply: Reply)
    ensures ResolveType(typeOverride, diff, reply).kind != ""
    ensures typeOverride != "" ==> ResolveType(typeOverride, diff, reply) == Resolved(typeOverride, "")
    ensures typeOverride == "" ==>
              TypeOfString(ResolveType(typeOverride, diff, reply).kind) == Some(Classify(diff, reply).kind)
              && ResolveType(typeOverride, diff, reply).gitmoji == Classify(diff, reply).gitmoji
  {
    ClassifyIsValid(diff, reply);
    TypeOfName(Classify(diff, reply).kind);
  }

  /** An empty staged diff ends the run with exit code 1 before any branch,
      model, prompt, commit or push effect. */
  lemma EmptyDiffAborts(sc: Scenario)
    requires sc.staged == ""
    ensures Session(sc).exitCode == 1
    ensures Session(sc).trace == [GitAdd("."), GitDiffStaged]
    ensures CountCheckouts(Session(sc).trace) == 0
  {
  }

  /** The effects issued after the message request: prompts, the commit and
      the push. */
  predicate IsClosing(e: Effect)
  {
    e.PromptAction? || e.PromptEdit? || e.GitCommit? || e.GitPush?
  }

  /** A run past the diff issues its prelude first, and only closing effects
      after it. */
  lemma SessionShape(sc: Scenario)
    requires sc.staged != ""
    ensures var t := Session(sc).trace;
            var prelude := Prelude(sc, SessionBranch(sc));
            && |prelude| <= |t| && t[..|prelude|] == prelude
            && forall i :: |prelude| <= i < |t| ==> IsClosing(t[i])
  {
    var prelude := Prelude(sc, SessionBranch(sc));
    ClosingAfter(prelude, prelude, []);
    if sc.message.Answered? {
      var drafted := SessionDraft(sc);
      var prompted := prelude + [PromptAction(drafted)];
      ClosingAfter(prelude, prelude, [PromptAction(drafted)]);
      if !sc.choice.Cancel? {
        var edited := if sc.choice.Edit? then prompted + [PromptEdit(drafted)] else prompted;
        ClosingAfter(prelude, prompted, if sc.choice.Edit? then [PromptEdit(drafted)] else []);
        var committed := edited + [GitCommit(FinalMessage(sc.choice, drafted))];
        ClosingAfter(prelude, edited, [GitCommit(FinalMessage(sc.choice, drafted))]);
        ClosingAfter(prelude, committed, [GitPush(RemoteName, SessionBranch(sc), ["-u"])]);
      }
    }
  }

  /** Appending closing effects to a trace that extends `p` with closing
      effects keeps it so. */
  lemma ClosingAfter(p: seq<Effect>, t: seq<Effect>, more: seq<Effect>)
    requires |p| <= |t| && t[..|p|] == p
    requires forall i :: |p| <= i < |t| ==> IsClosing(t[i])
    requires forall i :: 0 <= i < |more| ==> IsClosing(more[i])
    ensures |p| <= |t + more| && (t + more)[..|p|] == p
    ensures forall i :: |p| <= i < |t + more| ==> IsClosing((t + more)[i])
  {
    assert (t + more)[..|p|] == t[..|p|];
  }

  /** With an override the classifier is never asked; without one it is asked
      exactly with the staged diff. */
  lemma ClassifierAskedIffNoOverride(sc: Scenario)
    requires sc.staged != ""
    ensures sc.options.typeOverride != "" ==>
              forall i :: 0 <= i < |Session(sc).trace| ==> !Session(sc).trace[i].AskClassification?
    ensures sc.options.typeOverride == "" ==> Session(sc).trace[2] == AskClassification(sc.staged)
  {
    var t := Session(sc).trace;
    var branch := SessionBranch(sc);
    var prelude := Prelude(sc, branch);
    SessionShape(sc);
    if sc.options.typeOverride != "" {
      assert prelude == Staging + BranchingEffects(sc.local, sc.remote, branch) + [AskCommitMessage(sc.staged)];
      assert forall i :: 0 <= i < |prelude| ==> !prelude[i].AskClassification?;
      forall i | 0 <= i < |t|
        ensures !t[i].AskClassification?
      {
        if i < |prelude| {
          assert t[i] == t[..|prelude|][i];
        }
      }
    } else {
      assert t[2] == t[..|prelude|][2];
    }
  }

  /** The prelude holds exactly one checkout: the branch switch. */
  lemma PreludeOneCheckout(sc: Scenario, branch: string)
    ensures CountCheckouts(Prelude(sc, branch)) == 1
  {
    var switched := Classified(sc) + BranchingEffects(sc.local, sc.remote, branch);
    assert CountCheckouts(Classified(sc)) == 0;
    CountCheckoutsAppend(Classified(sc), BranchingEffects(sc.local, sc.remote, branch));
    CountCheckoutsAppend(switched, [AskCommitMessage(sc.staged)]);
  }

  /** Every run that gets past the diff switches branch exactly once. */
  lemma ExactlyOneCheckout(sc: Scenario)
    ensures CountCheckouts(Session(sc).trace) == if sc.staged == "" then 0 else 1
  {
    if sc.staged != "" {
      SessionShape(sc);
      PreludeOneCheckout(sc, SessionBranch(sc));
      CountAfterPrefix(Session(sc).trace, Prelude(sc, SessionBranch(sc)));
    }
  }

  /** A trace that extends `p` with closing effects only has the checkouts of
      `p`. */
  lemma CountAfterPrefix(t: seq<Effect>, p: seq<Effect>)
    requires |p| <= |t| && t[..|p|] == p
    requires forall i :: |p| <= i < |t| ==> IsClosing(t[i])
    ensures CountCheckouts(t) == CountCheckouts(p)
  {
    var tail := t[|p|..];
    assert t == p + tail;
    assert forall i :: 0 <= i < |tail| ==> !IsCheckout(tail[i]) by {
      forall i | 0 <= i < |tail|
        ensures !IsCheckout(tail[i])
      {
        assert tail[i] == t[|p| + i];
      }
    }
    CountCheckoutsAppend(p, tail);
  }

  /** A failed message request ends the run with exit code 1, without a
      prompt, commit or push. */
  lemma GenerationFailureAborts(sc: Scenario)
    requires sc.staged != "" && sc.message.RequestFailed?
    ensures Session(sc).exitCode == 1
    ensures forall i :: 0 <= i < |Session(sc).trace| ==>
              !Session(sc).trace[i].GitCommit? && !Session(sc).trace[i].GitPush? && !Session(sc).trace[i].PromptAction?
  {
    assert Session(sc).trace == Prelude(sc, SessionBranch(sc));
    PreludeOpens(sc, SessionBranch(sc));
  }

  /** Cancelling ends the run with exit code 0 and neither commit nor push. */
  lemma CancelCommitsNothing(sc: Scenario)
    requires sc.staged != "" && sc.message.Answered? && sc.choice.Cancel?
    ensures Session(sc).exitCode == 0
    ensures forall i :: 0 <= i < |Session(sc).trace| ==>
              !Session(sc).trace[i].GitCommit? && !Session(sc).trace[i].GitPush?
  {
    var prelude := Prelude(sc, SessionBranch(sc));
    var t := Session(sc).trace;
    assert t == prelude + [PromptAction(SessionDraft(sc))];
    PreludeOpens(sc, SessionBranch(sc));
    forall i | 0 <= i < |t|
      ensures !t[i].GitCommit? && !t[i].GitPush?
    {
      if i < |prelude| {
        assert t[i] == prelude[i];
      }
    }
  }

  /** The prelude holds no closing effect. */
  lemma PreludeOpens(sc: Scenario, branch: string)
    ensures forall i :: 0 <= i < |Prelude(sc, branch)| ==> !IsClosing(Prelude(sc, branch)[i])
  {
  }

  /** Otherwise the run ends by committing the final message and then pushing
      the very branch it switched to, to origin with upstream tracking. */
  lemma CommitThenPush(sc: Scenario)
    requires sc.staged != "" && sc.message.Answered? && !sc.choice.Cancel?
    ensures var o := Session(sc);
            var resolved := ResolveType(sc.options.typeOverride, sc.staged, sc.reply);
            var branch := BranchName(resolved.kind, sc.options.name);
            var drafted := DraftMessage(resolved.gitmoji, GeneratedText(sc.message.content));
            && o.exitCode == 0
            && |o.trace| >= 6
            && o.trace[|o.trace| - 2] == GitCommit(FinalMessage(sc.choice, drafted))
            && o.trace[|o.trace| - 1] == GitPush("origin", branch, ["-u"])
            && exists k :: 0 <= k < |o.trace| - 2 && o.trace[k] == CheckoutEffect(ResolveBranch(sc.local, sc.remote, branch))
  {
    var o := Session(sc);
    var resolved := ResolveType(sc.options.typeOverride, sc.staged, sc.reply);
    var branch := BranchName(resolved.kind, sc.options.name);
    var k := if sc.options.typeOverride == "" then 5 else 4;
    assert o.trace[k] == CheckoutEffect(ResolveBranch(sc.local, sc.remote, branch));
  }

  /** A commit happens exactly when the diff is not empty, the message
      request answered and the user did not cancel. */
  lemma CommitIff(sc: Scenario)
    ensures (exists i :: 0 <= i < |Session(sc).trace| && Session(sc).trace[i].GitCommit?) <==>
              sc.staged != "" && sc.message.Answered? && !sc.choice.Cancel?
  {
    if sc.staged != "" && sc.message.Answered? && !sc.choice.Cancel? {
      CommitThenPush(sc);
    } else if sc.staged != "" && sc.message.Answered? {
      CancelCommitsNothing(sc);
    } else if sc.staged != "" {
      GenerationFailureAborts(sc);
    }
  }

  /** The exit code is 1 exactly for an empty diff or a failed message
      request, and 0 otherwise. */
  lemma ExitCodes(sc: Scenario)
    ensures Session(sc).exitCode == (if sc.staged == "" || sc.message.RequestFailed? then 1 else 0)
  {
  }

  /** Without an emoji the draft is the generated text itself, with no
      leading space. */
  lemma DraftWithoutEmoji(text: string)
    requires IsTrimmed(text)
    ensures DraftMessage("", text) == text
  {
    assert "" + " " + text == [' '] + text;
    TrimAfterSpaces([' '], text);
  }

  /** With an emoji the draft is the emoji, one space, and the text. */
  lemma DraftWithEmoji(gitmoji: string, text: string)
    requires gitmoji != [] && text != []
    requires IsTrimmed(gitmoji) && IsTrimmed(text)
    ensures DraftMessage(gitmoji, text) == gitmoji + " " + text
  {
    var s := gitmoji + " " + text;
    assert s[0] == gitmoji[0] && s[|s| - 1] == text[|text| - 1];
    TrimOfTrimmed(s);
  }

  /** The generated text of a reply without content is empty, and so is the
      draft when there is no emoji either. */
  lemma DraftOfEmptyReply()
    ensures DraftMessage("", GeneratedText(None)) == ""
  {
    DraftWithoutEmoji("");
  }

  // ---------------------------------------------------------------------------
  // The emoji of a reply without a string `gitmoji` (see the README's findings)
  // ---------------------------------------------------------------------------

  /** As written, an accepted reply whose `gitmoji` is absent or `null` leaves
      the emoji `undefined` or `null`, and the template literal writes that
      word, and a space, in front of the generated text. */
  lemma MissingGitmojiAsWritten(diff: string, kind: string, gitmoji: JsonField, text: string)
    requires kind in ValidNames && !gitmoji.Str?
    requires text != [] && IsTrimmed(text)
    ensures var raw := ClassifyAsWritten(diff, Parsed(Str(kind), gitmoji));
            && raw.kind.Name() == kind
            && DraftMessage(TemplateText(raw.gitmoji), text)
                 == (if gitmoji.Absent? then "undefined " else "null ") + text
  {
    var raw := ClassifyAsWritten(diff, Parsed(Str(kind), gitmoji));
    assert raw.gitmoji == gitmoji;
    var word := TemplateText(gitmoji);
    assert word[0] != ' ' && word[|word| - 1] != ' ';
    DraftWithEmoji(word, text);
    assert word + " " + text == (if gitmoji.Absent? then "undefined " else "null ") + text;
  }

  /** Corrected: an accepted reply whose `gitmoji` is absent or `null` drafts
      exactly the generated text. */
  lemma MissingGitmojiCorrected(diff: string, kind: string, gitmoji: JsonField, text: string)
    requires kind in ValidNames && !gitmoji.Str?
    requires IsTrimmed(text)
    ensures Classify(diff, Parsed(Str(kind), gitmoji)).kind.Name() == kind
    ensures DraftMessage(Classify(diff, Parsed(Str(kind), gitmoji)).gitmoji, text) == text
  {
    DraftWithoutEmoji(text);
  }
}
