# smartcommit — a Dafny model of one commit run

smartcommit is a command-line helper that automates one commit. It does the following, in order:

1. It stages everything and reads the staged diff. An empty diff stops the run with exit code 1.
2. It settles the commit type. This is the `--type` override when one is given. Otherwise it asks a language model, falling back to a keyword classifier.
3. It switches to the branch `<type>/<name>`. If the branch exists locally it checks it out. If only `origin` has it, it creates a tracking branch. Otherwise it creates a fresh branch.
4. It asks the model for a one-line commit message and prefixes the gitmoji.
5. It lets the user accept, edit or cancel. If the user does not cancel, it commits and pushes the branch to `origin` with upstream tracking.

This project models that core in Dafny, module by module:

| module | source | form |
|---|---|---|
| `Text` | the JavaScript string operations used | pure: ASCII `toLowerCase`, substring test, first-occurrence `replace`, `trim` with the ECMAScript whitespace set |
| `CommitTypes` | `src/cli.ts` | the closed `CommitType` union and a parser for its literals |
| `Ai` | `src/ai.ts` | pure: the keyword classifier, the acceptance of the model's classification reply, the clean-up of the generated message |
| `Effects` | — | the effect datatype (git calls, model requests, prompts) and the `EffectLog` class the steps append to |
| `Git` | `src/git.ts` | the pure three-way branch decision, and the git steps as methods appending to an `EffectLog` |
| `Orchestrator` | `src/index.ts` | `Session`, a function giving the effects and exit code of a run, and `Run`, the imperative run proved to produce exactly them |

The outside world is an input. A `Scenario` holds the staged diff, the model's two replies, the local and remote branch lists and the user's choice. A run is judged by the sequence of effects it issues and by its exit code.

## Model

| member | source | states |
|---|---|---|
| `CommitTypes.TypeOfString` | src/cli.ts:3 | a string is read as a type exactly when it is one of the five literals, and then as the type of that literal |
| `CommitTypes.TypeOfName` | src/cli.ts:3 | every type's literal reads back as that type, is one of the five and is not empty |
| `CommitTypes.NameInjective` | src/cli.ts:3 | distinct types have distinct literals |
| `Text.Lower` | src/ai.ts:11 | lower-casing keeps the length and maps every character through the ASCII case map |
| `Text.LowerOfLower` | src/ai.ts:11 | a string without upper-case letters is left unchanged |
| `Text.LowerIdempotent` | src/ai.ts:11 | lower-casing twice is lower-casing once |
| `Text.Contains` | src/ai.ts:12-16 | the test a literal regular-expression alternative performs: `ContainsIffOccurs` states it holds exactly when the word occurs at some position |
| `Text.ContainsIffOccurs` | src/ai.ts:12-16 | a regular expression made of a literal word matches exactly when the word occurs at some position |
| `Text.ContainsTransitive` | src/ai.ts:12-16 | a text containing a word contains every substring of it, so keywords also match inside longer words |
| `Text.IndexOf` | src/git.ts:21 | the position found is an occurrence, no earlier position is one, and none is found exactly when the pattern does not occur |
| `Text.ReplaceFirst` | src/git.ts:21 | `replace` with a string pattern: `ReplaceFirstAbsent`, `ReplaceFirstPrefix` and `ReplaceFirstSplit` state that it replaces the first occurrence only, keeps the rest verbatim, and returns a string without the pattern unchanged |
| `Text.ReplaceFirstAbsent` | src/git.ts:21 | `replace` leaves a string without the pattern unchanged |
| `Text.ReplaceFirstPrefix` | src/git.ts:21 | removing a leading "origin/" (any prefix) gives the rest of the string |
| `Text.ReplaceFirstSplit` | src/git.ts:21 | only the first occurrence is replaced; the text before and after it is kept verbatim |
| `Text.TrimStart` | src/ai.ts:85 | the leading half of `trim`; `TrimStartSpec` states it drops exactly the longest all-space prefix |
| `Text.TrimEnd` | src/ai.ts:85 | the trailing half of `trim`; `TrimEndSpec` states it drops exactly the longest all-space suffix |
| `Text.Trim` | src/ai.ts:85 | `String.prototype.trim`; `TrimIsTrimmed` and `TrimIsSlice` together determine its result: the slice of the input with all surrounding spaces removed; `TrimOfTrimmed`, `TrimIdempotent`, `TrimAfterSpaces` follow |
| `Text.TrimStartSpec` | src/ai.ts:85 | the start is trimmed by dropping an all-space prefix, leaving no leading space |
| `Text.TrimEndSpec` | src/ai.ts:85 | the end is trimmed by dropping an all-space suffix, leaving no trailing space |
| `Text.TrimIsTrimmed` | src/ai.ts:85 | `trim` leaves neither a leading nor a trailing space |
| `Text.TrimIsSlice` | src/ai.ts:85 | `trim` returns a contiguous slice of its input with only spaces removed on both sides |
| `Text.TrimOfTrimmed` | src/index.ts:64 | `trim` leaves a string that has no space at either end unchanged |
| `Text.TrimIdempotent` | src/index.ts:64 | trimming twice is trimming once |
| `Text.TrimAfterSpaces` | src/index.ts:64 | leading spaces in front of a trimmed string are all removed, and nothing else is |
| `Ai.MentionsAny` | src/ai.ts:12-16 | one `/w1\|w2\|…/.test(lower)`; `MentionsAnyIff` states it matches exactly when one of the words occurs |
| `Ai.DetectTypeKeywords` | src/ai.ts:10-18 | `detectTypeKeywords`, as the guarded chain the code writes; `DetectFollowsRules` proves it is the five-rule table read top-down with `chore` as default, `DetectPriority` and `DetectDefault` state which rule decides, `DetectFixIff` and `DetectHotfixIff` the first and last rules |
| `Ai.MentionsAnyIff` | src/ai.ts:12-16 | an alternation of words matches exactly when one of its words occurs |
| `Ai.MentionsWord` | src/ai.ts:12-16 | any listed word that occurs makes the alternation match |
| `Ai.FirstMatchSelects` | src/ai.ts:12-17 | in a first-match table, the first rule that fires decides |
| `Ai.FirstMatchDefault` | src/ai.ts:17 | when no rule fires the default is returned |
| `Ai.DetectFollowsRules` | src/ai.ts:10-18 | `detectTypeKeywords` is the five-rule table read top-down over the lower-cased diff, with `chore` as the default |
| `Ai.DetectPriority` | src/ai.ts:12-16 | a rule decides exactly when it fires and no earlier rule does |
| `Ai.DetectDefault` | src/ai.ts:17 | a diff with no keyword is a `chore` |
| `Ai.DetectFixIff` | src/ai.ts:12 | the result is `fix` if and only if "bug", "error" or "issue" occurs |
| `Ai.DetectHotfixIff` | src/ai.ts:16 | the result is `hotfix` if and only if a hotfix keyword occurs and no keyword of the four earlier rules does |
| `Ai.DetectBugBeatsAdd` | src/ai.ts:12-13 | "bug" together with "add" gives `fix`, not `feature` |
| `Ai.DetectCaseInsensitive` | src/ai.ts:11 | lower-casing the diff first does not change the result |
| `Ai.DetectAddressIsFeature` | src/ai.ts:13 | "address" contains "add", so without a fix keyword the diff is a `feature` |
| `Ai.DetectDecisionIsChore` | src/ai.ts:15 | "decision" contains "ci", so without an earlier keyword the diff is a `chore` |
| `Ai.ValidType` | src/ai.ts:51-53 | a reply's type is accepted exactly when it is a string among the five literals, and then it is that literal's type |
| `Ai.GitmojiText` | src/ai.ts:54 | a string `gitmoji` is kept as it is; one that is not a string yields no emoji (the corrected behaviour, see Left out) |
| `Ai.Classify` | src/ai.ts:26-66 | `detectCommitTypeAndGitmoji` over the reply, CORRECTED: a `gitmoji` that is not a string yields no emoji (see Findings); `ClassifyAccepts`, `ClassifyFallsBack`, `ClassifyEmojiFromReply` and `ClassifyIsValid` state its behaviour; this is the classifier `Session` and `Run` use |
| `Ai.ClassifyAsWritten` | src/ai.ts:51-65 | `detectCommitTypeAndGitmoji` AS WRITTEN: an accepted reply's `gitmoji` is passed on as whatever JSON value it was; `ClassifyCorrectsOnlyGitmoji` states it agrees with `Classify` except for that emoji, `MissingGitmojiAsWritten` what it drafts |
| `Ai.TemplateText` | src/index.ts:64 | how `${gitmoji}` renders the passed-on value: `undefined`, `null`, or the string itself; used by `MissingGitmojiAsWritten` |
| `Ai.ClassifyAccepts` | src/ai.ts:51-54 | a reply with a valid type is taken as it is, with its emoji |
| `Ai.ClassifyFallsBack` | src/ai.ts:55-66 | a failed request, a failed parse or an invalid type gives the keyword classifier's type and an empty emoji |
| `Ai.ClassifyEmojiFromReply` | src/ai.ts:51-65 | a non-empty emoji comes only from a reply whose type was accepted, and both come from that reply |
| `Ai.ClassifyIsValid` | src/ai.ts:26-29 | the classification's type is always one of the five literals |
| `Ai.ClassifyCorrectsOnlyGitmoji` | src/ai.ts:54 | the corrected classifier agrees with the code as written on the type, and on the emoji whenever the reply's `gitmoji` is a string |
| `Ai.GeneratedText` | src/ai.ts:85 | the message has no space at either end; it is empty when the content is `null`; otherwise it is the content with only surrounding spaces removed, and an already trimmed content is kept as it is |
| `Git.StripRemotePrefix` | src/git.ts:21 | `b.replace("origin/", "")`; `ReplaceFirstPrefix`, `OriginEntryExists` and `StripWithoutPrefix` state what it makes of entries with and without the prefix |
| `Git.ExistsLocal` | src/git.ts:16-17 | `localBranches.all.includes(branchName)`; `ResolveLocalWins` and `ResolveCases` state that it decides first |
| `Git.ExistsRemote` | src/git.ts:19-22 | the `some` over the remote list; `ExistsRemoteIff` states it holds exactly when one stripped entry equals the name |
| `Git.ExistsRemoteIff` | src/git.ts:19-22 | the remote check holds exactly when some listed entry, with its first "origin/" removed, equals the name |
| `Git.OriginEntryExists` | src/git.ts:19-22 | an entry "origin/<name>" makes `<name>` exist on the remote |
| `Git.StripWithoutPrefix` | src/git.ts:21 | an entry without "origin/" is compared as it stands |
| `Git.ResolveBranch` | src/git.ts:24-37 | the action chosen always concerns the requested branch |
| `Git.CheckoutEffect` | src/git.ts:28-36 | each of the three actions is carried out by one branch switch |
| `Git.ResolveLocalWins` | src/git.ts:24-28 | a branch present locally is checked out plainly, whatever the remote list holds |
| `Git.ResolveTracksRemote` | src/git.ts:29-33 | a branch only the remote has is created tracking `origin/<name>` |
| `Git.ResolveCreatesFresh` | src/git.ts:34-36 | a branch nobody has is created as a new local branch |
| `Git.ResolveCases` | src/git.ts:24-37 | each of the three actions is chosen exactly under its condition |
| `Git.BranchingEffects` | src/git.ts:15-38 | branching issues exactly one branch switch |
| `Effects.EffectLog.Record` | src/index.ts:22-101 | each call the run issues is appended to the log, after everything issued before it, and nothing else changes |
| `Git.AddStagedChanges` | src/git.ts:7-9 | the log gains `git add .` and nothing else |
| `Git.GetStagedDiff` | src/git.ts:11-13 | the diff returned is what git printed; the log gains `git diff --staged` |
| `Git.HandleBranching` | src/git.ts:15-38 | the log gains the two branch listings and the one switch `ResolveBranch` chooses |
| `Git.CommitChanges` | src/git.ts:40-42 | the log gains a commit of exactly the given message |
| `Git.PushChanges` | src/git.ts:44-46 | the log gains a push of the branch to `origin` with `-u` |
| `Orchestrator.ResolveType` | src/index.ts:36-55 | the override, or the classifier's type and emoji, with the `chore` default; `ResolveTypeSpec` states the resolved type is never empty, an override is taken as given with no emoji, and otherwise the classifier's pair is used |
| `Orchestrator.BranchName` | src/index.ts:57 | the branch name is the type, a slash and the name, recoverable from both sides |
| `Orchestrator.DraftMessage` | src/index.ts:64 | `${gitmoji} ${commitMessageAI}`.trim(); `DraftWithoutEmoji` and `DraftWithEmoji` state it is the text alone without an emoji and emoji, space, text with one |
| `Orchestrator.FinalMessage` | src/index.ts:77-92 | the edited text after an edit, the draft otherwise; `CommitThenPush` states this is what is committed |
| `Orchestrator.Prelude` | src/index.ts:27-63 | the effects up to the message request; `PreludeOneCheckout` and `PreludeOpens` state it holds exactly one branch switch and no prompt, commit or push |
| `Orchestrator.Session` | src/index.ts:22-106 | the effects and exit code of a run (with the corrected classifier); `Run` is proved to produce exactly them, and `EmptyDiffAborts`, `ClassifierAskedIffNoOverride`, `ExactlyOneCheckout`, `GenerationFailureAborts`, `CancelCommitsNothing`, `CommitThenPush`, `CommitIff` and `ExitCodes` state its properties |
| `Orchestrator.Run` | src/index.ts:22-106 | the run issues exactly the effects, and exits with exactly the code, that `Session` gives for the scenario (with the corrected classifier, see Left out) |
| `Orchestrator.ResolveTypeSpec` | src/index.ts:36-55 | the resolved type is never empty; an override is used as it is, with no emoji; otherwise the classifier's type and emoji are used |
| `Orchestrator.EmptyDiffAborts` | src/index.ts:30-34 | an empty diff exits 1 after staging and reading the diff, with no branch switch |
| `Orchestrator.SessionShape` | src/index.ts:28-98 | a run past the diff issues the staging, classification, branching and message-request effects first, and only prompts, commit and push after them |
| `Orchestrator.ClassifierAskedIffNoOverride` | src/index.ts:39-51 | with an override the model is never asked to classify; without one it is asked, third, with the staged diff |
| `Orchestrator.PreludeOneCheckout` | src/index.ts:28-63 | the steps up to the message request switch branch exactly once |
| `Orchestrator.ExactlyOneCheckout` | src/index.ts:57-59 | a run switches branch exactly once when the diff is non-empty, never otherwise |
| `Orchestrator.PreludeOpens` | src/index.ts:28-63 | no prompt, commit or push happens before the message request |
| `Orchestrator.GenerationFailureAborts` | src/index.ts:103-106 | a failed message request exits 1 with no prompt, commit or push |
| `Orchestrator.CancelCommitsNothing` | src/index.ts:79-82 | cancelling exits 0 with neither commit nor push |
| `Orchestrator.CommitThenPush` | src/index.ts:94-98 | otherwise the run ends by committing the final message and then pushing, to `origin` with `-u`, the branch it switched to earlier |
| `Orchestrator.CommitIff` | src/index.ts:79-95 | a commit happens if and only if the diff is non-empty, the message request was answered and the user did not cancel |
| `Orchestrator.ExitCodes` | src/index.ts:31-106 | the exit code is 1 exactly for an empty diff or a failed message request, and 0 otherwise |
| `Orchestrator.DraftWithoutEmoji` | src/index.ts:64 | without an emoji the draft is the generated text itself, with no leading space |
| `Orchestrator.DraftWithEmoji` | src/index.ts:64 | with an emoji the draft is the emoji, one space and the text |
| `Orchestrator.DraftOfEmptyReply` | src/index.ts:63-64 | a `null` model answer and no emoji give an empty draft |
| `Orchestrator.MissingGitmojiAsWritten` | src/index.ts:64 | as written, an accepted reply without a string `gitmoji` drafts "undefined " or "null " in front of the text |
| `Orchestrator.MissingGitmojiCorrected` | src/index.ts:64 | corrected, such a reply keeps its type and drafts exactly the generated text |

## Left out

- `Orchestrator.Run`: is proved against `Session`, which uses the corrected classifier. For an accepted classification reply whose `gitmoji` is absent or `null`, the model drafts and commits the generated text alone, while the code writes "undefined " or "null " in front of it (see Findings). In every other case the two agree, as `Ai.ClassifyCorrectsOnlyGitmoji` states.
- `Orchestrator.Session`: same deviation as `Orchestrator.Run`, for the same replies.
- `Ai.Classify`: the corrected classifier; it differs from the code as written (`Ai.ClassifyAsWritten`) only for an accepted reply whose `gitmoji` is not a string.
- `Ai.GitmojiText`: gives "" for an absent or `null` `gitmoji`, where src/ai.ts:54 passes the value on unchanged; the code's behaviour is `Ai.TemplateText` of `Ai.ClassifyAsWritten`.
- `Text.Lower`: lower-cases the ASCII letters only. `toLowerCase` also maps the other Unicode upper-case letters. Two of them lower-case to an ASCII keyword letter: U+0130 becomes "i̇" and U+212A (the Kelvin sign) becomes "k". These are not modelled.
- Non-string JSON values other than `null` for `type` or `gitmoji` (numbers, booleans, objects) are not represented. A non-string `type` never passes the validity check, so it behaves like an absent one. A non-string `gitmoji` other than `null` is not covered.
- The language-model requests are foreign calls. Their prompts, model name and transport are not modelled. Each request is an effect carrying the diff, and its outcome is an input (`Reply`, `MessageReply`).
- `JSON.parse` is not modelled. A reply is either a failure (network error, a parse error, or a `null` value whose `type` is read) or the two members of the parsed object.
- Failures of git calls are not modelled: every git step is assumed to succeed. In the code a rejected git call reaches the top-level handler and exits 1.
- Interrupting a prompt (enquirer rejecting) is not modelled. The choice is always accept, edit or cancel.
- What `git add`, `commit`, `checkout` and `push` do to the repository is not modelled. The model records the calls, and the branch lists are inputs.
- The `--type` value is not validated. The documented behaviour restricts it to the five types, but `parseArgs` in src/cli.ts passes any string on. The model follows the code: `Options.typeOverride` is any string, with "" standing for an absent option.
- `parseArgs` (option parsing and the required `--name`), `loadConfig` in src/config.ts (a missing API key exits 1 before any effect) and `getAIClient` are not part of this model.
- cli.js is an older standalone script that is not imported by `src/index.ts`. It is not part of this model.
- Console output is not an effect and is not modelled.
- The `"chore"` default at src/index.ts:53-55 is modelled, but it can never take effect: `Orchestrator.ResolveTypeSpec` proves the type is already non-empty there.

## Findings

| source | as written | input that shows it | evidently intended | confidence | as-written member | corrected member |
|---|---|---|---|---|---|---|
| src/ai.ts:54 | an accepted reply's `gitmoji` member is passed on as parsed, and src/index.ts:64 interpolates it into the message | a classification reply `{"type":"fix"}` (no `gitmoji`) with generated text "fix: handle empty input" drafts "undefined fix: handle empty input"; `"gitmoji": null` drafts "null fix: handle empty input" | a reply without a string emoji drafts the generated text alone, as the fallback paths do | not executed | `Orchestrator.MissingGitmojiAsWritten` | `Orchestrator.MissingGitmojiCorrected` |

The rest of the model uses the corrected classifier `Ai.Classify`. The code as written is `Ai.ClassifyAsWritten` and `Ai.TemplateText`.
