/**
 * The decision logic of src/ai.ts: the keyword fallback classifier, the
 * acceptance check on the language model's classification reply, and the
 * clean-up of the generated commit message. The requests themselves are
 * foreign calls; their replies are inputs here.
 */
module Ai {
  import opened Wrappers
  import opened Text
  import opened CommitTypes

  // ---------------------------------------------------------------------------
  // Keyword fallback
  // ---------------------------------------------------------------------------

  const FixWords: seq<string> := ["bug", "error", "issue"]
  const FeatureWords: seq<string> := ["add", "new", "implement"]
  const RefactorWords: seq<string> := ["refactor", "rename", "reorganize"]
  const ChoreWords: seq<string> := ["update deps", "docs", "ci", "workflow"]
  const HotfixWords: seq<string> := ["critical", "patch", "emergency"]

  /** `/w0|w1|...|wn/.test(text)`: some alternative occurs somewhere in `text`. */
  predicate MentionsAny(text: string, words: seq<string>)
    decreases |words|
  {
    words != [] && (Contains(text, words[0]) || MentionsAny(text, words[1..]))
  }

  /** The alternation matches exactly when one of its words is a substring. */
  lemma {:induction false} MentionsAnyIff(text: string, words: seq<string>)
    ensures MentionsAny(text, words) <==> exists i :: 0 <= i < |words| && Contains(text, words[i])
    decreases |words|
  {
    if words != [] {
      MentionsAnyIff(text, words[1..]);
      assert forall i :: 1 <= i < |words| ==> words[i] == words[1..][i - 1];
    }
  }

  /** A word of the list that occurs in `text` makes the alternation match. */
  lemma MentionsWord(text: string, words: seq<string>, i: nat)
    requires i < |words| && Contains(text, words[i])
    ensures MentionsAny(text, words)
  {
    MentionsAnyIff(text, words);
  }

  /** `detectTypeKeywords`: case-insensitive, first matching rule wins,
      `chore` when nothing matches. */
  function DetectTypeKeywords(diff: string): (t: CommitType)
  {
    var lower := Lower(diff);
    if MentionsAny(lower, FixWords) then Fix
    else if MentionsAny(lower, FeatureWords) then Feature
    else if MentionsAny(lower, RefactorWords) then Refactor
    else if MentionsAny(lower, ChoreWords) then Chore
    else if MentionsAny(lower, HotfixWords) then Hotfix
    else Chore
  }

  /** The rules as a table: a rule fires when one of its words occurs. */
  datatype Rule = Rule(words: seq<string>, kind: CommitType)

  const Rules: seq<Rule> := [
    Rule(FixWords, Fix),
    Rule(FeatureWords, Feature),
    Rule(RefactorWords, Refactor),
    Rule(ChoreWords, Chore),
    Rule(HotfixWords, Hotfix)
  ]

  predicate Fires(rule: Rule, text: string)
  {
    MentionsAny(text, rule.words)
  }

  /** A first-match-wins rule table with a default. */
  function FirstMatch(rules: seq<Rule>, text: string, default: CommitType): (t: CommitType)
    decreases |rules|
  {
    if rules == [] then default
    else if Fires(rules[0], text) then rules[0].kind
    else FirstMatch(rules[1..], text, default)
  }

  /** The first rule that fires decides, whatever later rules say. */
  lemma {:induction false} FirstMatchSelects(rules: seq<Rule>, text: string, default: CommitType, k: nat)
    requires k < |rules| && Fires(rules[k], text)
    requires forall j :: 0 <= j < k ==> !Fires(rules[j], text)
    ensures FirstMatch(rules, text, default) == rules[k].kind
    decreases k
  {
    if k > 0 {
      assert !Fires(rules[0], text);
      assert forall j :: 0 <= j < k - 1 ==> rules[1..][j] == rules[j + 1];
      FirstMatchSelects(rules[1..], text, default, k - 1);
    }
  }

  /** When no rule fires, the default is returned. */
  lemma {:induction false} FirstMatchDefault(rules: seq<Rule>, text: string, default: CommitType)
    requires forall j :: 0 <= j < |rules| ==> !Fires(rules[j], text)
    ensures FirstMatch(rules, text, default) == default
    decreases |rules|
  {
    if rules != [] {
      assert forall j :: 0 <= j < |rules| - 1 ==> rules[1..][j] == rules[j + 1];
      FirstMatchDefault(rules[1..], text, default);
    }
  }

  /** The chain of guarded returns is the rule table read top-down with
      `chore` as the default. */
  lemma DetectFollowsRules(diff: string)
    ensures DetectTypeKeywords(diff) == FirstMatch(Rules, Lower(diff), Chore)
  {
    var lower := Lower(diff);
    assert Rules[5..] == [];
    FirstMatchStep(Rules, lower, Chore, 4);
    FirstMatchStep(Rules, lower, Chore, 3);
    FirstMatchStep(Rules, lower, Chore, 2);
    FirstMatchStep(Rules, lower, Chore, 1);
    FirstMatchStep(Rules, lower, Chore, 0);
    assert Rules[0..] == Rules;
  }

  lemma FirstMatchStep(rules: seq<Rule>, text: string, default: CommitType, k: nat)
    requires k < |rules|
    ensures FirstMatch(rules[k..], text, default) ==
              if Fires(rules[k], text) then rules[k].kind else FirstMatch(rules[k + 1..], text, default)
  {
    assert rules[k..][1..] == rules[k + 1..];
  }

  /** Priority: a later rule decides only when no earlier rule fires. */
  lemma DetectPriority(diff: string, k: nat)
    requires k < |Rules| && Fires(Rules[k], Lower(diff))
    requires forall j :: 0 <= j < k ==> !Fires(Rules[j], Lower(diff))
    ensures DetectTypeKeywords(diff) == Rules[k].kind
  {
    DetectFollowsRules(diff);
    FirstMatchSelects(Rules, Lower(diff), Chore, k);
  }

  /** No keyword at all gives `chore`. */
  lemma DetectDefault(diff: string)
    requires forall j :: 0 <= j < |Rules| ==> !Fires(Rules[j], Lower(diff))
    ensures DetectTypeKeywords(diff) == Chore
  {
    DetectFollowsRules(diff);
    FirstMatchDefault(Rules, Lower(diff), Chore);
  }

  /** A fix keyword anywhere decides `fix`, whatever else occurs; and `fix`
      is returned only then. */
  lemma DetectFixIff(diff: string)
    ensures DetectTypeKeywords(diff) == Fix <==> MentionsAny(Lower(diff), FixWords)
  {
  }

  /** `hotfix` is returned exactly when a hotfix keyword occurs and no keyword
      of the four earlier rules does. */
  lemma DetectHotfixIff(diff: string)
    ensures DetectTypeKeywords(diff) == Hotfix <==>
              (forall j :: 0 <= j < 4 ==> !Fires(Rules[j], Lower(diff))) && Fires(Rules[4], Lower(diff))
  {
    var lower := Lower(diff);
    assert Rules[0].words == FixWords && Rules[1].words == FeatureWords && Rules[2].words == RefactorWords
      && Rules[3].words == ChoreWords && Rules[4].words == HotfixWords;
    if (forall j :: 0 <= j < 4 ==> !Fires(Rules[j], lower)) && Fires(Rules[4], lower) {
      DetectPriority(diff, 4);
    }
  }

  /** "bug" next to "add": rule 1 wins over rule 2. */
  lemma DetectBugBeatsAdd(diff: string)
    requires Contains(Lower(diff), "bug") && Contains(Lower(diff), "add")
    ensures DetectTypeKeywords(diff) == Fix
  {
    MentionsWord(Lower(diff), FixWords, 0);
  }

  /** The classifier ignores case: lower-casing the diff first changes nothing. */
  lemma DetectCaseInsensitive(diff: string)
    ensures DetectTypeKeywords(diff) == DetectTypeKeywords(Lower(diff))
  {
    LowerIdempotent(diff);
  }

  /** Keywords match inside words: a diff mentioning "address" (which
      contains "add") and no fix keyword is a feature. */
  lemma DetectAddressIsFeature(diff: string)
    requires Contains(Lower(diff), "address") && !MentionsAny(Lower(diff), FixWords)
    ensures DetectTypeKeywords(diff) == Feature
  {
    ContainsInfix("", "add", "ress");
    ContainsTransitive(Lower(diff), "address", "add");
    MentionsWord(Lower(diff), FeatureWords, 0);
  }

  /** Keywords match inside words: "decision" contains "ci", so without an
      earlier rule firing the diff is a chore. */
  lemma DetectDecisionIsChore(diff: string)
    requires Contains(Lower(diff), "decision")
    requires forall j :: 0 <= j < 3 ==> !Fires(Rules[j], Lower(diff))
    ensures DetectTypeKeywords(diff) == Chore
  {
    ContainsInfix("de", "ci", "sion");
    ContainsTransitive(Lower(diff), "decision", "ci");
    MentionsWord(Lower(diff), ChoreWords, 2);
    DetectPriority(diff, 3);
  }

  // ---------------------------------------------------------------------------
  // Classification by the language model, with fallback
  // ---------------------------------------------------------------------------

  /** A member of the JSON object the model returned: absent, `null`, or a
      string. */
  datatype JsonField = Absent | Null | Str(s: string)

  /** What became of the classification request: the call, the reading of
      the content or `JSON.parse` threw (a `null` reply throws when its
      `type` is read), or an object was parsed. */
  datatype Reply = Failed | Parsed(typeField: JsonField, gitmoji: JsonField)

  /** The classification handed back to the caller. */
  datatype Classification = Classification(kind: CommitType, gitmoji: string)

  /** The `includes` check: only one of the five literals is a type. */
  function ValidType(f: JsonField): (r: Option<CommitType>)
    ensures r.Some? <==> f.Str? && f.s in ValidNames
    ensures r.Some? ==> f == Str(r.value.Name())
  {
    if f.Str? then TypeOfString(f.s) else None
  }

  /** The emoji text kept from a reply; a member that is not a string gives
      no emoji. */
  function GitmojiText(f: JsonField): (s: string)
    ensures f.Str? ==> s == f.s
    ensures !f.Str? ==> s == ""
  {
    if f.Str? then f.s else ""
  }

  /** `detectCommitTypeAndGitmoji` over the reply: the model's answer when
      its type is one of the five, the keyword fallback with no emoji
      otherwise. */
  function Classify(diff: string, reply: Reply): (c: Classification)
  {
    match reply
    case Failed => Classification(DetectTypeKeywords(diff), "")
    case Parsed(typeField, gitmoji) =>
      match ValidType(typeField)
      case Some(t) => Classification(t, GitmojiText(gitmoji))
      case None => Classification(DetectTypeKeywords(diff), "")
  }

  /** A reply with a valid type is taken as it is. */
  lemma ClassifyAccepts(diff: string, kind: string, gitmoji: string)
    requires kind in ValidNames
    ensures Classify(diff, Parsed(Str(kind), Str(gitmoji))).kind.Name() == kind
    ensures Classify(diff, Parsed(Str(kind), Str(gitmoji))).gitmoji == gitmoji
  {
  }

  /** A failed call, a failed parse or an invalid type yields the keyword
      fallback with an empty emoji; classification never fails. */
  lemma ClassifyFallsBack(diff: string, reply: Reply)
    requires reply.Failed? || ValidType(reply.typeField).None?
    ensures Classify(diff, reply) == Classification(DetectTypeKeywords(diff), "")
  {
  }

  /** An emoji survives only from a reply whose type was accepted, and then
      both come from the reply. */
  lemma ClassifyEmojiFromReply(diff: string, reply: Reply)
    ensures var c := Classify(diff, reply);
            c.gitmoji != "" ==>
              reply.Parsed? && reply.typeField == Str(c.kind.Name()) && reply.gitmoji == Str(c.gitmoji)
  {
  }

  /** The classification's type is always one of the five literals. */
  lemma ClassifyIsValid(diff: string, reply: Reply)
    ensures Classify(diff, reply).kind.Name() in ValidNames
    ensures Classify(diff, reply).kind.Name() != ""
  {
    TypeOfName(Classify(diff, reply).kind);
  }

  // ---------------------------------------------------------------------------
  // The classification as the source writes it (see the README's findings)
  // ---------------------------------------------------------------------------

  /** The result as the source builds it: the `gitmoji` member is passed on
      as whatever JSON value it was, so it may be `undefined` or `null`. */
  datatype RawClassification = RawClassification(kind: CommitType, gitmoji: JsonField)

  function ClassifyAsWritten(diff: string, reply: Reply): (c: RawClassification)
  {
    match reply
    case Failed => RawClassification(DetectTypeKeywords(diff), Str(""))
    case Parsed(typeField, gitmoji) =>
      match ValidType(typeField)
      case Some(t) => RawClassification(t, gitmoji)
      case None => RawClassification(DetectTypeKeywords(diff), Str(""))
  }

  /** How a template literal `${v}` renders the member. */
  function TemplateText(f: JsonField): (s: string)
  {
    match f
    case Absent => "undefined"
    case Null => "null"
    case Str(s) => s
  }

  /** The corrected classifier agrees with the source except for the emoji
      of a reply whose `gitmoji` member is not a string. */
  lemma ClassifyCorrectsOnlyGitmoji(diff: string, reply: Reply)
    ensures Classify(diff, reply).kind == ClassifyAsWritten(diff, reply).kind
    ensures ClassifyAsWritten(diff, reply).gitmoji.Str? ==>
              Classify(diff, reply).gitmoji == TemplateText(ClassifyAsWritten(diff, reply).gitmoji)
  {
  }

  // ---------------------------------------------------------------------------
  // Message generation
  // ---------------------------------------------------------------------------

  /** What became of the message request: the call threw, or it answered
      with a content that may be `null`. */
  datatype MessageReply = RequestFailed | Answered(content: Option<string>)

  /** `content?.trim() || ""` in `generateCommitMessage`. */
  function GeneratedText(content: Option<string>): (m: string)
    ensures IsTrimmed(m)
    ensures content.None? ==> m == ""
    ensures content.Some? ==>
              exists i, j :: 0 <= i <= j <= |content.value| && m == content.value[i..j]
                && AllSpace(content.value[..i]) && AllSpace(content.value[j..])
    ensures content.Some? && IsTrimmed(content.value) ==> m == content.value
  {
    match content
    case None => ""
    case Some(text) =>
      TrimIsTrimmed(text);
      TrimIsSlice(text);
      Trim(text)
  }
}
