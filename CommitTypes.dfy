/**
 * The closed set of commit types (`CommitType` in src/cli.ts): the prefix of
 * every branch the helper creates and the classification it asks for.
 */
module CommitTypes {
  import opened Wrappers

  datatype CommitType = Feature | Fix | Chore | Refactor | Hotfix
  {
    /** The string literal the type stands for. */
    function Name(): (s: string)
    {
      match this
      case Feature => "feature"
      case Fix => "fix"
      case Chore => "chore"
      case Refactor => "refactor"
      case Hotfix => "hotfix"
    }
  }

  /** The literals, in the order the validity check lists them. */
  const ValidNames: seq<string> := ["feature", "fix", "chore", "refactor", "hotfix"]

  /** Reads a type from its literal; any other string is not a type. */
  function TypeOfString(s: string): (r: Option<CommitType>)
    ensures r.Some? <==> s in ValidNames
    ensures r.Some? ==> r.value.Name() == s
  {
    if s == "feature" then Some(Feature)
    else if s == "fix" then Some(Fix)
    else if s == "chore" then Some(Chore)
    else if s == "refactor" then Some(Refactor)
    else if s == "hotfix" then Some(Hotfix)
    else None
  }

  /** Every type's literal is read back as that type. */
  lemma TypeOfName(t: CommitType)
    ensures TypeOfString(t.Name()) == Some(t)
    ensures t.Name() in ValidNames && t.Name() != ""
  {
  }

  /** Distinct types have distinct literals. */
  lemma NameInjective(t: CommitType, u: CommitType)
    requires t.Name() == u.Name()
    ensures t == u
  {
    TypeOfName(t);
    TypeOfName(u);
  }
}
