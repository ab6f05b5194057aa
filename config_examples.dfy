/** The validator's example configurations. */
module ConfigExamples {
  import opened Wrappers
  import opened Strings
  import opened Config

  function Sample(rules: seq<ExpansionRule>, snippets: seq<MenuSnippet>): AppConfig {
    AppConfig(rules, snippets, map[], Immediate, None)
  }

  lemma RejectsEmptyExpansions()
    ensures ValidateWith(Sample([], []), []) == Fail(NoExpansions)
  {
  }

  lemma RejectsDuplicateTriggers()
    ensures ValidateWith(Sample([ExpansionRule(";a", "alpha"), ExpansionRule(";a", "again")], []), [])
         == Fail(DuplicateTrigger(";a"))
  {
    var rules := [ExpansionRule(";a", "alpha"), ExpansionRule(";a", "again")];
    assert rules[1..] == [ExpansionRule(";a", "again")];
  }

  lemma RejectsBlankSnippetTitle()
    ensures ValidateWith(Sample([ExpansionRule(";a", "alpha")], [MenuSnippet(" ", "hello")]), [])
         == Fail(EmptySnippetTitle)
  {
    TrimEmptyIffAllWhitespace(" ");
    assert [ExpansionRule(";a", "alpha")][1..] == [];
  }

  lemma RejectsDuplicateSnippetTitles()
    ensures ValidateWith(Sample([ExpansionRule(";a", "alpha")],
                                [MenuSnippet("Email", "a@example.com"), MenuSnippet("Email", "b@example.com")]), [])
         == Fail(DuplicateSnippetTitle("Email"))
  {
    var snippets := [MenuSnippet("Email", "a@example.com"), MenuSnippet("Email", "b@example.com")];
    TrimIdentity("Email");
    assert [ExpansionRule(";a", "alpha")][1..] == [];
    assert snippets[1..] == [MenuSnippet("Email", "b@example.com")];
  }

  lemma DefaultBoundaryWhenUnset()
    ensures BoundaryChars(Sample([ExpansionRule(";a", "alpha")], [])) == " \t\n.,;:!?)]}>'\""
  {
  }
}
