/** The parser's example inputs, worked through the general lemmas. */
module ExpansionExamples {
  import opened Wrappers
  import opened Strings
  import opened Keys
  import opened Expansion

  /** Input without a '{' opens no macro. */
  lemma NoBraceNoMacro(s: string)
    requires '{' !in s
    ensures NoMacroFrom(s, 0)
  {
    forall j | 0 <= j < |s| ensures !OpensMacro(s, j) {
      assert s[j] in s;
    }
  }

  /** Plain text is one `Text` action. */
  lemma PlainExample()
    ensures Parse("hello world") == Ok([Text("hello world")])
  {
    NoBraceNoMacro("hello world");
    ParsePlainText("hello world");
  }

  const MixedActions: seq<OutputAction> := [Text("Hi"), Key(Enter), SleepMs(50), Text("there")]

  lemma SpellEnter()
    ensures MacroSpelling(Key(Enter)) == "KEY:ENTER"
  {
  }

  lemma SpellSleep()
    ensures MacroSpelling(SleepMs(50)) == "SLEEP_MS:50"
  {
    assert DecimalString(50) == "50";
  }

  lemma MixedSpellingTail()
    ensures ("{{" + "SLEEP_MS:50" + "}}") + "there" == "{{SLEEP_MS:50}}there"
    ensures ("{{" + "KEY:ENTER" + "}}") + "{{SLEEP_MS:50}}there" == "{{KEY:ENTER}}{{SLEEP_MS:50}}there"
  {
  }

  lemma MixedSpellingHead()
    ensures "Hi" + "{{KEY:ENTER}}{{SLEEP_MS:50}}there" == "Hi{{KEY:ENTER}}{{SLEEP_MS:50}}there"
  {
  }

  lemma MixedSpelling()
    ensures Render(MixedActions) == "Hi{{KEY:ENTER}}{{SLEEP_MS:50}}there"
  {
    var acts := MixedActions;
    var r3, r2, r1 := Render(acts[3..]), Render(acts[2..]), Render(acts[1..]);
    MixedSpellingTail();
    MixedSpellingHead();
    RenderWithCons(MacroSpelling, acts[3..]);
    assert acts[3..][1..] == [];
    assert r3 == "there";
    RenderWithCons(MacroSpelling, acts[2..]);
    assert acts[2..][1..] == acts[3..];
    SpellSleep();
    assert r2 == "{{SLEEP_MS:50}}there";
    RenderWithCons(MacroSpelling, acts[1..]);
    assert acts[1..][1..] == acts[2..];
    SpellEnter();
    assert r1 == "{{KEY:ENTER}}{{SLEEP_MS:50}}there";
    RenderWithCons(MacroSpelling, acts);
  }

  lemma MixedRenderable()
    ensures Renderable(MixedActions)
  {
    assert '{' !in "Hi" && '{' !in "there";
  }

  /** Text, a key, a pause and text again, in order. */
  lemma MixedExample()
    ensures Parse("Hi{{KEY:ENTER}}{{SLEEP_MS:50}}there")
         == Ok([Text("Hi"), Key(Enter), SleepMs(50), Text("there")])
  {
    MixedSpelling();
    MixedRenderable();
    ParseRender(MixedActions);
  }

  /** An opening `{{` with no closing `}}` is refused with its byte offset. */
  lemma UnclosedExample()
    ensures Parse("x{{KEY:ENTER").Err?
    ensures Parse("x{{KEY:ENTER") == Err(UnclosedMacro(1))
  {
    var s := "x{{KEY:ENTER";
    forall j | 3 <= j ensures !ClosesMacro(s, j) {
      if j < |s| { assert s[j] in s; }
    }
    assert s[..1] == "x";
    ParseUnclosed(s, 1);
  }
}
