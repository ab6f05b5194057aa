/** The engine's example sessions: typed key events and the sink calls they
    produce. */
module EngineExamples {
  import opened Wrappers
  import opened Strings
  import opened Events
  import opened Expansion
  import opened ExpansionExamples
  import opened Config
  import opened Output
  import opened Engine
  import Keys

  function PressChar(c: char): KeyEvent {
    KeyEvent(Press, Some(c), None, false)
  }

  function PressSpecial(key: SpecialInputKey): KeyEvent {
    KeyEvent(Press, None, Some(key), false)
  }

  function OneRule(trigger: string, expansion: string, mode: MatchBehavior): AppConfig {
    AppConfig([ExpansionRule(trigger, expansion)], [], map[], mode, None)
  }

  lemma ParsesAsText(s: string)
    requires s != [] && '{' !in s
    ensures Parse(s) == Ok([Text(s)])
  {
    NoBraceNoMacro(s);
    ParsePlainText(s);
  }

  const GConfig: AppConfig := OneRule(";g", "hello", Immediate)

  lemma TypeSemicolon()
    ensures React(GConfig, 2, [], PressChar(';')) == Reaction(";", NoMatch)
  {
    assert Truncate([';'], 10) == ";" && !IsSuffix(";g", ";");
  }

  lemma TypeSemicolonG()
    ensures React(GConfig, 2, ";", PressChar('g')) == Reaction(";g", Expand(2, [Text("hello")]))
  {
    ParsesAsText("hello");
    assert Truncate(";" + ['g'], 10) == ";g" && IsSuffix(";g", ";g");
  }

  /** Immediate mode: typing `;g` erases two characters and types "hello". */
  lemma ImmediateSession()
    ensures Run(GConfig, 2, Trace([], []), [PressChar(';'), PressChar('g')])
         == Trace([], [Backspaces(2), Actions([Text("hello")])])
  {
    var events := [PressChar(';'), PressChar('g')];
    TypeSemicolon();
    TypeSemicolonG();
    assert events[1..] == [PressChar('g')];
  }

  const TgConfig: AppConfig := OneRule("tg@", "tylergetsay@gmail.com", Immediate)

  lemma TypeT()
    ensures React(TgConfig, 3, [], PressChar('t')) == Reaction("t", NoMatch)
  {
    assert Truncate(['t'], 11) == "t" && !IsSuffix("tg@", "t");
  }

  lemma TypeG()
    ensures React(TgConfig, 3, "t", PressChar('g')) == Reaction("tg", NoMatch)
  {
    assert Truncate("t" + ['g'], 11) == "tg" && !IsSuffix("tg@", "tg");
  }

  lemma PressShift()
    ensures React(TgConfig, 3, "tg", PressSpecial(Shift)) == Reaction("tg", NoMatch)
  {
  }

  lemma TypeAt()
    ensures React(TgConfig, 3, "tg", PressChar('@'))
         == Reaction("tg@", Expand(3, [Text("tylergetsay@gmail.com")]))
  {
    ParsesAsText("tylergetsay@gmail.com");
    assert Truncate("tg" + ['@'], 11) == "tg@" && IsSuffix("tg@", "tg@");
  }

  /** A modifier key between typed characters keeps the partial trigger:
      `t`, `g`, Shift, `@` fires "tg@" with three backspaces. */
  lemma ModifierSession()
    ensures Run(TgConfig, 3, Trace([], []),
                [PressChar('t'), PressChar('g'), PressSpecial(Shift), PressChar('@')])
         == Trace([], [Backspaces(3), Actions([Text("tylergetsay@gmail.com")])])
  {
    var events := [PressChar('t'), PressChar('g'), PressSpecial(Shift), PressChar('@')];
    TypeT();
    TypeG();
    PressShift();
    TypeAt();
    assert events[1..] == [PressChar('g'), PressSpecial(Shift), PressChar('@')];
    assert events[1..][1..] == [PressSpecial(Shift), PressChar('@')];
    assert events[1..][1..][1..] == [PressChar('@')];
  }

  const BoundaryConfig: AppConfig := OneRule(";g", "hello", Boundary)

  lemma BoundaryTypeSemicolon()
    ensures React(BoundaryConfig, 2, [], PressChar(';')) == Reaction(";", NoMatch)
  {
    assert Truncate([';'], 10) == ";" && Pop(";") == [] && !IsSuffix(";g", []);
  }

  lemma BoundaryTypeG()
    ensures React(BoundaryConfig, 2, ";", PressChar('g')) == Reaction(";g", NoMatch)
  {
    assert Truncate(";" + ['g'], 10) == ";g";
  }

  lemma BoundaryTypeSpace()
    ensures React(BoundaryConfig, 2, ";g", PressChar(' '))
         == Reaction(";g ", Expand(3, [Text("hello"), Text(" ")]))
  {
    var rules := BoundaryConfig.expansions;
    ParsesAsText("hello");
    assert Truncate(";g" + [' '], 10) == ";g ";
    assert ";g "[..2] == ";g";
    BoundaryCharFires(rules, ";g ", ' ', 0);
    assert [Text("hello")] + [Text([' '])] == [Text("hello"), Text(" ")];
    assert ' ' in BoundaryChars(BoundaryConfig);
    assert PrintableReaction(BoundaryConfig, 2, ";g", ' ') == Reaction(";g ", BoundaryPlan(rules, ";g ", Some(' '), None));
  }

  lemma BoundaryPressEnter()
    ensures React(BoundaryConfig, 2, ";g", PressSpecial(Enter))
         == Reaction(";g", Expand(3, [Text("hello"), Key(Keys.Enter)]))
  {
    EnterFires();
    EnterChecksBoundary(";g");
  }

  lemma EnterFires()
    ensures BoundaryPlan(BoundaryConfig.expansions, ";g", None, Some(Enter))
         == Expand(3, [Text("hello"), Key(Keys.Enter)])
  {
    ParsesAsText("hello");
    SoleRuleFiresOnEnter(BoundaryConfig.expansions, ";g", [Text("hello")]);
  }

  lemma SoleRuleFiresOnEnter(rules: seq<ExpansionRule>, buf: string, acts: seq<OutputAction>)
    requires |rules| == 1 && IsSuffix(rules[0].trigger, buf)
    requires Parse(rules[0].expansion) == Ok(acts)
    ensures BoundaryPlan(rules, buf, None, Some(Enter)) == Expand(|rules[0].trigger| + 1, acts + [Key(Keys.Enter)])
  {
    BoundaryKeyFires(rules, buf, Enter, 0);
  }

  /** The dispatch step of `BoundaryPressEnter` on its own, which keeps that
      proof within the solver's budget. */
  lemma EnterChecksBoundary(buf: string)
    ensures React(BoundaryConfig, 2, buf, PressSpecial(Enter))
         == Reaction(buf, BoundaryPlan(BoundaryConfig.expansions, buf, None, Some(Enter)))
  {
  }

  /** Boundary mode: `;g` alone sends nothing; the space after it erases the
      trigger and the space, then types "hello" and the space again. */
  lemma BoundarySession()
    ensures Run(BoundaryConfig, 2, Trace([], []), [PressChar(';'), PressChar('g'), PressChar(' ')])
         == Trace([], [Backspaces(3), Actions([Text("hello"), Text(" ")])])
  {
    var events := [PressChar(';'), PressChar('g'), PressChar(' ')];
    BoundaryTypeSemicolon();
    BoundaryTypeG();
    BoundaryTypeSpace();
    assert events[1..] == [PressChar('g'), PressChar(' ')];
    assert events[1..][1..] == [PressChar(' ')];
  }

  /** The first session run on the engine itself, with a sink. Whatever the
      sink answers, it is asked for the backspaces first and for the text only
      once it accepted them; the session succeeds, and leaves the buffer empty,
      exactly when the sink accepted both. */
  method ImmediateScenario() returns (sink: OutputSink, r: Outcome<EngineError>, buffer: string)
    ensures sink.answers == [true, true] || sink.answers == [true, false] || sink.answers == [false]
    ensures sink.answers == [false] ==> sink.calls == [Backspaces(2)]
    ensures sink.answers != [false] ==> sink.calls == [Backspaces(2), Actions([Text("hello")])]
    ensures r.Pass? <==> sink.answers == [true, true]
    ensures r.Fail? ==> r == Fail(SinkFailed)
    ensures buffer == if r.Pass? then [] else ";g"
  {
    var engine := new Engine(GConfig);
    sink := new OutputSink();
    engine.SetOutput(sink);
    TypeSemicolon();
    TypeSemicolonG();
    var r1 := engine.HandleEvent(PressChar(';'));
    r := engine.HandleEvent(PressChar('g'));
    buffer := engine.typedBuffer;
  }
}
