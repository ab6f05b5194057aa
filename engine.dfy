/** The expansion engine: a key-event state machine over a bounded buffer of
    recently typed characters. When the buffer ends with a trigger, the engine
    erases the trigger with backspaces and types the trigger's expansion. */
module Engine {
  import opened Wrappers
  import opened Strings
  import opened Events
  import Keys
  import opened Expansion
  import opened Config
  import opened Output

  /** How many characters beyond the longest trigger the buffer keeps. */
  const BufferSlack: nat := 8

  /** Why handling an event failed. */
  datatype EngineError =
    | ParseFailed(error: ParseError) // the fired rule's expansion does not parse
    | SinkFailed                     // the output sink refused a call

  // ---------------------------------------------------------------------------
  // Buffer arithmetic
  // ---------------------------------------------------------------------------

  /** The length, in characters, of the longest trigger; 0 without rules. */
  function MaxTriggerChars(rules: seq<ExpansionRule>): (m: nat)
    ensures forall i :: 0 <= i < |rules| ==> |rules[i].trigger| <= m
    ensures rules == [] ==> m == 0
    ensures rules != [] ==> exists i :: 0 <= i < |rules| && |rules[i].trigger| == m
    decreases |rules|
  {
    if rules == [] then 0
    else
      var rest := MaxTriggerChars(rules[1..]);
      assert forall i :: 1 <= i < |rules| ==> rules[i] == rules[1..][i - 1];
      if |rules[0].trigger| >= rest then |rules[0].trigger| else rest
  }

  /** The newest `n` characters of `s` (all of `s` when it is no longer). */
  function Truncate(s: string, n: nat): (r: string)
  {
    if |s| <= n then s else s[|s| - n..]
  }

  /** Truncation keeps the newest characters, in order, up to the bound. */
  lemma TruncateKeepsNewest(s: string, n: nat)
    ensures |Truncate(s, n)| == if |s| <= n then |s| else n
    ensures IsSuffix(Truncate(s, n), s)
  {
  }

  /** A string no longer than the bound ends the truncated buffer exactly when
      it ends the whole buffer. */
  lemma TruncateKeepsSuffixes(s: string, n: nat, t: string)
    requires |t| <= n
    ensures IsSuffix(t, Truncate(s, n)) <==> IsSuffix(t, s)
  {
    var r := Truncate(s, n);
    if |s| > n {
      if IsSuffix(t, s) {
        assert r[|r| - |t|..] == s[|s| - |t|..];
      }
      if IsSuffix(t, r) {
        assert r[|r| - |t|..] == s[|s| - |t|..];
      }
    }
  }

  /** `String::pop`: the buffer without its last character, if any. */
  function Pop(s: string): (r: string)
  {
    if s == [] then [] else s[..|s| - 1]
  }

  // ---------------------------------------------------------------------------
  // Matching
  // ---------------------------------------------------------------------------

  /** The index of the first rule, in configured order, whose trigger ends
      `candidate`. An empty trigger ends every string. */
  function FirstMatch(rules: seq<ExpansionRule>, candidate: string): (r: Option<nat>)
    ensures r.Some? ==> r.value < |rules| && IsSuffix(rules[r.value].trigger, candidate)
    ensures r.Some? ==> forall j :: 0 <= j < r.value ==> !IsSuffix(rules[j].trigger, candidate)
    ensures r.None? ==> forall j :: 0 <= j < |rules| ==> !IsSuffix(rules[j].trigger, candidate)
    decreases |rules|
  {
    if rules == [] then None
    else if IsSuffix(rules[0].trigger, candidate) then Some(0)
    else
      var rest := FirstMatch(rules[1..], candidate);
      assert forall j :: 1 <= j < |rules| ==> rules[j] == rules[1..][j - 1];
      if rest.None? then None else Some(rest.value + 1)
  }

  /** Which rule fires does not change when the buffer is truncated to a bound at
      least as long as every trigger. */
  lemma TruncateKeepsFirstMatch(rules: seq<ExpansionRule>, s: string, n: nat)
    requires MaxTriggerChars(rules) <= n
    ensures FirstMatch(rules, Truncate(s, n)) == FirstMatch(rules, s)
  {
    forall i | 0 <= i < |rules|
      ensures IsSuffix(rules[i].trigger, Truncate(s, n)) <==> IsSuffix(rules[i].trigger, s)
    {
      TruncateKeepsSuffixes(s, n, rules[i].trigger);
    }
  }

  /** `map_input_key_to_output_key`. */
  function MapInputKeyToOutputKey(key: SpecialInputKey): (r: Option<Keys.SpecialKey>)
    ensures r.Some? <==> key == Enter || key == Tab
    ensures key == Enter ==> r == Some(Keys.Enter)
    ensures key == Tab ==> r == Some(Keys.Tab)
  {
    match key
    case Enter => Some(Keys.Enter)
    case Tab => Some(Keys.Tab)
    case _ => None
  }

  /** What an event asks the engine to do once the buffer is edited. */
  datatype Plan =
    | NoMatch                                                 // nothing fires
    | Expand(backspaces: nat, actions: seq<OutputAction>)     // erase, then type
    | BadExpansion(error: ParseError)                         // the fired rule does not parse

  /** `try_expand_immediate` on buffer `buf`: the first rule whose trigger ends
      the buffer fires, erasing the trigger. */
  function ImmediatePlan(rules: seq<ExpansionRule>, buf: string): Plan {
    match FirstMatch(rules, buf)
    case None => NoMatch
    case Some(i) =>
      match Parse(rules[i].expansion)
      case Err(e) => BadExpansion(e)
      case Ok(acts) => Expand(|rules[i].trigger|, acts)
  }

  /** The actions that re-type the boundary after an expansion. */
  function BoundaryEcho(c: Option<char>, key: Option<SpecialInputKey>): seq<OutputAction> {
    (if c.Some? then [Text([c.value])] else [])
    + (if key.Some? && MapInputKeyToOutputKey(key.value).Some?
       then [Key(MapInputKeyToOutputKey(key.value).value)] else [])
  }

  /** `try_expand_boundary` on buffer `buf`, the boundary being the typed
      character `c` (already the last one of `buf`) or the key `key`. */
  function BoundaryPlan(rules: seq<ExpansionRule>, buf: string, c: Option<char>,
                        key: Option<SpecialInputKey>): Plan
  {
    var candidate := if c.Some? then Pop(buf) else buf;
    match FirstMatch(rules, candidate)
    case None => NoMatch
    case Some(i) =>
      match Parse(rules[i].expansion)
      case Err(e) => BadExpansion(e)
      case Ok(acts) =>
        Expand(|rules[i].trigger| + (if c.Some? || key.Some? then 1 else 0), acts + BoundaryEcho(c, key))
  }

  // ---------------------------------------------------------------------------
  // Reacting to one event
  // ---------------------------------------------------------------------------

  /** The buffer once the event has edited it, and what is to be sent. */
  datatype Reaction = Reaction(buffer: string, plan: Plan)

  /** `on_printable_char`: append, truncate, then look for a match. */
  function PrintableReaction(cfg: AppConfig, max: nat, buf: string, c: char): Reaction {
    var b := Truncate(buf + [c], max + BufferSlack);
    match cfg.matchBehavior
    case Immediate => Reaction(b, ImmediatePlan(cfg.expansions, b))
    case Boundary =>
      if c in BoundaryChars(cfg) then Reaction(b, BoundaryPlan(cfg.expansions, b, Some(c), None))
      else Reaction(b, NoMatch)
  }

  predicate IsModifier(key: SpecialInputKey) {
    key == Shift || key == Ctrl || key == Alt || key == Meta || key == CapsLock
  }

  /** `on_special_key`. */
  function SpecialReaction(cfg: AppConfig, buf: string, key: SpecialInputKey): Reaction {
    if key == Backspace then Reaction(Pop(buf), NoMatch)
    else if IsModifier(key) then Reaction(buf, NoMatch)
    else if key == Enter || key == Tab then
      if cfg.matchBehavior == Boundary then Reaction(buf, BoundaryPlan(cfg.expansions, buf, None, Some(key)))
      else Reaction([], NoMatch)
    else Reaction([], NoMatch)
  }

  /** `handle_event`: releases and injected events are ignored; a printable
      character takes precedence over a special key. */
  function React(cfg: AppConfig, max: nat, buf: string, ev: KeyEvent): Reaction {
    if ev.kind != Press || ev.isInjected then Reaction(buf, NoMatch)
    else if ev.printable.Some? then PrintableReaction(cfg, max, buf, ev.printable.value)
    else if ev.special.Some? then SpecialReaction(cfg, buf, ev.special.value)
    else Reaction(buf, NoMatch)
  }

  /** The buffer after the reaction has been carried out in full. */
  function Settled(re: Reaction): string {
    if re.plan.Expand? then [] else re.buffer
  }

  /** The sink calls of a plan carried out in full. */
  function Sent(plan: Plan): seq<SinkCall> {
    if plan.Expand? then [Backspaces(plan.backspaces), Actions(plan.actions)] else []
  }

  // ---------------------------------------------------------------------------
  // What a reaction means
  // ---------------------------------------------------------------------------

  /** Key releases and events the engine itself injected change nothing and
      send nothing. */
  lemma IgnoredEvents(cfg: AppConfig, max: nat, buf: string, ev: KeyEvent)
    requires ev.kind == Release || ev.isInjected
    ensures React(cfg, max, buf, ev) == Reaction(buf, NoMatch)
    ensures Settled(React(cfg, max, buf, ev)) == buf && Sent(React(cfg, max, buf, ev).plan) == []
  {
  }

  /** A press carrying a character is a typed character, whatever special key
      it also carries. */
  lemma PrintableWins(cfg: AppConfig, max: nat, buf: string, ev: KeyEvent)
    requires ev.kind == Press && !ev.isInjected && ev.printable.Some?
    ensures React(cfg, max, buf, ev) == PrintableReaction(cfg, max, buf, ev.printable.value)
  {
  }

  /** Appending a character and truncating to a positive bound keeps that
      character last. */
  lemma TruncateAppend(buf: string, c: char, n: nat)
    requires n > 0
    ensures var b := Truncate(buf + [c], n);
      && |b| <= n
      && b != [] && b[|b| - 1] == c && Pop(b) + [c] == b
      && IsSuffix(b, buf + [c])
      && |b| == if |buf| + 1 <= n then |buf| + 1 else n
  {
    var s := buf + [c];
    var b := Truncate(s, n);
    TruncateKeepsNewest(s, n);
    assert b[|b| - 1] == s[|s| - 1];
    assert Pop(b) + [c] == b;
  }

  /** The buffer part of `PrintableReaction`, on its own so that the proof of
      `PrintableBuffer` does not unfold the plan. */
  lemma PrintableReactionBuffer(cfg: AppConfig, max: nat, buf: string, c: char)
    ensures PrintableReaction(cfg, max, buf, c).buffer == Truncate(buf + [c], max + BufferSlack)
  {
  }

  /** After a typed character the buffer holds the newest characters typed, in
      order, ends with that character and is within the bound. */
  lemma PrintableBuffer(cfg: AppConfig, max: nat, buf: string, c: char)
    ensures var b := PrintableReaction(cfg, max, buf, c).buffer;
      && |b| <= max + BufferSlack
      && b != [] && b[|b| - 1] == c && Pop(b) + [c] == b
      && IsSuffix(b, buf + [c])
      && |b| == if |buf| + 1 <= max + BufferSlack then |buf| + 1 else max + BufferSlack
  {
    PrintableReactionBuffer(cfg, max, buf, c);
    TruncateAppend(buf, c, max + BufferSlack);
  }

  /** Immediate mode fires the first rule, in configured order, whose trigger
      ends the buffer, and erases exactly that trigger's characters. */
  lemma ImmediateFiresFirst(rules: seq<ExpansionRule>, buf: string, i: nat)
    requires i < |rules| && IsSuffix(rules[i].trigger, buf)
    requires forall j :: 0 <= j < i ==> !IsSuffix(rules[j].trigger, buf)
    ensures ImmediatePlan(rules, buf)
         == match Parse(rules[i].expansion)
            case Ok(acts) => Expand(|rules[i].trigger|, acts)
            case Err(e) => BadExpansion(e)
  {
  }

  /** Immediate mode does nothing exactly when no trigger ends the buffer. */
  lemma ImmediateNoMatch(rules: seq<ExpansionRule>, buf: string)
    ensures ImmediatePlan(rules, buf).NoMatch? <==>
      forall j :: 0 <= j < |rules| ==> !IsSuffix(rules[j].trigger, buf)
  {
  }

  /** In boundary mode a non-boundary character only edits the buffer. */
  lemma BoundaryWaits(cfg: AppConfig, max: nat, buf: string, c: char)
    requires cfg.matchBehavior == Boundary && c !in BoundaryChars(cfg)
    ensures PrintableReaction(cfg, max, buf, c).plan == NoMatch
  {
  }

  /** A boundary character fires the first rule whose trigger ends the buffer
      before that character; the character is re-typed after the expansion and
      erased with the trigger. */
  lemma BoundaryCharFires(rules: seq<ExpansionRule>, buf: string, c: char, i: nat)
    requires buf != [] && buf[|buf| - 1] == c
    requires i < |rules| && IsSuffix(rules[i].trigger, buf[..|buf| - 1])
    requires forall j :: 0 <= j < i ==> !IsSuffix(rules[j].trigger, buf[..|buf| - 1])
    ensures BoundaryPlan(rules, buf, Some(c), None)
         == match Parse(rules[i].expansion)
            case Ok(acts) => Expand(|rules[i].trigger| + 1, acts + [Text([c])])
            case Err(e) => BadExpansion(e)
  {
  }

  /** Enter or Tab in boundary mode fires the first rule whose trigger ends the
      whole buffer; the key is re-pressed after the expansion and counted among
      the backspaces. */
  lemma BoundaryKeyFires(rules: seq<ExpansionRule>, buf: string, key: SpecialInputKey, i: nat)
    requires key == Enter || key == Tab
    requires i < |rules| && IsSuffix(rules[i].trigger, buf)
    requires forall j :: 0 <= j < i ==> !IsSuffix(rules[j].trigger, buf)
    ensures BoundaryPlan(rules, buf, None, Some(key))
         == match Parse(rules[i].expansion)
            case Ok(acts) =>
              Expand(|rules[i].trigger| + 1, acts + [Key(if key == Enter then Keys.Enter else Keys.Tab)])
            case Err(e) => BadExpansion(e)
  {
  }

  /** How special keys edit the buffer: Backspace drops the last character
      (none on an empty buffer), modifiers keep it, Enter and Tab keep it for a
      boundary check in boundary mode and clear it otherwise, and every other
      key clears it. Only Enter and Tab in boundary mode can fire. */
  lemma SpecialKeyEdits(cfg: AppConfig, buf: string, key: SpecialInputKey)
    ensures var re := SpecialReaction(cfg, buf, key);
      && (key == Backspace ==> re.buffer == Pop(buf) && (buf != [] ==> re.buffer + [buf[|buf| - 1]] == buf))
      && (IsModifier(key) ==> re.buffer == buf)
      && ((key == Enter || key == Tab) ==> re.buffer == (if cfg.matchBehavior == Boundary then buf else []))
      && (key != Backspace && !IsModifier(key) && key != Enter && key != Tab ==> re.buffer == [])
      && (!re.plan.NoMatch? ==> (key == Enter || key == Tab) && cfg.matchBehavior == Boundary)
  {
    if key == Backspace && buf != [] {
      assert buf[..|buf| - 1] + [buf[|buf| - 1]] == buf;
    }
  }

  /** The sink calls of a sequence of events, for a sink that accepts every call,
      and the buffer they leave. */
  datatype Trace = Trace(buffer: string, calls: seq<SinkCall>)

  function Run(cfg: AppConfig, max: nat, t: Trace, events: seq<KeyEvent>): Trace
    decreases |events|
  {
    if events == [] then t
    else
      var re := React(cfg, max, t.buffer, events[0]);
      Run(cfg, max, Trace(Settled(re), t.calls + Sent(re.plan)), events[1..])
  }

  /** Carrying out `plan` took the sink's call log from `log0` to `log` and its
      answers from `ans0` to `ans`, and gave `r`. Without a match, or when the
      expansion does not parse, the sink is not called. An expansion sends the
      backspaces and, only if the sink accepted them, the actions; it succeeds
      exactly when the sink accepted both. Without a sink it just succeeds. */
  predicate Carried(plan: Plan, r: Outcome<EngineError>, hasSink: bool,
                    log0: seq<SinkCall>, ans0: seq<bool>, log: seq<SinkCall>, ans: seq<bool>)
  {
    match plan
    case NoMatch => r == Pass && log == log0 && ans == ans0
    case BadExpansion(e) => r == Fail(ParseFailed(e)) && log == log0 && ans == ans0
    case Expand(n, acts) =>
      if !hasSink then r == Pass
      else
        || (ans == ans0 + [false] && log == log0 + [Backspaces(n)] && r == Fail(SinkFailed))
        || (ans == ans0 + [true, false] && log == log0 + [Backspaces(n), Actions(acts)] && r == Fail(SinkFailed))
        || (ans == ans0 + [true, true] && log == log0 + [Backspaces(n), Actions(acts)] && r == Pass)
  }

  /** With a sink that accepts every call, carrying out a plan that parses
      succeeds and makes exactly the calls `Sent` lists, as `Run` assumes. */
  lemma AcceptingSinkGetsSent(plan: Plan, r: Outcome<EngineError>, log0: seq<SinkCall>, ans0: seq<bool>,
                              log: seq<SinkCall>, ans: seq<bool>)
    requires Carried(plan, r, true, log0, ans0, log, ans) && !plan.BadExpansion?
    requires forall i :: |ans0| <= i < |ans| ==> ans[i]
    ensures r == Pass && log == log0 + Sent(plan)
  {
    if plan.Expand? {
      assert |ans0| < |ans| && ans[|ans0|];
      if |ans| == |ans0| + 2 { assert ans[|ans0| + 1]; }
    }
  }

  /** One handled event, with a sink that accepts every call it is asked,
      continues `Run`: the buffer the engine is left with and the sink's log
      are the state `Run` reaches after that event. By induction on the events,
      a sequence of `HandleEvent` calls on such a sink logs `Run(...).calls`. */
  lemma AcceptedEventRuns(cfg: AppConfig, max: nat, buf: string, ev: KeyEvent, rest: seq<KeyEvent>,
                          r: Outcome<EngineError>, log0: seq<SinkCall>, ans0: seq<bool>,
                          log: seq<SinkCall>, ans: seq<bool>, buf': string)
    requires Carried(React(cfg, max, buf, ev).plan, r, true, log0, ans0, log, ans)
    requires forall i :: |ans0| <= i < |ans| ==> ans[i]
    requires buf' == if r.Pass? then Settled(React(cfg, max, buf, ev)) else React(cfg, max, buf, ev).buffer
    ensures Run(cfg, max, Trace(buf, log0), [ev] + rest) == Run(cfg, max, Trace(buf', log), rest)
  {
    var re := React(cfg, max, buf, ev);
    if !re.plan.BadExpansion? {
      AcceptingSinkGetsSent(re.plan, r, log0, ans0, log, ans);
    }
    assert ([ev] + rest)[0] == ev && ([ev] + rest)[1..] == rest;
    assert buf' == Settled(re) && log == log0 + Sent(re.plan);
  }

  // ---------------------------------------------------------------------------
  // The engine
  // ---------------------------------------------------------------------------

  class Engine {
    const config: AppConfig
    const maxTriggerChars: nat
    var output: Option<OutputSink>
    var typedBuffer: string

    /** The bound is the longest trigger, and the buffer stays within it plus
        the slack. */
    ghost predicate Valid()
      reads this
    {
      maxTriggerChars == MaxTriggerChars(config.expansions)
      && |typedBuffer| <= maxTriggerChars + BufferSlack
    }

    function Sinks(): set<object>
      reads this`output
    {
      if output.Some? then {output.value} else {}
    }

    /** Every call made on the sink so far (none without a sink). */
    ghost function Log(): seq<SinkCall>
      reads this`output, Sinks()
    {
      if output.Some? then output.value.calls else []
    }

    /** The sink's answers to those calls, in the same order. */
    ghost function Answers(): seq<bool>
      reads this`output, Sinks()
    {
      if output.Some? then output.value.answers else []
    }

    /** The engine carried out reaction `re` and returned `r`: the sink calls
        and the result are those of `Carried`, and only a success settles the
        buffer; on failure the buffer is the edited one. */
    twostate predicate Performed(new re: Reaction, new r: Outcome<EngineError>)
      reads this, Sinks()
    {
      && output == old(output)
      && typedBuffer == (if r.Pass? then Settled(re) else re.buffer)
      && Carried(re.plan, r, output.Some?, old(Log()), old(Answers()), Log(), Answers())
    }

    /** `Engine::new`: no sink, an empty buffer. */
    constructor(config: AppConfig)
      ensures this.config == config && output.None? && typedBuffer == []
      ensures Valid()
    {
      this.config := config;
      maxTriggerChars := MaxTriggerChars(config.expansions);
      output := None;
      typedBuffer := [];
    }

    /** `set_output`. */
    method SetOutput(sink: OutputSink)
      modifies this
      ensures output == Some(sink) && typedBuffer == old(typedBuffer)
    {
      output := Some(sink);
    }

    /** `is_boundary_char`: membership in the configured set, or in the default
        set when none is configured. */
    predicate IsBoundaryChar(c: char): (b: bool)
      ensures config.boundaryChars.Some? ==> (b <==> c in config.boundaryChars.value)
      ensures config.boundaryChars.None? ==>
        (b <==> c in {' ', '\t', '\n', '.', ',', ';', ':', '!', '?', ')', ']', '}', '>', '\'', '"'})
    {
      if config.boundaryChars.None? then DefaultBoundary(config, c); c in BoundaryChars(config)
      else c in BoundaryChars(config)
    }

    /** `truncate_buffer_if_needed`. */
    method TruncateBufferIfNeeded()
      modifies this
      ensures typedBuffer == Truncate(old(typedBuffer), maxTriggerChars + BufferSlack)
      ensures output == old(output)
    {
      var maxLen := maxTriggerChars + BufferSlack;
      if |typedBuffer| <= maxLen {
        return;
      }
      var keepFrom := |typedBuffer| - maxLen;
      typedBuffer := typedBuffer[keepFrom..];
    }

    /** `execute_expansion`: backspaces, then actions, then an empty buffer. */
    method ExecuteExpansion(backspaces: nat, actions: seq<OutputAction>) returns (r: Outcome<EngineError>)
      requires Valid()
      modifies this, Sinks()
      ensures Valid()
      ensures Performed(Reaction(old(typedBuffer), Expand(backspaces, actions)), r)
    {
      if output.Some? {
        var ok := output.value.SendBackspaces(backspaces);
        if !ok {
          return Fail(SinkFailed);
        }
        ok := output.value.SendActions(actions);
        if !ok {
          return Fail(SinkFailed);
        }
      }
      typedBuffer := [];
      return Pass;
    }

    /** `try_expand_immediate`. */
    method TryExpandImmediate() returns (r: Outcome<EngineError>)
      requires Valid()
      modifies this, Sinks()
      ensures Valid()
      ensures Performed(Reaction(old(typedBuffer), ImmediatePlan(config.expansions, old(typedBuffer))), r)
    {
      ghost var plan := ImmediatePlan(config.expansions, typedBuffer);
      var rules := config.expansions;
      var i := 0;
      while i < |rules|
        invariant 0 <= i <= |rules|
        invariant forall j :: 0 <= j < i ==> !IsSuffix(rules[j].trigger, typedBuffer)
        invariant unchanged(this) && Log() == old(Log()) && Answers() == old(Answers())
      {
        if IsSuffix(rules[i].trigger, typedBuffer) {
          assert FirstMatch(rules, typedBuffer) == Some(i);
          var parsed := ParseExpansionActions(rules[i].expansion);
          if parsed.Err? {
            assert plan == BadExpansion(parsed.error);
            return Fail(ParseFailed(parsed.error));
          }
          assert plan == Expand(|rules[i].trigger|, parsed.value);
          r := ExecuteExpansion(|rules[i].trigger|, parsed.value);
          return;
        }
        i := i + 1;
      }
      assert plan == NoMatch;
      return Pass;
    }

    /** `try_expand_boundary`: the candidate is the buffer less the typed
        boundary character; the boundary is re-typed after the expansion and
        counted in the backspaces. */
    method TryExpandBoundary(typedChar: Option<char>, typedKey: Option<SpecialInputKey>)
      returns (r: Outcome<EngineError>)
      requires Valid()
      modifies this, Sinks()
      ensures Valid()
      ensures Performed(Reaction(old(typedBuffer),
                                 BoundaryPlan(config.expansions, old(typedBuffer), typedChar, typedKey)), r)
    {
      ghost var plan := BoundaryPlan(config.expansions, typedBuffer, typedChar, typedKey);
      var candidate := typedBuffer;
      if typedChar.Some? && candidate != [] {
        candidate := candidate[..|candidate| - 1];
      }
      assert candidate == if typedChar.Some? then Pop(typedBuffer) else typedBuffer;
      var rules := config.expansions;
      var i := 0;
      while i < |rules|
        invariant 0 <= i <= |rules|
        invariant forall j :: 0 <= j < i ==> !IsSuffix(rules[j].trigger, candidate)
        invariant unchanged(this) && Log() == old(Log()) && Answers() == old(Answers())
      {
        if IsSuffix(rules[i].trigger, candidate) {
          assert FirstMatch(rules, candidate) == Some(i);
          var parsed := ParseExpansionActions(rules[i].expansion);
          if parsed.Err? {
            assert plan == BadExpansion(parsed.error);
            return Fail(ParseFailed(parsed.error));
          }
          var actions := parsed.value + BoundaryEcho(typedChar, typedKey);
          var deleteCount := |rules[i].trigger| + if typedChar.Some? || typedKey.Some? then 1 else 0;
          assert plan == Expand(deleteCount, actions);
          r := ExecuteExpansion(deleteCount, actions);
          return;
        }
        i := i + 1;
      }
      assert plan == NoMatch;
      return Pass;
    }

    /** `on_printable_char`. */
    method OnPrintableChar(c: char) returns (r: Outcome<EngineError>)
      requires Valid()
      modifies this, Sinks()
      ensures Valid()
      ensures Performed(PrintableReaction(config, maxTriggerChars, old(typedBuffer), c), r)
    {
      ghost var re := PrintableReaction(config, maxTriggerChars, typedBuffer, c);
      typedBuffer := typedBuffer + [c];
      TruncateBufferIfNeeded();
      assert typedBuffer == re.buffer && Log() == old(Log()) && Answers() == old(Answers());
      match config.matchBehavior {
        case Immediate =>
          r := TryExpandImmediate();
        case Boundary =>
          if IsBoundaryChar(c) {
            r := TryExpandBoundary(Some(c), None);
          } else {
            r := Pass;
          }
      }
    }

    /** `on_special_key`. */
    method OnSpecialKey(key: SpecialInputKey) returns (r: Outcome<EngineError>)
      requires Valid()
      modifies this, Sinks()
      ensures Valid()
      ensures Performed(SpecialReaction(config, old(typedBuffer), key), r)
    {
      ghost var re := SpecialReaction(config, typedBuffer, key);
      if key == Backspace {
        if typedBuffer != [] {
          typedBuffer := typedBuffer[..|typedBuffer| - 1];
        }
        r := Pass;
      } else if IsModifier(key) {
        r := Pass;
      } else if key == Enter || key == Tab {
        if config.matchBehavior == Boundary {
          r := TryExpandBoundary(None, Some(key));
        } else {
          typedBuffer := [];
          r := Pass;
        }
      } else {
        typedBuffer := [];
        r := Pass;
      }
    }

    /** `handle_event`. */
    method HandleEvent(event: KeyEvent) returns (r: Outcome<EngineError>)
      requires Valid()
      modifies this, Sinks()
      ensures Valid()
      ensures Performed(React(config, maxTriggerChars, old(typedBuffer), event), r)
    {
      if event.kind != Press {
        return Pass;
      }
      if event.isInjected {
        return Pass;
      }
      if event.printable.Some? {
        r := OnPrintableChar(event.printable.value);
        return;
      }
      if event.special.Some? {
        r := OnSpecialKey(event.special.value);
        return;
      }
      return Pass;
    }
  }
}
