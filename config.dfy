/** The parts of the application configuration the engine reads, and the
    validation run on a freshly loaded configuration. */
module Config {
  import opened Wrappers
  import opened Strings

  /** When a trigger fires: as soon as it is typed, or only once a boundary
      character (or Enter/Tab) follows it. Immediate is the default. */
  datatype MatchBehavior = Immediate | Boundary

  datatype ExpansionRule = ExpansionRule(trigger: string, expansion: string)

  datatype MenuSnippet = MenuSnippet(title: string, content: string)

  /** The configuration, less its notification and watch flags. `globals` is a
      hash map: its iteration order is not part of the value. */
  datatype AppConfig = AppConfig(
    expansions: seq<ExpansionRule>,
    snippets: seq<MenuSnippet>,
    globals: map<string, string>,
    matchBehavior: MatchBehavior,
    boundaryChars: Option<string>)

  /** Why a configuration was refused, one constructor per message. */
  datatype ConfigError =
    | NoExpansions                        // "config must include at least one expansion"
    | EmptyTrigger                        // "trigger cannot be empty"
    | DuplicateTrigger(trigger: string)   // "duplicate trigger found: ..."
    | EmptySnippetTitle                   // "snippet title cannot be empty"
    | EmptySnippetContent                 // "snippet content cannot be empty"
    | DuplicateSnippetTitle(title: string)
    | EmptyGlobalName                     // "global macro name cannot be empty"
    | UnsupportedGlobalName(name: string) // name holds '{', '}' or ':'
    | DuplicateGlobalName(name: string)   // equal to another after trim + upper-case

  // ---------------------------------------------------------------------------
  // Boundary characters
  // ---------------------------------------------------------------------------

  const DefaultBoundaryChars: string := " \t\n.,;:!?)]}>'\""

  /** `boundary_chars`: the configured set, or the default one. */
  function BoundaryChars(cfg: AppConfig): string {
    if cfg.boundaryChars.Some? then cfg.boundaryChars.value else DefaultBoundaryChars
  }

  /** Without a configured set, exactly whitespace (space, tab, newline), the
      sentence punctuation and the closing brackets and quotes end a word. */
  lemma DefaultBoundary(cfg: AppConfig, c: char)
    requires cfg.boundaryChars.None?
    ensures c in BoundaryChars(cfg) <==>
      c in {' ', '\t', '\n', '.', ',', ';', ':', '!', '?', ')', ']', '}', '>', '\'', '"'}
  {
  }

  /** A configured set replaces the default entirely, even when it is empty. */
  lemma ConfiguredBoundary(cfg: AppConfig, c: char)
    requires cfg.boundaryChars.Some?
    ensures c in BoundaryChars(cfg) <==> c in cfg.boundaryChars.value
  {
  }

  // ---------------------------------------------------------------------------
  // Validation, one collection at a time
  // ---------------------------------------------------------------------------

  /** The scan shared by the three loops of `validate`: walk `xs` in order; the
      first element that is bad, or whose key was already seen, ends the scan
      with its error; otherwise its key joins `seen`. */
  function FirstFault<T>(xs: seq<T>, bad: T -> Option<ConfigError>, key: T -> string,
                         dup: T -> ConfigError, seen: set<string>): Outcome<ConfigError>
    decreases |xs|
  {
    if xs == [] then Pass
    else if bad(xs[0]).Some? then Fail(bad(xs[0]).value)
    else if key(xs[0]) in seen then Fail(dup(xs[0]))
    else FirstFault(xs[1..], bad, key, dup, seen + {key(xs[0])})
  }

  /** The scan passes exactly when no element is bad, no key was seen before and
      no two keys are equal. */
  lemma {:induction false} FirstFaultPass<T>(xs: seq<T>, bad: T -> Option<ConfigError>,
                                             key: T -> string, dup: T -> ConfigError,
                                             seen: set<string>)
    ensures FirstFault(xs, bad, key, dup, seen).Pass? <==>
      && (forall i :: 0 <= i < |xs| ==> bad(xs[i]).None? && key(xs[i]) !in seen)
      && (forall i, j :: 0 <= i < j < |xs| ==> key(xs[i]) != key(xs[j]))
    decreases |xs|
  {
    if xs != [] {
      var rest := xs[1..];
      FirstFaultPass(rest, bad, key, dup, seen + {key(xs[0])});
      assert forall i :: 0 <= i < |rest| ==> rest[i] == xs[i + 1];
      if FirstFault(xs, bad, key, dup, seen).Pass? {
        forall i, j | 0 <= i < j < |xs| ensures key(xs[i]) != key(xs[j]) {
          if i > 0 { assert key(rest[i - 1]) != key(rest[j - 1]); }
          else { assert key(rest[j - 1]) !in seen + {key(xs[0])}; }
        }
      }
    }
  }

  /** The keys the scan has met before reaching `xs[i]`. */
  function SeenBefore<T>(xs: seq<T>, i: nat, key: T -> string, seen: set<string>): set<string>
    requires i <= |xs|
  {
    seen + set j | 0 <= j < i :: key(xs[j])
  }

  /** Element `i` is the first fault of the scan: every earlier element is good
      and new, and `xs[i]` is bad or repeats a key met before it. */
  ghost predicate FirstFaultAt<T>(xs: seq<T>, i: nat, bad: T -> Option<ConfigError>,
                                 key: T -> string, seen: set<string>)
  {
    && i < |xs|
    && (forall j :: 0 <= j < i ==> bad(xs[j]).None? && key(xs[j]) !in SeenBefore(xs, j, key, seen))
    && (bad(xs[i]).Some? || key(xs[i]) in SeenBefore(xs, i, key, seen))
  }

  /** The error a faulty element reports: its own fault, or else its duplicate error. */
  function FaultOf<T>(x: T, bad: T -> Option<ConfigError>, dup: T -> ConfigError): ConfigError {
    if bad(x).Some? then bad(x).value else dup(x)
  }

  /** The keys met before `xs[j + 1]` are those met before `xs[1..][j]` once the
      first key has joined `seen`. */
  lemma SeenBeforeShift<T>(xs: seq<T>, j: nat, key: T -> string, seen: set<string>)
    requires 0 < |xs| && j < |xs|
    ensures SeenBefore(xs, j + 1, key, seen) == SeenBefore(xs[1..], j, key, seen + {key(xs[0])})
  {
    var rest := xs[1..];
    forall k | k in SeenBefore(xs, j + 1, key, seen)
      ensures k in SeenBefore(rest, j, key, seen + {key(xs[0])})
    {
      if k !in seen && k != key(xs[0]) {
        var m :| 0 <= m < j + 1 && key(xs[m]) == k;
        assert m > 0 && rest[m - 1] == xs[m];
      }
    }
    forall k | k in SeenBefore(rest, j, key, seen + {key(xs[0])})
      ensures k in SeenBefore(xs, j + 1, key, seen)
    {
      if k !in seen + {key(xs[0])} {
        var m :| 0 <= m < j && key(rest[m]) == k;
        assert rest[m] == xs[m + 1];
      } else if k == key(xs[0]) {
        assert 0 < j + 1;
      }
    }
  }

  /** The scan fails with the error of its first fault: the first element that
      is bad, or whose key was met before it. */
  lemma {:induction false} FirstFaultBlame<T>(xs: seq<T>, bad: T -> Option<ConfigError>,
                                              key: T -> string, dup: T -> ConfigError,
                                              seen: set<string>)
    requires FirstFault(xs, bad, key, dup, seen).Fail?
    ensures exists i: nat :: FirstFaultAt(xs, i, bad, key, seen)
                        && FirstFault(xs, bad, key, dup, seen).error == FaultOf(xs[i], bad, dup)
    decreases |xs|
  {
    assert SeenBefore(xs, 0, key, seen) == seen;
    if bad(xs[0]).None? && key(xs[0]) !in seen {
      var rest := xs[1..];
      var seen' := seen + {key(xs[0])};
      FirstFaultBlame(rest, bad, key, dup, seen');
      var i: nat :| FirstFaultAt(rest, i, bad, key, seen')
               && FirstFault(rest, bad, key, dup, seen').error == FaultOf(rest[i], bad, dup);
      forall j | 0 <= j <= i ensures SeenBefore(xs, j + 1, key, seen) == SeenBefore(rest, j, key, seen') {
        SeenBeforeShift(xs, j, key, seen);
      }
      forall j | 0 <= j < i + 1
        ensures bad(xs[j]).None? && key(xs[j]) !in SeenBefore(xs, j, key, seen)
      {
        if j > 0 { assert xs[j] == rest[j - 1]; }
      }
      assert xs[i + 1] == rest[i];
      assert FirstFaultAt(xs, i + 1, bad, key, seen);
    } else {
      assert FirstFaultAt(xs, 0, bad, key, seen);
    }
  }

  function TriggerFault(rule: ExpansionRule): Option<ConfigError> {
    if rule.trigger == [] then Some(EmptyTrigger) else None
  }

  function TriggerKey(rule: ExpansionRule): string {
    rule.trigger
  }

  function TriggerDuplicate(rule: ExpansionRule): ConfigError {
    DuplicateTrigger(rule.trigger)
  }

  function SnippetFault(snippet: MenuSnippet): Option<ConfigError> {
    if Trim(snippet.title) == [] then Some(EmptySnippetTitle)
    else if snippet.content == [] then Some(EmptySnippetContent)
    else None
  }

  function SnippetKey(snippet: MenuSnippet): string {
    snippet.title
  }

  function SnippetDuplicate(snippet: MenuSnippet): ConfigError {
    DuplicateSnippetTitle(snippet.title)
  }

  function GlobalFault(name: string): Option<ConfigError> {
    var t := Trim(name);
    if t == [] then Some(EmptyGlobalName)
    else if '{' in t || '}' in t || ':' in t then Some(UnsupportedGlobalName(t))
    else None
  }

  function GlobalKey(name: string): string {
    AsciiUpper(Trim(name))
  }

  function GlobalDuplicate(name: string): ConfigError {
    DuplicateGlobalName(Trim(name))
  }

  /** The result of `validate` when the names of `globals` come out of the hash
      map in the order `order`. */
  function ValidateWith(cfg: AppConfig, order: seq<string>): Outcome<ConfigError> {
    if cfg.expansions == [] then Fail(NoExpansions)
    else
      match FirstFault(cfg.expansions, TriggerFault, TriggerKey, TriggerDuplicate, {})
      case Fail(e) => Fail(e)
      case Pass =>
        match FirstFault(cfg.snippets, SnippetFault, SnippetKey, SnippetDuplicate, {})
        case Fail(e) => Fail(e)
        case Pass => FirstFault(order, GlobalFault, GlobalKey, GlobalDuplicate, {})
  }

  /** `order` lists every name of `globals` exactly once. */
  ghost predicate IsEnumeration(order: seq<string>, globals: map<string, string>) {
    && (forall n :: n in globals <==> n in order)
    && (forall i, j :: 0 <= i < j < |order| ==> order[i] != order[j])
  }

  // ---------------------------------------------------------------------------
  // What a valid configuration is
  // ---------------------------------------------------------------------------

  /** A global macro name, once trimmed, is non-empty and holds no '{', '}' or ':'. */
  predicate GlobalNameOk(name: string) {
    var t := Trim(name);
    t != [] && '{' !in t && '}' !in t && ':' !in t
  }

  /** Every rule the validator enforces, stated on the whole configuration. */
  predicate ConfigValid(cfg: AppConfig) {
    var rules, snippets, globals := cfg.expansions, cfg.snippets, cfg.globals;
    && rules != []
    && (forall i :: 0 <= i < |rules| ==> rules[i].trigger != [])
    && (forall i, j :: 0 <= i < j < |rules| ==> rules[i].trigger != rules[j].trigger)
    && (forall i :: 0 <= i < |snippets| ==> Trim(snippets[i].title) != [] && snippets[i].content != [])
    && (forall i, j :: 0 <= i < j < |snippets| ==> snippets[i].title != snippets[j].title)
    && (forall n :: n in globals ==> GlobalNameOk(n))
    && (forall n, m :: n in globals && m in globals && n != m ==> GlobalKey(n) != GlobalKey(m))
  }

  lemma TriggersPass(rules: seq<ExpansionRule>)
    ensures FirstFault(rules, TriggerFault, TriggerKey, TriggerDuplicate, {}).Pass? <==>
      && (forall i :: 0 <= i < |rules| ==> rules[i].trigger != [])
      && (forall i, j :: 0 <= i < j < |rules| ==> rules[i].trigger != rules[j].trigger)
  {
    FirstFaultPass(rules, TriggerFault, TriggerKey, TriggerDuplicate, {});
  }

  lemma SnippetsPass(snippets: seq<MenuSnippet>)
    ensures FirstFault(snippets, SnippetFault, SnippetKey, SnippetDuplicate, {}).Pass? <==>
      && (forall i :: 0 <= i < |snippets| ==> Trim(snippets[i].title) != [] && snippets[i].content != [])
      && (forall i, j :: 0 <= i < j < |snippets| ==> snippets[i].title != snippets[j].title)
  {
    FirstFaultPass(snippets, SnippetFault, SnippetKey, SnippetDuplicate, {});
  }

  /** Scanning an enumeration of a map's names: passes exactly when no name is
      bad and no two distinct names share a key. */
  lemma FirstFaultEnumeration(order: seq<string>, globals: map<string, string>,
                              bad: string -> Option<ConfigError>, key: string -> string,
                              dup: string -> ConfigError)
    requires IsEnumeration(order, globals)
    ensures FirstFault(order, bad, key, dup, {}).Pass? <==>
      && (forall n :: n in globals ==> bad(n).None?)
      && (forall n, m :: n in globals && m in globals && n != m ==> key(n) != key(m))
  {
    FirstFaultPass(order, bad, key, dup, {});
    if FirstFault(order, bad, key, dup, {}).Pass? {
      forall n, m | n in globals && m in globals && n != m ensures key(n) != key(m) {
        var i :| 0 <= i < |order| && order[i] == n;
        var j :| 0 <= j < |order| && order[j] == m;
        if i < j { assert key(order[i]) != key(order[j]); }
        else { assert key(order[j]) != key(order[i]); }
      }
    } else if i :| 0 <= i < |order| && bad(order[i]).Some? {
      assert order[i] in globals;
    } else {
      var i, j :| 0 <= i < j < |order| && key(order[i]) == key(order[j]);
      assert order[i] in globals && order[j] in globals;
    }
  }

  lemma GlobalFaultOk(name: string)
    ensures GlobalFault(name).None? <==> GlobalNameOk(name)
  {
  }

  lemma GlobalsPass(order: seq<string>, globals: map<string, string>)
    requires IsEnumeration(order, globals)
    ensures FirstFault(order, GlobalFault, GlobalKey, GlobalDuplicate, {}).Pass? <==>
      && (forall n :: n in globals ==> GlobalNameOk(n))
      && (forall n, m :: n in globals && m in globals && n != m ==> GlobalKey(n) != GlobalKey(m))
  {
    FirstFaultEnumeration(order, globals, GlobalFault, GlobalKey, GlobalDuplicate);
    forall n ensures GlobalFault(n).None? <==> GlobalNameOk(n) {
      GlobalFaultOk(n);
    }
  }

  /** `validate` succeeds exactly on valid configurations, whatever order the
      hash map yields its names in. */
  lemma ValidateWithValid(cfg: AppConfig, order: seq<string>)
    requires IsEnumeration(order, cfg.globals)
    ensures ValidateWith(cfg, order).Pass? <==> ConfigValid(cfg)
  {
    TriggersPass(cfg.expansions);
    SnippetsPass(cfg.snippets);
    GlobalsPass(order, cfg.globals);
  }

  /** Success or failure does not depend on the iteration order of `globals`. */
  lemma ValidateOrderIndependent(cfg: AppConfig, order1: seq<string>, order2: seq<string>)
    requires IsEnumeration(order1, cfg.globals) && IsEnumeration(order2, cfg.globals)
    ensures ValidateWith(cfg, order1).Pass? == ValidateWith(cfg, order2).Pass?
  {
    ValidateWithValid(cfg, order1);
    ValidateWithValid(cfg, order2);
  }

  /** Loop state: scanning `xs` on from `i` with keys `seen` gives what scanning
      the whole of `xs` from scratch gives. */
  lemma FirstFaultStep<T>(xs: seq<T>, i: nat, bad: T -> Option<ConfigError>, key: T -> string,
                          dup: T -> ConfigError, seen: set<string>)
    requires i < |xs| && bad(xs[i]).None? && key(xs[i]) !in seen
    ensures FirstFault(xs[i..], bad, key, dup, seen)
         == FirstFault(xs[i + 1..], bad, key, dup, seen + {key(xs[i])})
  {
    assert xs[i..][1..] == xs[i + 1..];
  }

  /** The trigger loop of `validate`: an empty trigger, or one already seen,
      stops it. */
  method CheckTriggers(rules: seq<ExpansionRule>) returns (r: Outcome<ConfigError>)
    ensures r == FirstFault(rules, TriggerFault, TriggerKey, TriggerDuplicate, {})
  {
    var seen: set<string> := {};
    var i := 0;
    assert rules[0..] == rules;
    while i < |rules|
      invariant 0 <= i <= |rules|
      invariant FirstFault(rules[i..], TriggerFault, TriggerKey, TriggerDuplicate, seen)
             == FirstFault(rules, TriggerFault, TriggerKey, TriggerDuplicate, {})
    {
      var rule := rules[i];
      if rule.trigger == [] {
        return Fail(EmptyTrigger);
      }
      if rule.trigger in seen {
        return Fail(DuplicateTrigger(rule.trigger));
      }
      FirstFaultStep(rules, i, TriggerFault, TriggerKey, TriggerDuplicate, seen);
      seen := seen + {rule.trigger};
      i := i + 1;
    }
    return Pass;
  }

  /** The snippet loop of `validate`: a blank title, empty content or a title
      already seen stops it. */
  method CheckSnippets(snippets: seq<MenuSnippet>) returns (r: Outcome<ConfigError>)
    ensures r == FirstFault(snippets, SnippetFault, SnippetKey, SnippetDuplicate, {})
  {
    var seenTitles: set<string> := {};
    var i := 0;
    assert snippets[0..] == snippets;
    while i < |snippets|
      invariant 0 <= i <= |snippets|
      invariant FirstFault(snippets[i..], SnippetFault, SnippetKey, SnippetDuplicate, seenTitles)
             == FirstFault(snippets, SnippetFault, SnippetKey, SnippetDuplicate, {})
    {
      var snippet := snippets[i];
      if Trim(snippet.title) == [] {
        return Fail(EmptySnippetTitle);
      }
      if snippet.content == [] {
        return Fail(EmptySnippetContent);
      }
      if snippet.title in seenTitles {
        return Fail(DuplicateSnippetTitle(snippet.title));
      }
      FirstFaultStep(snippets, i, SnippetFault, SnippetKey, SnippetDuplicate, seenTitles);
      seenTitles := seenTitles + {snippet.title};
      i := i + 1;
    }
    return Pass;
  }

  /** The global-name loop of `validate`, over the names in the order `order`:
      a name that trims to nothing or holds a brace or colon, or whose trimmed
      upper-cased form was already seen, stops it. */
  method CheckGlobals(order: seq<string>) returns (r: Outcome<ConfigError>)
    ensures r == FirstFault(order, GlobalFault, GlobalKey, GlobalDuplicate, {})
  {
    var seenNames: set<string> := {};
    var i := 0;
    assert order[0..] == order;
    while i < |order|
      invariant 0 <= i <= |order|
      invariant FirstFault(order[i..], GlobalFault, GlobalKey, GlobalDuplicate, seenNames)
             == FirstFault(order, GlobalFault, GlobalKey, GlobalDuplicate, {})
    {
      var trimmed := Trim(order[i]);
      if trimmed == [] {
        return Fail(EmptyGlobalName);
      }
      if '{' in trimmed || '}' in trimmed || ':' in trimmed {
        return Fail(UnsupportedGlobalName(trimmed));
      }
      var upper := AsciiUpper(trimmed);
      if upper in seenNames {
        return Fail(DuplicateGlobalName(trimmed));
      }
      FirstFaultStep(order, i, GlobalFault, GlobalKey, GlobalDuplicate, seenNames);
      seenNames := seenNames + {upper};
      i := i + 1;
    }
    return Pass;
  }

  /** `validate`: at least one expansion, then the three loops in turn; the
      names of `globals` are visited in the hash map's order `order`. */
  method Validate(cfg: AppConfig, order: seq<string>) returns (r: Outcome<ConfigError>)
    requires IsEnumeration(order, cfg.globals)
    ensures r == ValidateWith(cfg, order)
    ensures r.Pass? <==> ConfigValid(cfg)
  {
    ValidateWithValid(cfg, order);
    if cfg.expansions == [] {
      return Fail(NoExpansions);
    }
    r := CheckTriggers(cfg.expansions);
    if r.Fail? {
      return;
    }
    r := CheckSnippets(cfg.snippets);
    if r.Fail? {
      return;
    }
    r := CheckGlobals(order);
  }
}
