# slykey text expansion, modelled in Dafny

slykey watches the user's keystrokes. When the last characters typed end with a
configured *trigger*, it erases the trigger with backspaces and types the
trigger's *expansion* in its place. An expansion is text mixed with macros:
`{{KEY:ENTER}}` presses a key and `{{SLEEP_MS:50}}` pauses.

This project models three parts of that program.

- **The expansion parser** (`expansion.dfy`). It turns an expansion string
  into a list of output actions: text, key presses and sleeps.
- **The configuration validator** and the boundary-character setting
  (`config.dfy`).
- **The engine** (`engine.dfy`). It is a class holding the configuration, an
  optional output sink and a bounded buffer of recently typed characters. One
  key event at a time, it edits the buffer, looks for a trigger and drives the
  sink.

Supporting modules:

- `wrappers.dfy`: `Option`, `Result` and `Outcome`, the Dafny counterparts of
  Rust's `Option<T>`, `Result<T>` and `Result<()>`.
- `strings.dfy`: the Rust string and integer behaviour the core relies on.
  This covers `str::trim`, `to_ascii_uppercase`, `ends_with`, UTF-8 lengths
  and `u64::from_str`.
- `events.dfy` and `keys.dfy`: the input-event types and the output key names.
- `output.dfy`: the output sink as a class. It records every call made on it
  and the answer it gave, and each call may succeed or fail.

Each part is specified by a pure function, and the imperative code is proved
against it:

- The parsing loop `ParseExpansionActions` ensures `r == Parse(input)`.
  `Parse` is defined by recursion over the input. The lemmas about it give:
  - a round trip (`Parse(Render(acts)) == Ok(acts)`);
  - well-formedness of its output;
  - preservation of the text;
  - the plain-text and unclosed-macro error cases.
- The three loops of `Validate` compute a shared scan, `FirstFault`.
  `Validate` passes exactly when the configuration satisfies `ConfigValid`,
  whatever order the global names come in.
- The engine methods that react to an event ensure `Performed(re, r)`. These
  are `HandleEvent`, `OnPrintableChar`, `OnSpecialKey`, `TryExpandImmediate`,
  `TryExpandBoundary` and `ExecuteExpansion`. Here `re` is the pure reaction
  computed for the event by `React` or the function for that step.
  `Performed` states the new buffer. Through `Carried` it also states the calls
  made on the sink, as a function of the sink's answers, and the result:
  - a refused backspace call stops the expansion before the actions are sent;
  - the result is a success exactly when the sink accepted both calls;
  - only a success empties the buffer.

  The constructor, `SetOutput` and `TruncateBufferIfNeeded` state their new
  fields directly. The lemmas about `React` state which rule fires, the
  backspace count, the buffer bound and what each special key does.
- `Run` is the event-sequence model: it applies `React` to each event in turn
  and records the calls a sink would log if it accepted everything.
  `AcceptedEventRuns` connects it to the class. After one `HandleEvent` with
  an accepting sink, the engine's buffer and the sink's log are the state
  `Run` reaches after that event. By induction on the events, this holds for a
  whole sequence of `HandleEvent` calls. The example sessions are stated on
  `Run`, so they rest on these per-step lemmas.

The example modules hold the Rust unit tests as lemmas, plus a few scenarios of
their own:

- `expansion_examples.dfy` and `config_examples.dfy`: the unit tests of
  src/core/expansion.rs and src/config.rs.
- `engine_examples.dfy`: the two unit tests of src/core/engine.rs
  (`ImmediateSession` and `ModifierSession`). It also has three further
  scenarios with no Rust test behind them:
  - `BoundarySession` and `BoundaryPressEnter` cover boundary mode;
  - `ImmediateScenario` drives an `Engine` and an `OutputSink` through the
    first unit test for every answer the sink may give.

## Model

| member | source | states |
|---|---|---|
| Strings.TrimEmptyIffAllWhitespace | src/config.rs:90 | a string trims to empty exactly when every character is Unicode whitespace (the blank-title and blank-name checks) |
| Strings.TrimSlice | src/config.rs:103 | `trim` removes only whitespace, and only from the two ends |
| Strings.AsciiUpperIdempotent | src/config.rs:110 | upper-casing twice equals upper-casing once, and leaves no ASCII lower-case letter |
| Strings.ParseU64RoundTrip | src/core/expansion.rs:60-62 | every u64 is read back from its decimal spelling, with or without a leading `+` |
| Strings.ParseU64Overflow | src/core/expansion.rs:60-62 | a decimal number above u64::MAX is refused |
| Expansion.ParseSpecialKeyNames | src/core/expansion.rs:67-98 | a name is accepted as key k exactly when its ASCII upper-casing is k's canonical name or its alias (RETURN, ESCAPE); the lookup ignores case |
| Expansion.ParseSpecialKeyUnknown | src/core/expansion.rs:96 | any other name is refused with an unknown-key error carrying the upper-cased name |
| Expansion.LookupKeySound | src/core/expansion.rs:70-96 | every name the table accepts is a spelling of the key it yields |
| Expansion.LookupKeyComplete | src/core/expansion.rs:70-96 | every spelling of every key is in the table, with that key |
| Expansion.ParseKeyName | src/core/expansion.rs:67-98 | each key's canonical name parses back to that key |
| Expansion.FirstIndexOf | src/core/expansion.rs:52-54 | the index returned holds the first ':' of the body, and None means there is no ':' |
| Expansion.ReadNamedMacro | src/core/expansion.rs:58-65 | a macro reads successfully exactly when its name is KEY with a known key or SLEEP_MS with a valid u64, and never reads as text |
| Expansion.ParseMacro | src/core/expansion.rs:51-65 | a body with no ':' is an invalid-format error and only then; a success is never a text action |
| Expansion.ParseMacroUnsupported | src/core/expansion.rs:55-64 | a name other than KEY or SLEEP_MS (after trim and upper-casing) is an unsupported-macro error naming it |
| Expansion.ParseMacroSplit | src/core/expansion.rs:52-56 | `name:value` splits at its first ':' into a trimmed, upper-cased name and a trimmed value |
| Expansion.ParseMacroBody | src/core/expansion.rs:51-65 | the spelling of a KEY or SLEEP_MS action reads back as that action |
| Expansion.OpensMacroAt | src/core/expansion.rs:43-45 | a macro opens or closes at i exactly when "{{" or "}}" starts at i |
| Expansion.FindMacroEnd | src/core/expansion.rs:47-49 | the result is the first "}}" at or after `start`, and None means there is none |
| Expansion.ScanParses | src/core/expansion.rs:18-38 | scanning on from any loop state gives the pending actions and text, followed by the parse of the rest of the input |
| Expansion.ScanActions | src/core/expansion.rs:12-41 | the scanning loop returns exactly the parse of the input, for any macro reader that never yields text |
| Expansion.ParseExpansionActions | src/core/expansion.rs:12-41 | `parse_expansion_actions` returns exactly `Parse(input)` |
| Expansion.ParseFromUnclosedHere | src/core/expansion.rs:24-25 | a "{{" with no "}}" after it ends the parse with an unclosed-macro error at its byte offset |
| Expansion.ParseFromBadMacro | src/core/expansion.rs:24-27 | a closed macro whose body does not read ends the parse with that body's error |
| Expansion.ParseWellFormed | src/core/expansion.rs:12-41 | a successful parse holds no empty Text and no two adjacent Texts |
| Expansion.ParseKeepsText | src/core/expansion.rs:12-41 | the Text payloads of a successful parse spell the input with every `{{...}}` span removed |
| Expansion.ParsePlainText | src/core/expansion.rs:18-40 | input without "{{" parses to a single Text action, or to nothing when empty |
| Expansion.ParseUnclosed | src/core/expansion.rs:18-25 | when the first "{{" is never closed, the parse fails with the byte offset of that "{{" |
| Expansion.ParseFromTextRun | src/core/expansion.rs:18-34 | a run of characters with no "{{" joins the front of what follows it |
| Expansion.ParseFromMacroAt | src/core/expansion.rs:19-29 | a closed macro that reads as `a` puts `a` in front of the parse of what follows it |
| Expansion.RenderSpells | src/core/expansion.rs:12-41 | the spelling of an action list, after any prefix, spells that list piece by piece |
| Expansion.ParseRender | src/core/expansion.rs:12-41 | round trip: a renderable action list parses back from its own spelling |
| ExpansionExamples.PlainExample | src/core/expansion.rs:106-115 | "hello world" parses to one Text action |
| ExpansionExamples.MixedExample | src/core/expansion.rs:117-139 | "Hi{{KEY:ENTER}}{{SLEEP_MS:50}}there" parses to Text, Key(Enter), SleepMs(50), Text |
| ExpansionExamples.UnclosedExample | src/core/expansion.rs:141-146 | "x{{KEY:ENTER" fails as an unclosed macro at byte 1 |
| Config.DefaultBoundary | src/config.rs:118-122 | with no configured set, the boundary characters are exactly space, tab, newline and `.,;:!?)]}>'"` |
| Config.ConfiguredBoundary | src/config.rs:118-122 | a configured set replaces the default, even when it is empty |
| Config.FirstFaultPass | src/config.rs:78-113 | a validation loop passes exactly when no element is bad, no key was seen before and the keys are pairwise distinct |
| Config.FirstFaultBlame | src/config.rs:78-113 | a failing loop reports the error of its first fault: every earlier element is good with a key not met before, and the blamed element is bad (its own error) or repeats a key met before it (its duplicate error) |
| Config.TriggersPass | src/config.rs:78-86 | trigger validation passes exactly when every trigger is non-empty and the triggers are pairwise distinct |
| Config.SnippetsPass | src/config.rs:88-99 | snippet validation passes exactly when every title is non-blank, every content is non-empty and the titles (untrimmed) are pairwise distinct |
| Config.GlobalFaultOk | src/config.rs:103-109 | a global name passes its own checks exactly when, trimmed, it is non-empty and holds no '{', '}' or ':' |
| Config.GlobalsPass | src/config.rs:101-113 | global-name validation passes exactly when every name passes its own checks and no two names agree once trimmed and upper-cased |
| Config.FirstFaultEnumeration | src/config.rs:101-113 | scanning any enumeration of a map's names passes exactly when the map's names are all good with distinct keys |
| Config.CheckTriggers | src/config.rs:78-86 | the trigger loop returns the first empty or repeated trigger's error, or success |
| Config.CheckSnippets | src/config.rs:88-99 | the snippet loop returns the first blank title, empty content or repeated title error, or success |
| Config.CheckGlobals | src/config.rs:101-113 | the global-name loop returns the first blank, malformed or case-insensitively repeated name's error, or success |
| Config.ValidateWithValid | src/config.rs:73-116 | validation passes exactly on configurations that satisfy every rule |
| Config.ValidateOrderIndependent | src/config.rs:101-113 | whether validation passes does not depend on the iteration order of the globals map |
| Config.Validate | src/config.rs:73-116 | `validate` returns the first error in the source's order and passes exactly on valid configurations |
| ConfigExamples.RejectsEmptyExpansions | src/config.rs:165-179 | a configuration with no expansions is refused with the no-expansions error |
| ConfigExamples.RejectsDuplicateTriggers | src/config.rs:181-195 | two rules with the same trigger are refused with a duplicate-trigger error naming it |
| ConfigExamples.DefaultBoundaryWhenUnset | src/config.rs:197-210 | an unset boundary set yields the default string |
| ConfigExamples.RejectsBlankSnippetTitle | src/config.rs:212-226 | a whitespace-only snippet title is refused |
| ConfigExamples.RejectsDuplicateSnippetTitles | src/config.rs:228-247 | two snippets with the same title are refused with a duplicate-title error naming it |
| Engine.MaxTriggerChars | src/core/engine.rs:20-25 | the result is the length of the longest trigger, and 0 when there are no rules |
| Engine.TruncateKeepsNewest | src/core/engine.rs:199-207 | truncation keeps the newest min(length, bound) characters, in order |
| Engine.TruncateKeepsSuffixes | src/core/engine.rs:199-207 | a string no longer than the bound ends the truncated buffer exactly when it ends the whole buffer |
| Engine.FirstMatch | src/core/engine.rs:129-130 | the index returned is the first rule, in configured order, whose trigger ends the candidate; None means no trigger does |
| Engine.TruncateKeepsFirstMatch | src/core/engine.rs:199-207 | truncating to a bound of at least the longest trigger never changes which rule fires |
| Engine.MapInputKeyToOutputKey | src/core/engine.rs:214-220 | only Enter and Tab map to an output key, each to its namesake |
| Engine.IgnoredEvents | src/core/engine.rs:45-51 | releases and injected events leave the buffer alone and send nothing |
| Engine.PrintableWins | src/core/engine.rs:53-56 | a press carrying a character is handled as that character, whatever special key it also carries |
| Engine.PrintableBuffer | src/core/engine.rs:65-67 | after a typed character, the buffer holds the newest typed characters within the bound, ending with that character |
| Engine.ImmediateFiresFirst | src/core/engine.rs:128-141 | immediate mode fires the first rule whose trigger ends the buffer, erasing the trigger's characters |
| Engine.ImmediateNoMatch | src/core/engine.rs:128-141 | immediate mode does nothing exactly when no trigger ends the buffer |
| Engine.BoundaryWaits | src/core/engine.rs:72-76 | in boundary mode a non-boundary character only edits the buffer |
| Engine.BoundaryCharFires | src/core/engine.rs:148-182 | a boundary character fires the first rule whose trigger ends the buffer before it; the erase count includes that character, which is typed again after the expansion |
| Engine.BoundaryKeyFires | src/core/engine.rs:148-182 | Enter or Tab in boundary mode fires the first rule whose trigger ends the buffer; the key is counted among the backspaces and pressed again after the expansion |
| Engine.SpecialKeyEdits | src/core/engine.rs:104-126 | Backspace drops the last character; modifiers keep the buffer; Enter and Tab keep it in boundary mode and clear it otherwise; other keys clear it; only Enter and Tab in boundary mode can fire |
| Engine.AcceptingSinkGetsSent | src/core/engine.rs:186-197 | with a sink that accepts every call, an expansion that parses succeeds and sends exactly the backspaces and then the actions, the calls the event-sequence model `Run` records |
| Engine.AcceptedEventRuns | src/core/engine.rs:44-63 | one handled event, with a sink that accepts every call, leaves the buffer and the sink's log where `Run` goes after that event, so n `HandleEvent` calls log what `Run` records for the n events |
| Engine.Engine.IsBoundaryChar | src/core/engine.rs:209-211 | a character is a boundary exactly when it is in the configured boundary set, or in the default set when none is configured |
| Engine.Engine.constructor | src/core/engine.rs:19-34 | a new engine has the given configuration, no sink, an empty buffer and the longest-trigger bound |
| Engine.Engine.SetOutput | src/core/engine.rs:40-42 | the sink is installed and the buffer is unchanged |
| Engine.Engine.TruncateBufferIfNeeded | src/core/engine.rs:199-207 | the buffer becomes its newest `max + 8` characters |
| Engine.Engine.ExecuteExpansion | src/core/engine.rs:186-197 | sends the backspaces, and the actions only if the sink accepted the backspaces; it succeeds and empties the buffer exactly when the sink accepted both, and otherwise fails with the sink error and keeps the buffer; without a sink it only empties the buffer |
| Engine.Engine.TryExpandImmediate | src/core/engine.rs:128-141 | fires the first rule whose trigger ends the buffer. A parse error of its expansion is returned with no sink call. The sink's answers decide the result and the buffer, as in `ExecuteExpansion`. Without a match, nothing changes |
| Engine.Engine.TryExpandBoundary | src/core/engine.rs:143-184 | fires the first rule whose trigger ends the buffer less the typed character, re-typing the boundary. A parse error is returned with no sink call. The sink's answers decide the result and the buffer, as in `ExecuteExpansion` |
| Engine.Engine.OnPrintableChar | src/core/engine.rs:65-80 | appends and truncates, then fires the plan for the match mode. A parse error or a refused sink call propagates, leaving the edited buffer |
| Engine.Engine.OnSpecialKey | src/core/engine.rs:104-126 | edits the buffer as the key demands. On Enter or Tab in boundary mode it fires the boundary plan, whose parse and sink failures propagate |
| Engine.Engine.HandleEvent | src/core/engine.rs:44-63 | carries out the reaction `React` gives for the event, keeping the buffer within its bound. Given the sink's answers, the result, the sink calls and the buffer are all determined |
| EngineExamples.ImmediateSession | src/core/engine.rs:284-303 | typing ";g" in immediate mode sends two backspaces and then the text "hello", and leaves the buffer empty |
| EngineExamples.ModifierSession | src/core/engine.rs:305-335 | a Shift press between "tg" and "@" keeps the buffer, so three backspaces and the address are sent |
| EngineExamples.BoundarySession | src/core/engine.rs:65-80 | in boundary mode ";g" sends nothing, and the following space sends three backspaces, then "hello" and " " |
| EngineExamples.BoundaryPressEnter | src/core/engine.rs:114-118 | in boundary mode Enter after ";g" erases three characters and sends "hello" followed by an Enter press |
| EngineExamples.ImmediateScenario | src/core/engine.rs:284-303 | typing ";g" on an engine with a sink asks for two backspaces, and then for "hello" only if the backspaces were accepted. The session succeeds with an empty buffer exactly when both calls were accepted, and otherwise fails with the sink error and keeps ";g" |

## Left out

- Debug logging (`set_debug`, `log_possible_match_buffer`,
  `find_possible_trigger_suffix` and the `eprintln!` calls). Their only effect is
  diagnostic output.
- `AppConfig::load` and `resolve_default_config_path`. They read files and the
  environment.
- The configuration's notification and `watch` fields. The core never reads
  them.
- The platform layer, the command line, `main`, the tray menu and the instance
  lock. These are outside the core.
- What the output sink does with a call (injecting key presses into the
  desktop). The sink is a class that records each call and its answer.
  Whether a call succeeds is left open, so every answer is covered.
- `HashMap` iteration order in `validate`. It is unspecified, so it is a
  parameter (`order`, any enumeration of the names). `ValidateOrderIndependent`
  shows the verdict does not depend on it.
- Config.Validate: which error is reported when there are several depends on the
  map's order; the contract gives that error only for the order passed in.
- Engine.Engine.TruncateBufferIfNeeded: `usize` saturating arithmetic is not
  modelled. Counts are unbounded naturals, and no buffer can reach
  `usize::MAX` characters.
- The parser scans characters where the Rust code scans bytes. The two are
  equivalent because "{{" and "}}" are ASCII, and ASCII bytes never occur inside
  a multi-byte UTF-8 character. The unclosed-macro error still carries a byte
  offset, computed as the UTF-8 length of the prefix.
- Rust `char::is_whitespace` and `to_ascii_uppercase` are written out
  character by character. There is no other Unicode processing.
- src/io/events.rs lists no modifier keys, while
  `on_special_key` matches Shift, Ctrl, Alt, Meta and CapsLock. The model
  follows `on_special_key` and adds these five keys to `SpecialInputKey`.
- The engine's unit tests build an `AppConfig` without its snippet and globals
  fields. The examples supply empty ones.

## Notes on the code

These behaviours are easy to miss:

- In boundary mode the typed boundary character is appended after the
  expansion as its own `Text` action. An expansion that ends in text therefore
  yields two adjacent `Text` actions (see `EngineExamples.BoundarySession`).
- Duplicate snippet titles are compared untrimmed, while blank titles are
  detected after trimming. So "a" and " a" are accepted together.
- The engine does not validate its configuration itself. A rule with an empty
  trigger, which `validate` refuses, would match every buffer. `FirstMatch`
  and `ImmediateFiresFirst` cover that case too.
