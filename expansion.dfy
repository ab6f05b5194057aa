/** The action parser: an expansion string becomes an ordered list of output
    actions. Literal text is collected into `Text` actions; each `{{NAME:VALUE}}`
    span is a macro, and only `KEY` and `SLEEP_MS` exist. */
module Expansion {
  import opened Wrappers
  import opened Strings
  import opened Keys

  datatype OutputAction =
    | Text(text: string)
    | Key(key: SpecialKey)
    | SleepMs(ms: u64)

  /** Why an expansion string was refused. */
  datatype ParseError =
    | UnclosedMacro(byteOffset: nat)   // "unclosed macro starting at byte {i}"
    | InvalidMacroFormat(body: string) // no ':' in the trimmed body
    | UnsupportedMacro(name: string)   // upper-cased name other than KEY / SLEEP_MS
    | UnknownSpecialKey(name: string)  // upper-cased key name not in the table
    | InvalidSleepValue(value: string) // not a u64

  // ---------------------------------------------------------------------------
  // Key names
  // ---------------------------------------------------------------------------

  /** The key table of `parse_special_key`, keyed on the upper-cased name;
      RETURN is an alias of ENTER and ESCAPE of ESC. */
  function LookupKey(u: string): Option<SpecialKey> {
    if u == "ENTER" || u == "RETURN" then Some(Enter)
    else if u == "TAB" then Some(Tab)
    else if u == "ESC" || u == "ESCAPE" then Some(Escape)
    else if u == "BACKSPACE" then Some(Backspace)
    else if u == "SPACE" then Some(Space)
    else if u == "LEFT" then Some(Left)
    else if u == "RIGHT" then Some(Right)
    else if u == "UP" then Some(Up)
    else if u == "DOWN" then Some(Down)
    else if u == "HOME" then Some(Home)
    else if u == "END" then Some(End)
    else if u == "DELETE" then Some(Delete)
    else if u == "PAGEUP" then Some(PageUp)
    else if u == "PAGEDOWN" then Some(PageDown)
    else if u == "F1" then Some(F1)
    else if u == "F2" then Some(F2)
    else if u == "F3" then Some(F3)
    else if u == "F4" then Some(F4)
    else if u == "F5" then Some(F5)
    else if u == "F6" then Some(F6)
    else if u == "F7" then Some(F7)
    else if u == "F8" then Some(F8)
    else if u == "F9" then Some(F9)
    else if u == "F10" then Some(F10)
    else if u == "F11" then Some(F11)
    else if u == "F12" then Some(F12)
    else None
  }

  /** `parse_special_key`: the name is upper-cased (ASCII) and looked up; an
      unknown name is reported upper-cased. */
  function ParseSpecialKey(name: string): Result<SpecialKey, ParseError> {
    var u := AsciiUpper(name);
    match LookupKey(u)
    case Some(k) => Ok(k)
    case None => Err(UnknownSpecialKey(u))
  }

  /** The canonical (upper-case) macro spelling of each key. */
  function KeyName(k: SpecialKey): string {
    match k
    case Enter => "ENTER"
    case Tab => "TAB"
    case Escape => "ESC"
    case Backspace => "BACKSPACE"
    case Space => "SPACE"
    case Left => "LEFT"
    case Right => "RIGHT"
    case Up => "UP"
    case Down => "DOWN"
    case Home => "HOME"
    case End => "END"
    case Delete => "DELETE"
    case PageUp => "PAGEUP"
    case PageDown => "PAGEDOWN"
    case F1 => "F1"
    case F2 => "F2"
    case F3 => "F3"
    case F4 => "F4"
    case F5 => "F5"
    case F6 => "F6"
    case F7 => "F7"
    case F8 => "F8"
    case F9 => "F9"
    case F10 => "F10"
    case F11 => "F11"
    case F12 => "F12"
  }

  /** Every upper-case spelling that names `k`: its canonical name and its alias. */
  function KeyNames(k: SpecialKey): set<string> {
    match k
    case Enter => {"ENTER", "RETURN"}
    case Escape => {"ESC", "ESCAPE"}
    case _ => {KeyName(k)}
  }

  /** Every name the table accepts is a spelling of the key it yields. */
  lemma LookupKeySound(u: string)
    ensures LookupKey(u).Some? ==> u in KeyNames(LookupKey(u).value)
  {
    // split by the length of `u`, so that each case meets only a few table rows
    if |u| < 2 || (|u| == 2 && u[0] != 'F') { LookupKeySoundShort(u); }
    else if |u| == 2 { LookupKeySoundFunction(u); }
    else if |u| == 3 { LookupKeySoundThree(u); }
    else if |u| <= 5 { LookupKeySoundMedium(u); }
    else { LookupKeySoundLong(u); }
  }

  lemma LookupKeySoundShort(u: string)
    requires |u| < 2 || (|u| == 2 && u[0] != 'F')
    ensures LookupKey(u).Some? ==> u in KeyNames(LookupKey(u).value)
  {
  }

  lemma LookupKeySoundFunction(u: string)
    requires |u| == 2 && u[0] == 'F'
    ensures LookupKey(u).Some? ==> u in KeyNames(LookupKey(u).value)
  {
  }

  lemma LookupKeySoundThree(u: string)
    requires |u| == 3
    ensures LookupKey(u).Some? ==> u in KeyNames(LookupKey(u).value)
  {
  }

  lemma LookupKeySoundMedium(u: string)
    requires 3 < |u| <= 5
    ensures LookupKey(u).Some? ==> u in KeyNames(LookupKey(u).value)
  {
  }

  lemma LookupKeySoundLong(u: string)
    requires 5 < |u|
    ensures LookupKey(u).Some? ==> u in KeyNames(LookupKey(u).value)
  {
  }

  /** Every spelling of a key is in the table, with that key. */
  lemma LookupKeyComplete(k: SpecialKey)
    ensures forall u :: u in KeyNames(k) ==> LookupKey(u) == Some(k)
  {
    // split by table row, so that each case looks up only a few names
    if k.Enter? || k.Tab? || k.Escape? || k.Backspace? || k.Space? || k.Left? || k.Right? { LookupEditingComplete(k); }
    else if k.Up? || k.Down? || k.Home? || k.End? || k.Delete? || k.PageUp? || k.PageDown? { LookupNavigationComplete(k); }
    else if k.F1? || k.F2? || k.F3? || k.F4? { LookupLowFunctionComplete(k); }
    else if k.F5? || k.F6? || k.F7? || k.F8? { LookupMidFunctionComplete(k); }
    else { LookupHighFunctionComplete(k); }
  }

  lemma LookupEditingComplete(k: SpecialKey)
    requires k.Enter? || k.Tab? || k.Escape? || k.Backspace? || k.Space? || k.Left? || k.Right?
    ensures forall u :: u in KeyNames(k) ==> LookupKey(u) == Some(k)
  {
  }

  lemma LookupNavigationComplete(k: SpecialKey)
    requires k.Up? || k.Down? || k.Home? || k.End? || k.Delete? || k.PageUp? || k.PageDown?
    ensures forall u :: u in KeyNames(k) ==> LookupKey(u) == Some(k)
  {
  }

  lemma LookupLowFunctionComplete(k: SpecialKey)
    requires k.F1? || k.F2? || k.F3? || k.F4?
    ensures forall u :: u in KeyNames(k) ==> LookupKey(u) == Some(k)
  {
  }

  lemma LookupMidFunctionComplete(k: SpecialKey)
    requires k.F5? || k.F6? || k.F7? || k.F8?
    ensures forall u :: u in KeyNames(k) ==> LookupKey(u) == Some(k)
  {
  }

  lemma LookupHighFunctionComplete(k: SpecialKey)
    requires k.F9? || k.F10? || k.F11? || k.F12?
    ensures forall u :: u in KeyNames(k) ==> LookupKey(u) == Some(k)
  {
  }

  /** A key name is accepted exactly when its ASCII upper-casing is one of the
      spellings of the key it yields; the lookup is case-insensitive. */
  lemma ParseSpecialKeyNames(name: string, k: SpecialKey)
    ensures ParseSpecialKey(name) == Ok(k) <==> AsciiUpper(name) in KeyNames(k)
  {
    LookupKeySound(AsciiUpper(name));
    LookupKeyComplete(k);
  }

  /** Any other name is refused, and the error carries it upper-cased. */
  lemma ParseSpecialKeyUnknown(name: string)
    requires forall k :: AsciiUpper(name) !in KeyNames(k)
    ensures ParseSpecialKey(name) == Err(UnknownSpecialKey(AsciiUpper(name)))
  {
    LookupKeySound(AsciiUpper(name));
  }

  // ---------------------------------------------------------------------------
  // Macro bodies
  // ---------------------------------------------------------------------------

  /** `str::split_once(c)`: the index of the first `c` in `s`. */
  function FirstIndexOf(s: string, c: char): (r: Option<nat>)
    ensures r.Some? ==> r.value < |s| && s[r.value] == c && c !in s[..r.value]
    ensures r.None? ==> c !in s
    decreases |s|
  {
    if s == [] then None
    else if s[0] == c then Some(0)
    else
      match FirstIndexOf(s[1..], c)
      case None => None
      case Some(i) => Some(i + 1)
  }

  /** The `match` of `parse_macro` on the trimmed, upper-cased name and the
      trimmed value. */
  function ReadNamedMacro(name: string, value: string): (r: Result<OutputAction, ParseError>)
    ensures r.Ok? ==> !r.value.Text?
    ensures r.Ok? <==> (name == "KEY" && ParseSpecialKey(value).Ok?) || (name == "SLEEP_MS" && ParseU64(value).Some?)
  {
    if name == "KEY" then
      match ParseSpecialKey(value)
      case Ok(k) => Ok(Key(k))
      case Err(e) => Err(e)
    else if name == "SLEEP_MS" then
      match ParseU64(value)
      case Some(ms) => Ok(SleepMs(ms))
      case None => Err(InvalidSleepValue(value))
    else Err(UnsupportedMacro(name))
  }

  /** `parse_macro`: split the (already trimmed) body at its first ':', trim and
      upper-case the name, trim the value, and interpret the two known macros. */
  function ParseMacro(body: string): (r: Result<OutputAction, ParseError>)
    ensures r.Ok? ==> !r.value.Text?
    ensures r == Err(InvalidMacroFormat(body)) <==> ':' !in body
  {
    match FirstIndexOf(body, ':')
    case None => Err(InvalidMacroFormat(body))
    case Some(i) => ReadNamedMacro(AsciiUpper(Trim(body[..i])), Trim(body[i + 1..]))
  }

  lemma FirstIndexOfAt(s: string, c: char, i: nat)
    requires i < |s| && s[i] == c && c !in s[..i]
    ensures FirstIndexOf(s, c) == Some(i)
  {
  }

  /** A macro whose name is neither KEY nor SLEEP_MS (after trimming and
      upper-casing) is refused with that name. */
  lemma ParseMacroUnsupported(body: string, i: nat)
    requires i < |body| && body[i] == ':' && ':' !in body[..i]
    requires AsciiUpper(Trim(body[..i])) != "KEY" && AsciiUpper(Trim(body[..i])) != "SLEEP_MS"
    ensures ParseMacro(body) == Err(UnsupportedMacro(AsciiUpper(Trim(body[..i]))))
  {
    FirstIndexOfAt(body, ':', i);
  }

  /** The macro spelling of an action (the inverse of parsing, for one action):
      `KEY:<name>` or `SLEEP_MS:<milliseconds>`. */
  function MacroBody(a: OutputAction): string
    requires !a.Text?
  {
    MacroName(a) + ":" + MacroValue(a)
  }

  function MacroName(a: OutputAction): string
    requires !a.Text?
  {
    if a.Key? then "KEY" else "SLEEP_MS"
  }

  function MacroValue(a: OutputAction): string
    requires !a.Text?
  {
    match a
    case Key(k) => KeyName(k)
    case SleepMs(ms) => DecimalString(ms as nat)
  }

  predicate KeyNameChar(c: char) {
    'A' <= c <= 'Z' || IsDigit(c)
  }

  /** Key names are non-empty runs of upper-case letters and digits. */
  lemma KeyNameSpelling(k: SpecialKey)
    ensures KeyName(k) != []
    ensures forall i :: 0 <= i < |KeyName(k)| ==> KeyNameChar(KeyName(k)[i])
    ensures KeyName(k) in KeyNames(k)
  {
  }

  /** Splitting `name:value` at its first ':' when `name` has none. */
  lemma SplitAtColon(name: string, value: string)
    requires ':' !in name
    ensures FirstIndexOf(name + ":" + value, ':') == Some(|name|)
    ensures (name + ":" + value)[..|name|] == name
    ensures (name + ":" + value)[|name| + 1..] == value
  {
    var body := name + ":" + value;
    assert body[..|name|] == name;
    FirstIndexOfAt(body, ':', |name|);
  }

  /** A body `name:value` whose name has no ':' reads as its trimmed parts. */
  lemma ParseMacroSplit(name: string, value: string)
    requires ':' !in name
    ensures ParseMacro(name + ":" + value) == ReadNamedMacro(AsciiUpper(Trim(name)), Trim(value))
  {
    SplitAtColon(name, value);
  }

  /** Names made of printable ASCII characters other than lower-case letters
      (upper-case letters, digits, '_', ...) are left alone by trimming and
      upper-casing. */
  lemma PlainName(name: string)
    requires name != [] && PlainChars(name)
    ensures Trim(name) == name && AsciiUpper(name) == name
  {
    assert '!' <= name[0] <= '`' && '!' <= name[|name| - 1] <= '`';
    TrimIdentity(name);
    AsciiUpperOfUpper(name);
  }

  predicate PlainChars(s: string) {
    forall i :: 0 <= i < |s| ==> '!' <= s[i] <= '`'
  }

  /** A macro body spelled `name:value` from plain names reads as those names. */
  lemma ReadPlainMacro(name: string, value: string)
    requires name != [] && value != [] && PlainChars(name) && PlainChars(value) && ':' !in name
    ensures ParseMacro(Trim(name + ":" + value)) == ReadNamedMacro(name, value)
  {
    var body := name + ":" + value;
    assert PlainChars(body) by {
      forall i | 0 <= i < |body| ensures '!' <= body[i] <= '`' {
        if i < |name| { assert body[i] == name[i]; }
        else if i > |name| { assert body[i] == value[i - |name| - 1]; }
      }
    }
    PlainName(body);
    PlainName(name);
    PlainName(value);
    ParseMacroSplit(name, value);
  }

  lemma ReadKeyMacro(value: string, k: SpecialKey)
    requires ParseSpecialKey(value) == Ok(k)
    ensures ReadNamedMacro("KEY", value) == Ok(Key(k))
  {
  }

  lemma ReadSleepMacro(value: string, ms: u64)
    requires ParseU64(value) == Some(ms)
    ensures ReadNamedMacro("SLEEP_MS", value) == Ok(SleepMs(ms))
  {
  }

  /** Every key's canonical name parses back to that key. */
  lemma ParseKeyName(k: SpecialKey)
    ensures ParseSpecialKey(KeyName(k)) == Ok(k)
  {
    KeyNameSpelling(k);
    AsciiUpperOfUpper(KeyName(k));
    LookupKeyComplete(k);
  }

  lemma KeyNamePlain(k: SpecialKey)
    ensures KeyName(k) != [] && PlainChars(KeyName(k))
  {
    KeyNameSpelling(k);
  }

  lemma DecimalPlain(n: nat)
    ensures DecimalString(n) != [] && PlainChars(DecimalString(n))
  {
  }

  lemma KeyMacroBody(k: SpecialKey)
    ensures ParseMacro(Trim(MacroBody(Key(k)))) == Ok(Key(k))
  {
    var value := KeyName(k);
    KeyNamePlain(k);
    ReadPlainMacro("KEY", value);
    ParseKeyName(k);
    ReadKeyMacro(value, k);
  }

  lemma SleepMacroBody(ms: u64)
    ensures ParseMacro(Trim(MacroBody(SleepMs(ms)))) == Ok(SleepMs(ms))
  {
    var value := DecimalString(ms as nat);
    DecimalPlain(ms as nat);
    ReadPlainMacro("SLEEP_MS", value);
    ParseU64RoundTrip(ms);
    ReadSleepMacro(value, ms);
  }

  /** Reading back the spelling of a `KEY` or `SLEEP_MS` action gives the action. */
  lemma ParseMacroBody(a: OutputAction)
    requires !a.Text?
    ensures ParseMacro(Trim(MacroBody(a))) == Ok(a)
  {
    match a
    case Key(k) => KeyMacroBody(k);
    case SleepMs(ms) => SleepMacroBody(ms);
  }

  // ---------------------------------------------------------------------------
  // Scanning
  // ---------------------------------------------------------------------------

  /** `starts_with_at(bytes, i, b"{{")`: a macro opens at `i`. */
  predicate OpensMacro(s: string, i: nat) {
    i + 2 <= |s| && s[i] == '{' && s[i + 1] == '{'
  }

  /** `}}` starts at `i`. */
  predicate ClosesMacro(s: string, i: nat) {
    i + 2 <= |s| && s[i] == '}' && s[i + 1] == '}'
  }

  lemma OpensMacroAt(s: string, i: nat)
    ensures OpensMacro(s, i) <==> StartsWithAt(s, i, "{{")
    ensures ClosesMacro(s, i) <==> StartsWithAt(s, i, "}}")
  {
    if i + 2 <= |s| {
      assert s[i..i + 2] == [s[i], s[i + 1]];
    }
  }

  /** `find_macro_end`: the position of the first "}}" at or after `start`. */
  function FindMacroEnd(s: string, start: nat): (r: Option<nat>)
    requires start <= |s|
    ensures r.Some? ==> start <= r.value && r.value + 2 <= |s| && ClosesMacro(s, r.value)
    ensures r.Some? ==> forall j :: start <= j < r.value ==> !ClosesMacro(s, j)
    ensures r.None? ==> forall j :: start <= j ==> !ClosesMacro(s, j)
    decreases |s| - start
  {
    if start + 2 > |s| then None
    else if ClosesMacro(s, start) then Some(start)
    else FindMacroEnd(s, start + 1)
  }

  /** Puts text `t` in front of an action list, merging it into a leading `Text`:
      the effect of one more character in the pending text run. */
  function PrependText(t: string, rest: seq<OutputAction>): seq<OutputAction> {
    if t == [] then rest
    else if rest != [] && rest[0].Text? then [Text(t + rest[0].text)] + rest[1..]
    else [Text(t)] + rest
  }

  /** An interpretation of trimmed macro bodies. The scanner below is written
      over any such interpretation, so that facts about scanning need not look
      inside `ParseMacro`; `Parse` fixes it to `ReadMacro`. */
  type MacroReader = string -> Result<OutputAction, ParseError>

  /** Macros never read as `Text`. */
  ghost predicate ReadsNoText(read: MacroReader) {
    forall b :: read(b).Ok? ==> !read(b).value.Text?
  }

  /** The step `parse_macro(body.trim())` applied to each macro body. */
  function ReadMacro(body: string): (r: Result<OutputAction, ParseError>)
    ensures r.Ok? ==> !r.value.Text?
  {
    ParseMacro(Trim(body))
  }

  lemma ReadMacroReadsNoText()
    ensures ReadsNoText(ReadMacro)
  {
  }

  /** The actions that `s` from index `k` on parses to, macros being read by
      `read`. Error offsets are bytes from the start of the whole input. */
  function ParseFrom(read: MacroReader, s: string, k: nat): Result<seq<OutputAction>, ParseError>
    requires k <= |s|
    decreases |s| - k, 1
  {
    if k == |s| then Ok([])
    else if OpensMacro(s, k) then MacroFrom(read, s, k)
    else
      match ParseFrom(read, s, k + 1)
      case Err(e) => Err(e)
      case Ok(rest) => Ok(PrependText([s[k]], rest))
  }

  /** The actions that `s` parses to from the "{{" at `k` on. */
  function MacroFrom(read: MacroReader, s: string, k: nat): Result<seq<OutputAction>, ParseError>
    requires k + 2 <= |s| && OpensMacro(s, k)
    decreases |s| - k, 0
  {
    match FindMacroEnd(s, k + 2)
    case None => Err(UnclosedMacro(Utf8Length(s[..k])))
    case Some(end) =>
      match read(s[k + 2..end])
      case Err(e) => Err(e)
      case Ok(a) =>
        match ParseFrom(read, s, end + 2)
        case Err(e) => Err(e)
        case Ok(rest) => Ok([a] + rest)
  }

  /** The meaning of `parse_expansion_actions`. */
  function Parse(s: string): Result<seq<OutputAction>, ParseError> {
    ParseFrom(ReadMacro, s, 0)
  }

  /** What the parsing loop of `ParseExpansionActions` returns when the actions
      flushed so far are `acts`, the pending text run is `buf` and the rest of the
      input parses to `rest`. */
  function Assemble(acts: seq<OutputAction>, buf: string,
                    rest: Result<seq<OutputAction>, ParseError>): Result<seq<OutputAction>, ParseError>
  {
    match rest
    case Err(e) => Err(e)
    case Ok(r) => Ok(acts + PrependText(buf, r))
  }

  /** `mem::take` of a non-empty pending text run into the action list. */
  function Flush(acts: seq<OutputAction>, buf: string): seq<OutputAction> {
    if buf == [] then acts else acts + [Text(buf)]
  }

  lemma PrependTextSnoc(buf: string, c: char, rest: seq<OutputAction>)
    ensures PrependText(buf, PrependText([c], rest)) == PrependText(buf + [c], rest)
  {
    if buf != [] {
      if rest != [] && rest[0].Text? {
        var mid := [Text([c] + rest[0].text)] + rest[1..];
        assert mid[0].text == [c] + rest[0].text && mid[1..] == rest[1..];
        assert buf + ([c] + rest[0].text) == (buf + [c]) + rest[0].text;
      } else {
        var mid := [Text([c])] + rest;
        assert mid[0].text == [c] && mid[1..] == rest;
      }
    } else {
      assert [] + [c] == [c];
    }
  }

  /** One literal character moves from the input into the pending run. */
  lemma AssembleTextStep(read: MacroReader, s: string, k: nat, acts: seq<OutputAction>, buf: string)
    requires k < |s| && !OpensMacro(s, k)
    ensures Assemble(acts, buf, ParseFrom(read, s, k)) == Assemble(acts, buf + [s[k]], ParseFrom(read, s, k + 1))
  {
    var rest := ParseFrom(read, s, k + 1);
    if rest.Ok? {
      PrependTextSnoc(buf, s[k], rest.value);
    }
  }

  lemma PrependTextMacro(buf: string, a: OutputAction, r: seq<OutputAction>)
    requires !a.Text?
    ensures PrependText(buf, [a] + r) == (if buf == [] then [] else [Text(buf)]) + [a] + r
  {
  }

  lemma AssembleMacro(acts: seq<OutputAction>, buf: string, a: OutputAction, r: seq<OutputAction>)
    requires !a.Text?
    ensures Assemble(acts, buf, Ok([a] + r)) == Assemble(Flush(acts, buf) + [a], [], Ok(r))
  {
    PrependTextMacro(buf, a, r);
    assert acts + PrependText(buf, [a] + r) == Flush(acts, buf) + [a] + r;
  }

  /** A macro flushes the pending run and is appended after it. */
  lemma AssembleMacroStep(read: MacroReader, s: string, k: nat, end: nat, a: OutputAction,
                          acts: seq<OutputAction>, buf: string)
    requires k + 2 <= |s| && OpensMacro(s, k)
    requires FindMacroEnd(s, k + 2) == Some(end)
    requires read(s[k + 2..end]) == Ok(a) && !a.Text?
    ensures Assemble(acts, buf, ParseFrom(read, s, k)) == Assemble(Flush(acts, buf) + [a], [], ParseFrom(read, s, end + 2))
  {
    var rest := ParseFrom(read, s, end + 2);
    if rest.Ok? {
      AssembleMacro(acts, buf, a, rest.value);
    }
  }

  /** A "{{" with no "}}" after it ends the parse with an error. */
  lemma ParseFromUnclosedHere(read: MacroReader, s: string, k: nat)
    requires k + 2 <= |s| && OpensMacro(s, k)
    requires FindMacroEnd(s, k + 2).None?
    ensures ParseFrom(read, s, k) == Err(UnclosedMacro(Utf8Length(s[..k])))
  {
  }

  /** A macro body that does not read ends the parse with its error. */
  lemma ParseFromBadMacro(read: MacroReader, s: string, k: nat, end: nat)
    requires k + 2 <= |s| && OpensMacro(s, k)
    requires FindMacroEnd(s, k + 2) == Some(end)
    requires read(s[k + 2..end]).Err?
    ensures ParseFrom(read, s, k) == Err(read(s[k + 2..end]).error)
  {
  }

  /** What the scanning loop of `ParseExpansionActions` returns once it reaches
      index `i` with the actions flushed so far `acts` and the pending text run
      `buf`. */
  function Scan(read: MacroReader, s: string, i: nat, acts: seq<OutputAction>, buf: string): Result<seq<OutputAction>, ParseError>
    requires i <= |s|
    decreases |s| - i
  {
    if i == |s| then Ok(Flush(acts, buf))
    else if OpensMacro(s, i) then
      match FindMacroEnd(s, i + 2)
      case None => Err(UnclosedMacro(Utf8Length(s[..i])))
      case Some(end) =>
        match read(s[i + 2..end])
        case Err(e) => Err(e)
        case Ok(a) => Scan(read, s, end + 2, Flush(acts, buf) + [a], [])
    else Scan(read, s, i + 1, acts, buf + [s[i]])
  }

  /** The loop computes the parse: scanning on from any state gives what the
      state already holds followed by the parse of the rest. */
  lemma {:induction false} ScanParses(read: MacroReader, s: string, i: nat, acts: seq<OutputAction>, buf: string)
    requires ReadsNoText(read) && i <= |s|
    ensures Scan(read, s, i, acts, buf) == Assemble(acts, buf, ParseFrom(read, s, i))
    decreases |s| - i
  {
    if i == |s| {
      assert PrependText(buf, []) == if buf == [] then [] else [Text(buf)];
      assert acts + [] == acts;
    } else if OpensMacro(s, i) {
      var end := FindMacroEnd(s, i + 2);
      if end.None? {
        ParseFromUnclosedHere(read, s, i);
      } else if read(s[i + 2..end.value]).Err? {
        ParseFromBadMacro(read, s, i, end.value);
      } else {
        var a := read(s[i + 2..end.value]).value;
        ScanParses(read, s, end.value + 2, Flush(acts, buf) + [a], []);
        AssembleMacroStep(read, s, i, end.value, a, acts, buf);
      }
    } else {
      ScanParses(read, s, i + 1, acts, buf + [s[i]]);
      AssembleTextStep(read, s, i, acts, buf);
    }
  }

  /** The loop of `parse_expansion_actions`: scan the input once, accumulating
      literal characters in a pending text run that is flushed as a `Text` action
      before each macro and at the end; each macro body goes to `read`. */
  method ScanActions(read: MacroReader, input: string) returns (r: Result<seq<OutputAction>, ParseError>)
    requires ReadsNoText(read)
    ensures r == ParseFrom(read, input, 0)
  {
    assert Scan(read, input, 0, [], []) == ParseFrom(read, input, 0) by {
      ScanParses(read, input, 0, [], []);
      if ParseFrom(read, input, 0).Ok? {
        assert [] + ParseFrom(read, input, 0).value == ParseFrom(read, input, 0).value;
      }
    }
    var actions: seq<OutputAction> := [];
    var textBuf: string := [];
    var i := 0;
    while i < |input|
      invariant 0 <= i <= |input|
      invariant Scan(read, input, i, actions, textBuf) == ParseFrom(read, input, 0)
      decreases |input| - i
    {
      if OpensMacro(input, i) {
        ghost var flushed := Flush(actions, textBuf);
        if textBuf != [] {
          actions := actions + [Text(textBuf)];
          textBuf := [];
        }
        assert actions == flushed && textBuf == [];
        var end := FindMacroEnd(input, i + 2);
        if end.None? {
          return Err(UnclosedMacro(Utf8Length(input[..i])));
        }
        var m := read(input[i + 2..end.value]);
        if m.Err? {
          return Err(m.error);
        }
        actions := actions + [m.value];
        i := end.value + 2;
        continue;
      }
      textBuf := textBuf + [input[i]];
      i := i + 1;
    }
    if textBuf != [] {
      actions := actions + [Text(textBuf)];
    }
    return Ok(actions);
  }

  /** `parse_expansion_actions`: the loop above with `parse_macro(body.trim())`
      as the macro reader. */
  method ParseExpansionActions(input: string) returns (r: Result<seq<OutputAction>, ParseError>)
    ensures r == Parse(input)
  {
    ReadMacroReadsNoText();
    r := ScanActions(ReadMacro, input);
  }

  // ---------------------------------------------------------------------------
  // Properties of the parse
  // ---------------------------------------------------------------------------

  /** No `Text` action is empty and no two `Text` actions are adjacent. */
  ghost predicate WellFormed(acts: seq<OutputAction>) {
    && (forall i :: 0 <= i < |acts| && acts[i].Text? ==> acts[i].text != [])
    && (forall i :: 0 < i < |acts| && acts[i].Text? ==> !acts[i - 1].Text?)
  }

  lemma WellFormedPrepend(t: string, rest: seq<OutputAction>)
    requires t != [] && WellFormed(rest)
    ensures WellFormed(PrependText(t, rest))
  {
    var out := PrependText(t, rest);
    if rest != [] && rest[0].Text? {
      assert forall i :: 0 < i < |out| ==> out[i] == rest[i];
    } else {
      assert forall i :: 0 < i < |out| ==> out[i] == rest[i - 1];
    }
  }

  lemma WellFormedCons(a: OutputAction, rest: seq<OutputAction>)
    requires !a.Text? && WellFormed(rest)
    ensures WellFormed([a] + rest)
  {
    var out := [a] + rest;
    assert forall i :: 0 < i < |out| ==> out[i] == rest[i - 1];
  }

  lemma {:induction false} ParseFromWellFormed(read: MacroReader, s: string, k: nat)
    requires ReadsNoText(read) && k <= |s|
    ensures ParseFrom(read, s, k).Ok? ==> WellFormed(ParseFrom(read, s, k).value)
    decreases |s| - k
  {
    if k < |s| {
      if OpensMacro(s, k) {
        var end := FindMacroEnd(s, k + 2);
        if end.Some? {
          ParseFromWellFormed(read, s, end.value + 2);
          var m := read(s[k + 2..end.value]);
          var rest := ParseFrom(read, s, end.value + 2);
          if m.Ok? && rest.Ok? {
            WellFormedCons(m.value, rest.value);
          }
        }
      } else {
        ParseFromWellFormed(read, s, k + 1);
        var rest := ParseFrom(read, s, k + 1);
        if rest.Ok? {
          WellFormedPrepend([s[k]], rest.value);
        }
      }
    }
  }

  /** A successful parse holds no empty `Text` and no two adjacent `Text`s. */
  lemma ParseWellFormed(s: string)
    ensures Parse(s).Ok? ==> WellFormed(Parse(s).value)
  {
    ReadMacroReadsNoText();
    ParseFromWellFormed(ReadMacro, s, 0);
  }

  /** The concatenation of the `Text` payloads of an action list. */
  function TextOf(acts: seq<OutputAction>): string {
    if acts == [] then []
    else (if acts[0].Text? then acts[0].text else []) + TextOf(acts[1..])
  }

  /** `s` from index `k` on with every closed `{{...}}` span removed. */
  function StripMacros(s: string, k: nat): string
    requires k <= |s|
    decreases |s| - k
  {
    if k == |s| then []
    else if OpensMacro(s, k) && FindMacroEnd(s, k + 2).Some? then
      StripMacros(s, FindMacroEnd(s, k + 2).value + 2)
    else [s[k]] + StripMacros(s, k + 1)
  }

  lemma TextOfPrepend(t: string, rest: seq<OutputAction>)
    ensures TextOf(PrependText(t, rest)) == t + TextOf(rest)
  {
    if t != [] && rest != [] && rest[0].Text? {
      var out := [Text(t + rest[0].text)] + rest[1..];
      assert out[1..] == rest[1..];
      assert TextOf(rest) == rest[0].text + TextOf(rest[1..]);
    } else if t != [] {
      assert ([Text(t)] + rest)[1..] == rest;
    }
  }

  lemma TextOfMacro(a: OutputAction, rest: seq<OutputAction>)
    requires !a.Text?
    ensures TextOf([a] + rest) == TextOf(rest)
  {
    assert ([a] + rest)[1..] == rest;
  }

  /** The text of a parse from `k`, when it succeeds, is the stripped input from `k`. */
  ghost predicate KeepsTextFrom(read: MacroReader, s: string, k: nat)
    requires k <= |s|
  {
    ParseFrom(read, s, k).Ok? ==> TextOf(ParseFrom(read, s, k).value) == StripMacros(s, k)
  }

  lemma ParseFromTextMacro(read: MacroReader, s: string, k: nat, end: nat)
    requires ReadsNoText(read) && k + 2 <= |s| && OpensMacro(s, k)
    requires FindMacroEnd(s, k + 2) == Some(end) && KeepsTextFrom(read, s, end + 2)
    ensures KeepsTextFrom(read, s, k)
  {
    var m := read(s[k + 2..end]);
    var rest := ParseFrom(read, s, end + 2);
    if m.Ok? && rest.Ok? {
      TextOfMacro(m.value, rest.value);
    }
  }

  lemma ParseFromTextChar(read: MacroReader, s: string, k: nat)
    requires k < |s| && !OpensMacro(s, k) && KeepsTextFrom(read, s, k + 1)
    ensures KeepsTextFrom(read, s, k)
  {
    var rest := ParseFrom(read, s, k + 1);
    if rest.Ok? {
      TextOfPrepend([s[k]], rest.value);
    }
  }

  lemma {:induction false} ParseFromText(read: MacroReader, s: string, k: nat)
    requires ReadsNoText(read) && k <= |s|
    ensures KeepsTextFrom(read, s, k)
    decreases |s| - k
  {
    if k < |s| {
      if OpensMacro(s, k) {
        var end := FindMacroEnd(s, k + 2);
        if end.Some? {
          ParseFromText(read, s, end.value + 2);
          ParseFromTextMacro(read, s, k, end.value);
        }
      } else {
        ParseFromText(read, s, k + 1);
        ParseFromTextChar(read, s, k);
      }
    }
  }

  /** Text content is preserved: the `Text` payloads of a successful parse spell
      the input with every `{{...}}` span removed. */
  lemma ParseKeepsText(s: string)
    ensures Parse(s).Ok? ==> TextOf(Parse(s).value) == StripMacros(s, 0)
  {
    ReadMacroReadsNoText();
    ParseFromText(ReadMacro, s, 0);
  }

  /** There is no `{{` in `s` at or after index `k`. */
  predicate NoMacroFrom(s: string, k: nat) {
    forall j :: k <= j < |s| ==> !OpensMacro(s, j)
  }

  lemma {:induction false} ParseFromPlain(read: MacroReader, s: string, k: nat)
    requires k <= |s| && NoMacroFrom(s, k)
    ensures ParseFrom(read, s, k) == Ok(if k == |s| then [] else [Text(s[k..])])
    decreases |s| - k
  {
    if k < |s| {
      ParseFromPlain(read, s, k + 1);
      assert [s[k]] + s[k + 1..] == s[k..];
      if k + 1 < |s| {
        var rest := [Text(s[k + 1..])];
        assert rest[0].text == s[k + 1..] && rest[1..] == [];
        assert PrependText([s[k]], rest) == [Text(s[k..])];
      } else {
        assert s[k..] == [s[k]];
        assert PrependText([s[k]], []) == [Text([s[k]])] + [];
        assert [Text([s[k]])] + [] == [Text(s[k..])];
      }
    }
  }

  /** Input without `{{` is a single `Text` action, or nothing when empty. */
  lemma ParsePlainText(s: string)
    requires NoMacroFrom(s, 0)
    ensures Parse(s) == Ok(if s == [] then [] else [Text(s)])
  {
    ParseFromPlain(ReadMacro, s, 0);
    assert s[0..] == s;
  }

  lemma {:induction false} ParseFromUnclosed(read: MacroReader, s: string, k: nat, p: nat)
    requires k <= p && p + 2 <= |s| && OpensMacro(s, p)
    requires forall j :: k <= j < p ==> !OpensMacro(s, j)
    requires forall j :: p + 2 <= j ==> !ClosesMacro(s, j)
    ensures ParseFrom(read, s, k) == Err(UnclosedMacro(Utf8Length(s[..p])))
    decreases p - k
  {
    if k < p {
      ParseFromUnclosed(read, s, k + 1, p);
    } else {
      assert FindMacroEnd(s, p + 2).None?;
    }
  }

  /** A first `{{` with no `}}` after it is an unclosed-macro error carrying the
      byte offset of that `{{`. */
  lemma ParseUnclosed(s: string, p: nat)
    requires p + 2 <= |s| && OpensMacro(s, p)
    requires forall j :: 0 <= j < p ==> !OpensMacro(s, j)
    requires forall j :: p + 2 <= j ==> !ClosesMacro(s, j)
    ensures Parse(s) == Err(UnclosedMacro(Utf8Length(s[..p])))
  {
    ParseFromUnclosed(ReadMacro, s, 0, p);
  }

  lemma PrependTextCons(c: char, t: string, rest: seq<OutputAction>)
    ensures PrependText([c], PrependText(t, rest)) == PrependText([c] + t, rest)
  {
    if t == [] {
      assert [c] + t == [c];
    } else if rest != [] && rest[0].Text? {
      var mid := [Text(t + rest[0].text)] + rest[1..];
      assert mid[0].text == t + rest[0].text && mid[1..] == rest[1..];
      assert [c] + (t + rest[0].text) == ([c] + t) + rest[0].text;
    } else {
      var mid := [Text(t)] + rest;
      assert mid[0].text == t && mid[1..] == rest;
    }
  }

  /** Parsing from `k` is parsing from `j` with the text `s[k..j]` put in front. */
  ghost predicate TextRun(read: MacroReader, s: string, k: nat, j: nat)
    requires k <= j <= |s|
  {
    && (ParseFrom(read, s, k).Ok? <==> ParseFrom(read, s, j).Ok?)
    && (ParseFrom(read, s, j).Ok? ==>
          ParseFrom(read, s, k).value == PrependText(s[k..j], ParseFrom(read, s, j).value))
  }

  lemma TextRunStep(read: MacroReader, s: string, k: nat, j: nat)
    requires k < j <= |s| && !OpensMacro(s, k) && TextRun(read, s, k + 1, j)
    ensures TextRun(read, s, k, j)
  {
    var rest := ParseFrom(read, s, j);
    if rest.Ok? {
      PrependTextCons(s[k], s[k + 1..j], rest.value);
      assert [s[k]] + s[k + 1..j] == s[k..j];
    }
  }

  /** A run of text with no `{{` in it joins the front of what follows it. */
  lemma {:induction false} ParseFromTextRun(read: MacroReader, s: string, k: nat, j: nat)
    requires k <= j <= |s| && forall p :: k <= p < j ==> !OpensMacro(s, p)
    ensures TextRun(read, s, k, j)
    decreases j - k
  {
    if k < j {
      ParseFromTextRun(read, s, k + 1, j);
      TextRunStep(read, s, k, j);
    } else {
      assert s[k..j] == [];
    }
  }

  /** A closed macro that reads as `a` puts `a` in front of what follows it. */
  lemma ParseFromMacroAt(read: MacroReader, s: string, k: nat, end: nat, a: OutputAction)
    requires k + 2 <= |s| && OpensMacro(s, k)
    requires FindMacroEnd(s, k + 2) == Some(end) && read(s[k + 2..end]) == Ok(a)
    ensures ParseFrom(read, s, k).Ok? <==> ParseFrom(read, s, end + 2).Ok?
    ensures ParseFrom(read, s, end + 2).Ok? ==>
      ParseFrom(read, s, k).value == [a] + ParseFrom(read, s, end + 2).value
  {
  }

  // ---------------------------------------------------------------------------
  // Spelling actions back out
  // ---------------------------------------------------------------------------

  /** How the body of each macro action is spelled between `{{` and `}}`. The
      facts about spelling are proved for any speller, so that they need not look
      inside `MacroBody`; `Render` fixes it to `MacroSpelling`. */
  type Speller = OutputAction -> string

  /** `MacroBody` for macro actions; text actions are spelled as their text. */
  function MacroSpelling(a: OutputAction): string {
    if a.Text? then a.text else MacroBody(a)
  }

  /** The expansion string spelling an action list: texts as they are, macros as
      `{{` + body + `}}`. */
  function RenderWith(body: Speller, acts: seq<OutputAction>): string
    decreases |acts|
  {
    if acts == [] then []
    else if acts[0].Text? then acts[0].text + RenderWith(body, acts[1..])
    else ("{{" + body(acts[0]) + "}}") + RenderWith(body, acts[1..])
  }

  function Render(acts: seq<OutputAction>): string {
    RenderWith(MacroSpelling, acts)
  }

  /** Action lists that the parser can produce from their own spelling: well
      formed, with no '{' in any text (so no text opens a macro). */
  ghost predicate Renderable(acts: seq<OutputAction>) {
    WellFormed(acts) && forall i :: 0 <= i < |acts| && acts[i].Text? ==> '{' !in acts[i].text
  }

  /** `read` reads every macro body spelled by `body` back as its action, and no
      such body holds a '}'. */
  ghost predicate ReadsBack(read: MacroReader, body: Speller) {
    forall a: OutputAction :: !a.Text? ==> '}' !in body(a) && read(body(a)) == Ok(a)
  }

  lemma ReadMacroReadsBack()
    ensures ReadsBack(ReadMacro, MacroSpelling)
  {
    forall a: OutputAction | !a.Text?
      ensures '}' !in MacroSpelling(a) && ReadMacro(MacroSpelling(a)) == Ok(a)
    {
      MacroBodyPlain(a);
      assert forall i :: 0 <= i < |MacroBody(a)| ==> '!' <= MacroBody(a)[i] <= '`';
      ParseMacroBody(a);
    }
  }

  lemma PlainCharsConcat(a: string, b: string)
    requires PlainChars(a) && PlainChars(b)
    ensures PlainChars(a + b)
  {
    forall i | 0 <= i < |a + b| ensures '!' <= (a + b)[i] <= '`' {
      if i >= |a| { assert (a + b)[i] == b[i - |a|]; }
    }
  }

  /** Macro spellings hold no brace. */
  lemma MacroBodyPlain(a: OutputAction)
    requires !a.Text?
    ensures PlainChars(MacroBody(a))
  {
    match a
    case Key(k) => KeyNamePlain(k);
    case SleepMs(ms) => DecimalPlain(ms as nat);
    PlainCharsConcat(MacroName(a), ":");
    PlainCharsConcat(MacroName(a) + ":", MacroValue(a));
  }

  /** The first `}}` from `start` on is at `e` when no '}' comes before it. */
  lemma {:induction false} FindMacroEndAt(s: string, start: nat, e: nat)
    requires start <= e && ClosesMacro(s, e)
    requires forall j :: start <= j < e ==> s[j] != '}'
    ensures FindMacroEnd(s, start) == Some(e)
    decreases e - start
  {
    if start < e {
      FindMacroEndAt(s, start + 1, e);
    }
  }

  /** `s` from index `k` on is exactly the spelling of `acts`, piece by piece. */
  predicate SpellsAt(body: Speller, s: string, k: nat, acts: seq<OutputAction>)
    decreases |acts|
  {
    if acts == [] then k == |s|
    else if acts[0].Text? then
      var t := acts[0].text;
      k + |t| <= |s| && s[k..k + |t|] == t && SpellsAt(body, s, k + |t|, acts[1..])
    else
      var b := body(acts[0]);
      var e := k + 2 + |b|;
      e + 2 <= |s| && OpensMacro(s, k) && s[k + 2..e] == b && ClosesMacro(s, e)
      && SpellsAt(body, s, e + 2, acts[1..])
  }

  lemma ParseSpelledText(read: MacroReader, s: string, k: nat, t: string, rest: seq<OutputAction>)
    requires t != [] && '{' !in t && (rest == [] || !rest[0].Text?)
    requires k + |t| <= |s| && s[k..k + |t|] == t
    requires ParseFrom(read, s, k + |t|) == Ok(rest)
    ensures ParseFrom(read, s, k) == Ok([Text(t)] + rest)
  {
    forall j | k <= j < k + |t| ensures !OpensMacro(s, j) {
      assert s[j] == s[k..k + |t|][j - k];
    }
    ParseFromTextRun(read, s, k, k + |t|);
  }

  lemma ParseSpelledMacro(read: MacroReader, s: string, k: nat, b: string, a: OutputAction, rest: seq<OutputAction>)
    requires '}' !in b && read(b) == Ok(a)
    requires k + 2 + |b| + 2 <= |s| && OpensMacro(s, k) && s[k + 2..k + 2 + |b|] == b
    requires ClosesMacro(s, k + 2 + |b|)
    requires ParseFrom(read, s, k + 2 + |b| + 2) == Ok(rest)
    ensures ParseFrom(read, s, k) == Ok([a] + rest)
  {
    var e := k + 2 + |b|;
    forall j | k + 2 <= j < e ensures s[j] != '}' {
      assert s[j] == s[k + 2..e][j - k - 2];
    }
    FindMacroEndAt(s, k + 2, e);
    ParseFromMacroAt(read, s, k, e, a);
  }

  lemma RenderableTail(acts: seq<OutputAction>)
    requires acts != [] && Renderable(acts)
    ensures Renderable(acts[1..])
    ensures acts[0].Text? ==> acts[0].text != [] && '{' !in acts[0].text
    ensures acts[0].Text? && |acts| > 1 ==> !acts[1].Text?
  {
    var rest := acts[1..];
    forall i | 0 <= i < |rest| && rest[i].Text? ensures rest[i].text != [] && '{' !in rest[i].text {
      assert rest[i] == acts[i + 1];
    }
    forall i | 0 < i < |rest| && rest[i].Text? ensures !rest[i - 1].Text? {
      assert rest[i] == acts[i + 1] && rest[i - 1] == acts[i];
    }
  }

  /** A renderable list spelled out from `k` on parses back from `k`. */
  lemma {:induction false} ParseSpelled(read: MacroReader, body: Speller, s: string, k: nat, acts: seq<OutputAction>)
    requires ReadsBack(read, body) && Renderable(acts) && SpellsAt(body, s, k, acts)
    ensures k <= |s| && ParseFrom(read, s, k) == Ok(acts)
    decreases |acts|
  {
    if acts != [] {
      var a, rest := acts[0], acts[1..];
      RenderableTail(acts);
      assert acts == [a] + rest;
      if a.Text? {
        ParseSpelled(read, body, s, k + |a.text|, rest);
        ParseSpelledText(read, s, k, a.text, rest);
      } else {
        var b := body(a);
        ParseSpelled(read, body, s, k + 2 + |b| + 2, rest);
        ParseSpelledMacro(read, s, k, b, a, rest);
      }
    }
  }

  /** Spelling a text in front of a spelled tail. */
  lemma SpellsText(body: Speller, p: string, t: string, r: string, rest: seq<OutputAction>)
    requires SpellsAt(body, (p + t) + r, |p| + |t|, rest)
    ensures SpellsAt(body, p + (t + r), |p|, [Text(t)] + rest)
  {
    var s := p + (t + r);
    assert s == (p + t) + r;
    assert s[|p|..|p| + |t|] == t;
    assert ([Text(t)] + rest)[1..] == rest;
  }

  /** Spelling a macro in front of a spelled tail. */
  lemma SpellsMacro(body: Speller, p: string, a: OutputAction, r: string, rest: seq<OutputAction>)
    requires !a.Text?
    requires SpellsAt(body, (p + ("{{" + body(a) + "}}")) + r, |p| + 2 + |body(a)| + 2, rest)
    ensures SpellsAt(body, p + (("{{" + body(a) + "}}") + r), |p|, [a] + rest)
  {
    RenderSpellsMacro(p, body(a), r);
    SpellsAtMacro(body, p + (("{{" + body(a) + "}}") + r), |p|, a, rest);
  }

  lemma RenderSpellsMacro(p: string, b: string, r: string)
    ensures var s := p + (("{{" + b + "}}") + r); var k := |p|; var e := k + 2 + |b|;
      && e + 2 <= |s| && OpensMacro(s, k) && s[k + 2..e] == b && ClosesMacro(s, e)
      && s == (p + ("{{" + b + "}}")) + r
  {
    var s := p + (("{{" + b + "}}") + r);
    var q, t := p + "{{", "}}" + r;
    var k, e := |p|, |p| + 2 + |b|;
    assert s == q + b + t;
    assert s[k] == q[k] == '{' && s[k + 1] == q[k + 1] == '{';
    assert s[e] == t[0] == '}' && s[e + 1] == t[1] == '}';
    assert s[k + 2..e] == b;
    assert s == (p + ("{{" + b + "}}")) + r;
  }

  lemma SpellsAtMacro(body: Speller, s: string, k: nat, a: OutputAction, rest: seq<OutputAction>)
    requires !a.Text?
    requires var e := k + 2 + |body(a)|;
      e + 2 <= |s| && OpensMacro(s, k) && s[k + 2..e] == body(a) && ClosesMacro(s, e)
      && SpellsAt(body, s, e + 2, rest)
    ensures SpellsAt(body, s, k, [a] + rest)
  {
    assert ([a] + rest)[1..] == rest;
  }

  lemma RenderWithCons(body: Speller, acts: seq<OutputAction>)
    requires acts != []
    ensures acts == [acts[0]] + acts[1..]
    ensures acts[0].Text? ==> RenderWith(body, acts) == acts[0].text + RenderWith(body, acts[1..])
    ensures !acts[0].Text? ==>
      RenderWith(body, acts) == ("{{" + body(acts[0]) + "}}") + RenderWith(body, acts[1..])
  {
  }

  /** The spelling of `acts`, after any prefix `p`, spells `acts` from `|p|` on. */
  lemma {:induction false} RenderSpells(body: Speller, p: string, acts: seq<OutputAction>)
    ensures SpellsAt(body, p + RenderWith(body, acts), |p|, acts)
    decreases |acts|
  {
    if acts == [] {
      assert p + RenderWith(body, acts) == p;
    } else {
      var a, rest := acts[0], acts[1..];
      var r := RenderWith(body, rest);
      RenderWithCons(body, acts);
      if a.Text? {
        RenderSpells(body, p + a.text, rest);
        SpellsText(body, p, a.text, r, rest);
      } else {
        RenderSpells(body, p + ("{{" + body(a) + "}}"), rest);
        SpellsMacro(body, p, a, r, rest);
      }
    }
  }

  /** A renderable list parses back from its spelling, whatever the speller, as
      long as the macro reader reads each spelled body back. */
  lemma ParseRenderWith(read: MacroReader, body: Speller, acts: seq<OutputAction>)
    requires ReadsBack(read, body) && Renderable(acts)
    ensures ParseFrom(read, RenderWith(body, acts), 0) == Ok(acts)
  {
    RenderSpells(body, [], acts);
    assert [] + RenderWith(body, acts) == RenderWith(body, acts);
    ParseSpelled(read, body, RenderWith(body, acts), 0, acts);
  }

  /** Round trip: a renderable action list parses back from its own spelling. */
  lemma ParseRender(acts: seq<OutputAction>)
    requires Renderable(acts)
    ensures Parse(Render(acts)) == Ok(acts)
  {
    ReadMacroReadsBack();
    ParseRenderWith(ReadMacro, MacroSpelling, acts);
  }
}
