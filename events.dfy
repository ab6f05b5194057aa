/** The inbound key events the platform layer hands to the engine. */
module Events {
  import opened Wrappers

  datatype KeyEventKind = Press | Release

  /** A non-printable key. The five modifier keys at the end are produced by the X11
      mapper and matched by the engine. */
  datatype SpecialInputKey =
    | Enter | Tab | Backspace | Escape
    | Left | Right | Up | Down | Home | End | Delete | PageUp | PageDown
    | F1 | F2 | F3 | F4 | F5 | F6 | F7 | F8 | F9 | F10 | F11 | F12
    | Unknown
    | Shift | Ctrl | Alt | Meta | CapsLock

  /** One key event. A press from the X11 mapper may carry both a `printable`
      character and a `special` key; a release carries only `special`. */
  datatype KeyEvent = KeyEvent(
    kind: KeyEventKind,
    printable: Option<char>,
    special: Option<SpecialInputKey>,
    isInjected: bool)
}
