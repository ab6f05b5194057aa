/** The special keys an expansion can tap (the output side's key set). */
module Keys {
  datatype SpecialKey =
    | Enter | Tab | Escape | Backspace | Space
    | Left | Right | Up | Down | Home | End | Delete | PageUp | PageDown
    | F1 | F2 | F3 | F4 | F5 | F6 | F7 | F8 | F9 | F10 | F11 | F12
}
