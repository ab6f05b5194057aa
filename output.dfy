/** The output side: where an expansion's backspaces and actions go. */
module Output {
  import opened Expansion

  /** One call made on a sink. */
  datatype SinkCall =
    | Backspaces(count: nat)
    | Actions(actions: seq<OutputAction>)

  /** An output sink, seen from the engine: it records every call made on it, in
      order, and the answer it gave to each (`true` for success). What the sink does with a call (injecting
      key presses into the desktop) is outside the model. */
  class OutputSink {
    ghost var calls: seq<SinkCall>
    ghost var answers: seq<bool>

    constructor()
      ensures calls == [] && answers == []
    {
      calls := [];
      answers := [];
    }

    /** `send_backspaces`. */
    method SendBackspaces(count: nat) returns (ok: bool)
      modifies this
      ensures calls == old(calls) + [Backspaces(count)]
      ensures answers == old(answers) + [ok]
    {
      calls := calls + [Backspaces(count)];
      ok := *;
      answers := answers + [ok];
    }

    /** `send_actions`. */
    method SendActions(actions: seq<OutputAction>) returns (ok: bool)
      modifies this
      ensures calls == old(calls) + [Actions(actions)]
      ensures answers == old(answers) + [ok]
    {
      calls := calls + [Actions(actions)];
      ok := *;
      answers := answers + [ok];
    }
  }
}
