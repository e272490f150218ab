/** The operating-system side of the server, reduced to what the model can
    observe: socket handles are valid or invalid, and every `WSASend` is
    logged as a call whose immediate outcome comes from a script. Receives,
    accepts and completion-port binds are plain boolean inputs of the
    operations that issue them. */
module Os {
  import opened Bytes

  /** A `SOCKET`: `INVALID_SOCKET` or some open handle. */
  datatype Socket = InvalidSocket | Handle(h: nat)

  /** One `WSASend(socket, {buf, len})` as issued. */
  datatype Call = Call(socket: Socket, bytes: seq<Byte>)

  /** Immediate outcome of a `WSASend` (true: completed or pending, false:
      failed with an error other than `WSA_IO_PENDING`) and the script left
      afterwards. A call on an invalid socket always fails and uses no
      scripted outcome; once the script is exhausted every call is accepted. */
  function SendOutcome(socket: Socket, script: seq<bool>): (bool, seq<bool>)
  {
    if socket.InvalidSocket? then (false, script)
    else if script == [] then (true, [])
    else (script[0], script[1..])
  }

  /** The script of `WSASend` outcomes left after `calls` were issued from
      `script`. */
  function ScriptAfter(script: seq<bool>, calls: seq<Call>): seq<bool>
  {
    if calls == [] then script
    else SendOutcome(calls[|calls| - 1].socket, ScriptAfter(script, calls[..|calls| - 1])).1
  }

  /** Issuing `a` and then `b` leaves the script issuing `a + b` does. */
  lemma {:induction false} ScriptAfterAppend(script: seq<bool>, a: seq<Call>, b: seq<Call>)
    ensures ScriptAfter(script, a + b) == ScriptAfter(ScriptAfter(script, a), b)
    decreases |b|
  {
    if b == [] {
      assert a + b == a;
    } else {
      var init := b[..|b| - 1];
      ScriptAfterAppend(script, a, init);
      assert (a + b)[..|a + b| - 1] == a + init;
    }
  }

  class Network {
    /** Outcomes of the coming `WSASend` calls, in order. */
    var script: seq<bool>
    /** Every `WSASend` issued so far, in order. */
    var calls: seq<Call>

    constructor (outcomes: seq<bool>)
      ensures script == outcomes && calls == []
    {
      script := outcomes;
      calls := [];
    }

    method WSASend(socket: Socket, bytes: seq<Byte>) returns (accepted: bool)
      modifies this
      ensures (accepted, script) == SendOutcome(socket, old(script))
      ensures calls == old(calls) + [Call(socket, bytes)]
    {
      var outcome := SendOutcome(socket, script);
      accepted, script := outcome.0, outcome.1;
      calls := calls + [Call(socket, bytes)];
    }
  }
}
