/** `main` with its I/O abstracted: the payload read at startup and the path it
    came from are given, and the socket and the signal are a trace of events. */
module Server {
  import opened Bytes
  import opened Options
  import PathName
  import Response
  import AcceptLoop

  /** The one response every client gets: built once from the name popped off
      the path and the startup payload (the source clones the same buffer for
      each client, so every clone carries these bytes). */
  function SharedResponse(path: string, payload: seq<byte>): seq<byte> {
    Response.Build(PathName.FileName(path).value, payload)
  }

  /** The run of the server over `trace`. */
  function Session(path: string, payload: seq<byte>, trace: seq<AcceptLoop.Event>): AcceptLoop.Loop {
    AcceptLoop.Run(trace, SharedResponse(path, payload))
  }

  /** Every write of a run carries the startup payload unchanged under the name
      after the path's last separator; when that name holds no double quote (the
      directories may hold any), a reader recovers exactly that name, the
      payload's length and the payload. */
  lemma EveryClientGetsThePayload(path: string, payload: seq<byte>, trace: seq<AcceptLoop.Event>)
    ensures var effects := Session(path, payload, trace).effects;
      forall i :: 0 <= i < |effects| && effects[i].Write? ==>
        && effects[i].bytes == Response.Build(PathName.AfterLastSeparator(path), payload)
        && effects[i].bytes[|effects[i].bytes| - |payload|..] == payload
        && ('"' !in PathName.AfterLastSeparator(path) ==>
              Response.Parse(effects[i].bytes)
                == Some(Response.Parsed(PathName.AfterLastSeparator(path), |payload|, payload)))
  {
    var name := PathName.FileName(path).value;
    PathName.FileNameAfterLastSeparator(path);
    AcceptLoop.SameResponseToEveryClient(trace, SharedResponse(path, payload));
    if '"' !in name {
      Response.ParseBuild(name, payload);
    }
  }

  // The inputs of these scenarios are pinned by `requires` rather than written
  // as literal arguments, so the verifier does not expand the literals early.
  lemma HelloName(path: string)
    requires path == "/tmp/hello.txt"
    ensures PathName.FileName(path).value == "hello.txt"
  {
    assert path == "/tmp" + [PathName.Separator] + "hello.txt";
    PathName.FileNameOf("/tmp", "hello.txt");
  }

  // Inputs pinned by `requires` for the same reason as in `HelloName`.
  /** A five-byte file `hello` shared as `/tmp/hello.txt`, one client that
      completes: it reads the name `hello.txt`, the length 5 and the five bytes. */
  lemma HelloScenario(path: string, payload: seq<byte>, trace: seq<AcceptLoop.Event>)
    requires path == "/tmp/hello.txt"
    requires payload == [0x68, 0x65, 0x6c, 0x6c, 0x6f]
    requires trace == [AcceptLoop.Event(AcceptLoop.Connection(true, true), true)]
    ensures var run := Session(path, payload, trace);
      && run.phase == AcceptLoop.Polling
      && run.served == 1
      && run.effects[0].Write?
      && Response.Parse(run.effects[0].bytes) == Some(Response.Parsed("hello.txt", 5, payload))
  {
    var name := "hello.txt";
    HelloName(path);
    var response := SharedResponse(path, payload);
    assert response == Response.Build(name, payload);
    AcceptLoop.ServeWhileRunning([], response);
    assert [] + trace == trace;
    Response.ParseBuild(name, payload);
  }

  /** A signal while no client is connected: the next would-block ends the
      loop without serving anyone. */
  lemma SignalWhileIdle(path: string, payload: seq<byte>)
    ensures var run := Session(path, payload, [AcceptLoop.Event(AcceptLoop.WouldBlock, false)]);
      run.phase == AcceptLoop.Stopped && run.served == 0 && run.effects == []
  {
  }
}
