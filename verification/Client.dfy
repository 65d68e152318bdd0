/** The command client of `client.py` as a state machine over the stream decoder. */
module Client {
  import opened Wrappers
  import opened Bits
  import opened Frame
  import opened Stream

  /** The codes of the source's `Command` enumeration. */
  predicate IsCommand(c: byte) {
    || c == 0xEE
    || 0x01 <= c <= 0x10
    || 0x50 <= c <= 0x55
    || c == 0x21 || c == 0x22 || c == 0x24 || c == 0x25 || c == 0x28 || c == 0x2F
    || 0x33 <= c <= 0x38 || c == 0x3B
  }

  type Command = c: byte | IsCommand(c) witness 0x01

  lemma CommandsAre(c: byte)
    ensures IsCommand(c) <==> c in {
      0x01, 0x02, 0x03, 0x04, 0x05, 0x06, 0x07, 0x08, 0x09, 0x0A, 0x0B, 0x0C, 0x0D, 0x0E, 0x0F, 0x10,
      0x21, 0x22, 0x24, 0x25, 0x28, 0x2F, 0x33, 0x34, 0x35, 0x36, 0x37, 0x38, 0x3B,
      0x50, 0x51, 0x52, 0x53, 0x54, 0x55, 0xEE}
  {}

  const SUCCESS: byte := 0x00
  const ILLEGAL_COMMAND_OR_CRC_ERROR: byte := 0xFE

  /** What one `recv` call yields; `Data([])` is the end of the connection, `Broken` any other failure. */
  datatype Arrival = Data(bytes: seq<byte>) | Timeout | Broken

  datatype ClientError =
    | BadPort
    | BadTimeout
    | NotConnected
    | BadArgument(argument: BuildError)
    | ConnectFailed
    | WriteFailed
    | ReadFailed
    | TimedOut
    | NoResponse
    | InvalidResponse(error: StreamError)
    | UnexpectedHeartbeat
    | UnexpectedCommand(got: byte, expected: byte)
    | CommandFailed(status: byte)

  type Reading = Result<RfidResponse, ClientError>

  /**
   * The client and its connection. `inbox` is what the network will still deliver (after it,
   * every `recv` times out) and `sent` what was written; the last three fields record the chunks
   * that arrived and the responses that were taken and handed out since the client was last reset.
   */
  datatype State = State(
    connected: bool,
    pending: seq<byte>,
    queue: seq<RfidResponse>,
    inbox: seq<Arrival>,
    sent: seq<seq<byte>>,
    arrived: seq<seq<byte>>,
    popped: seq<RfidResponse>,
    returned: seq<RfidResponse>)

  const INITIAL := State(false, [], [], [], [], [], [], [])

  /** `connection` and `written` are the network's part: what connecting yields, whether writing works. */
  datatype Op =
    | Connect(connection: Option<seq<Arrival>>)
    | Close
    | Send(address: int, command: Command, data: seq<byte>, written: bool)

  /** `None` is a call that returns nothing. */
  type Outcome = Option<Reading>

  /** The receive loop: wait until a response is queued. */
  function Await(s: State): (r: (State, Option<ClientError>))
    ensures r.1 == None ==> r.0.queue != []
    decreases |s.inbox|
  {
    if s.queue != [] then (s, None)
    else if s.inbox == [] then (s, Some(TimedOut))
    else
      var t := s.(inbox := s.inbox[1..]);
      if s.inbox[0].Timeout? then (t, Some(TimedOut))
      else if s.inbox[0].Broken? then (t, Some(ReadFailed))
      else if s.inbox[0].bytes == [] then (t, Some(NoResponse))
      else
        var chunk := s.inbox[0].bytes;
        var d := Decode(s.pending + chunk, None);
        var u := t.(pending := d.rest, arrived := s.arrived + [chunk]);
        if Errors(d.items) != [] then (u, Some(InvalidResponse(Errors(d.items)[0])))
        else if Heartbeats(d.items) != [] then (u, Some(UnexpectedHeartbeat))
        else Await(u.(queue := s.queue + Frames(d.items)))
  }

  lemma AwaitReads(s: State, chunk: seq<byte>, d: Decoded)
    requires s.queue == [] && s.inbox != [] && s.inbox[0] == Data(chunk) && chunk != []
    requires d == Decode(s.pending + chunk, None)
    ensures var u := s.(inbox := s.inbox[1..], pending := d.rest, arrived := s.arrived + [chunk]);
      Await(s) == if Errors(d.items) != [] then (u, Some(InvalidResponse(Errors(d.items)[0])))
                  else if Heartbeats(d.items) != [] then (u, Some(UnexpectedHeartbeat))
                  else Await(u.(queue := s.queue + Frames(d.items)))
  {
    hide Decode, Errors, Heartbeats, Frames;
  }

  lemma AwaitStops(s: State)
    ensures s.queue != [] ==> Await(s) == (s, None)
    ensures s.queue == [] && s.inbox == [] ==> Await(s) == (s, Some(TimedOut))
    ensures s.queue == [] && s.inbox != [] && s.inbox[0] == Timeout
        ==> Await(s) == (s.(inbox := s.inbox[1..]), Some(TimedOut))
    ensures s.queue == [] && s.inbox != [] && s.inbox[0] == Broken
        ==> Await(s) == (s.(inbox := s.inbox[1..]), Some(ReadFailed))
    ensures s.queue == [] && s.inbox != [] && s.inbox[0] == Data([])
        ==> Await(s) == (s.(inbox := s.inbox[1..]), Some(NoResponse))
  {}

  predicate Answers(frame: RfidResponse, command: byte) {
    frame.command == command || (frame.command == 0 && frame.status == ILLEGAL_COMMAND_OR_CRC_ERROR)
  }

  /** What a call for `command` makes of a response. */
  function Verdict(frame: RfidResponse, command: byte): Reading {
    if Answers(frame, command) then Ok(frame) else Err(UnexpectedCommand(frame.command, command))
  }

  /** Take the first queued response as the answer to `command`. */
  function Take(s: State, command: byte): (State, Reading)
    requires s.queue != []
  {
    var frame := s.queue[0];
    var returned := if Answers(frame, command) then s.returned + [frame] else s.returned;
    (s.(queue := s.queue[1..], popped := s.popped + [frame], returned := returned), Verdict(frame, command))
  }

  /** A response is the answer if it echoes the command's code, or is the reader's (0x00, 0xFE). */
  lemma TakeRule(s: State, command: byte)
    requires s.queue != []
    ensures var f, (t, reading) := s.queue[0], Take(s, command);
      && t.queue == s.queue[1..] && t.popped == s.popped + [f]
      && reading == (if f.command == command || (f.command == 0x00 && f.status == 0xFE) then Ok(f)
                     else Err(UnexpectedCommand(f.command, command)))
  {}

  /** One command: send it, wait for a response, take it. */
  function Ask(s: State, address: int, command: Command, data: seq<byte>, written: bool): (State, Reading) {
    if !s.connected then (s, Err(NotConnected))
    else
      match BuildCommandFrame(address, Size(command), data)
      case Err(e) => (s, Err(BadArgument(e)))
      case Ok(frame) =>
        if !written then (s, Err(WriteFailed)) else
        var (t, error) := Await(s.(sent := s.sent + [frame]));
        if error.Some? then (t, Err(error.value)) else Take(t, command)
  }

  /** What is refused before anything is written, in this order. */
  lemma AskRefuses(s: State, address: int, command: Command, data: seq<byte>, written: bool)
    ensures var refused := Ask(s, address, command, data, written);
      && (!s.connected ==> refused == (s, Err(NotConnected)))
      && (s.connected && !(0 <= address <= 255) ==> refused == (s, Err(BadArgument(AddressOutOfRange))))
      && (s.connected && 0 <= address <= 255 && |data| > 251 ==> refused == (s, Err(BadArgument(DataTooLong))))
      && (s.connected && 0 <= address <= 255 && |data| <= 251 && !written ==> refused == (s, Err(WriteFailed)))
  {
    SizeRange(command);
    hide Await, Take, Size;
  }

  function Step(s: State, op: Op): (State, Outcome) {
    match op
    case Connect(connection) =>
      if s.connected then (s, None)
      else if connection.None? then (s, Some(Err(ConnectFailed)))
      else (s.(connected := true, inbox := connection.value, sent := []), None)
    case Close => (INITIAL, None)
    case Send(address, command, data, written) =>
      var (t, reading) := Ask(s, address, command, data, written);
      (t, Some(reading))
  }

  function Run(s: State, ops: seq<Op>): (r: (State, seq<Outcome>))
    ensures |r.1| == |ops|
    decreases |ops|
  {
    if ops == [] then (s, [])
    else
      var (t, outcome) := Step(s, ops[0]);
      var (u, outcomes) := Run(t, ops[1..]);
      (u, [outcome] + outcomes)
  }

  // ---- the client itself ----

  class RfidClient {
    var connected: bool
    const stream: StreamBuffer
    var responses: seq<RfidResponse>
    var inbox: seq<Arrival>
    var sent: seq<seq<byte>>
    ghost var arrived: seq<seq<byte>>
    ghost var popped: seq<RfidResponse>
    ghost var returned: seq<RfidResponse>

    ghost predicate Valid()
      reads this, stream
    {
      && stream.Valid() && stream.allowed == None && stream.received == Joined(arrived)
      && (!connected ==> inbox == [] && sent == [])
    }

    ghost function View(): State
      reads this, stream
    {
      State(connected, stream.buffer, responses, inbox, sent, arrived, popped, returned)
    }

    constructor ()
      ensures Valid() && View() == INITIAL && fresh(stream)
    {
      connected, responses, inbox, sent := false, [], [], [];
      arrived, popped, returned := [], [], [];
      stream := new StreamBuffer(None);
    }

    /** A client for a port and a timeout, if both are in range. */
    static method Create(port: int, timeout: real) returns (client: Result<RfidClient, ClientError>)
      ensures client.Ok? <==> 1 <= port <= 65535 && timeout > 0.0
      ensures client.Err? ==> client.error == if 1 <= port <= 65535 then BadTimeout else BadPort
      ensures client.Ok? ==> fresh(client.value) && client.value.Valid() && client.value.View() == INITIAL
    {
      if !(1 <= port <= 65535) {
        return Err(BadPort);
      }
      if timeout <= 0.0 {
        return Err(BadTimeout);
      }
      var c := new RfidClient();
      return Ok(c);
    }

    /** `connection` is what `create_connection` yields: nothing, or a connection with its future arrivals. */
    method Connect(connection: Option<seq<Arrival>>) returns (error: Option<ClientError>)
      requires Valid()
      modifies this
      ensures Valid()
      ensures var (state, outcome) := Step(old(View()), Op.Connect(connection));
        View() == state && outcome == if error.Some? then Some(Err(error.value)) else None
      ensures old(connected) ==> error == None && View() == old(View())
      ensures !old(connected) && connection == None ==> error == Some(ConnectFailed) && View() == old(View())
      ensures !old(connected) && connection.Some? ==>
                error == None && View() == old(View()).(connected := true, inbox := connection.value, sent := [])
    {
      error := None;
      if connected {
        return;
      }
      if connection.None? {
        return Some(ConnectFailed);
      }
      connected, inbox, sent := true, connection.value, [];
    }

    method Close()
      requires Valid()
      modifies this, stream
      ensures Valid() && View() == INITIAL
      ensures !connected && responses == [] && stream.buffer == [] && inbox == []
    {
      if connected {
        connected, inbox, sent := false, [], [];
      }
      stream.Reset();
      responses := [];
      arrived, popped, returned := [], [], [];
    }

    method Receive() returns (arrival: Arrival)
      requires Valid()
      modifies this`inbox
      ensures Valid()
      ensures old(inbox) == [] ==> arrival == Timeout && inbox == []
      ensures old(inbox) != [] ==> arrival == old(inbox)[0] && inbox == old(inbox)[1..]
    {
      if inbox == [] {
        return Timeout;
      }
      arrival := inbox[0];
      inbox := inbox[1..];
    }

    /** `written` says whether `sendall` succeeds. */
    method SendCommand(address: int, command: Command, data: seq<byte>, written: bool) returns (reading: Reading)
      requires Valid()
      modifies this, stream
      ensures Valid()
      ensures (View(), reading) == Ask(old(View()), address, command, data, written)
    {
      hide Decode, BuildCommandFrame, Size, Await, Frames, Errors, Heartbeats, Answers;
      if !connected {
        return Err(NotConnected);
      }
      var frame := BuildCommandFrame(address, Size(command), data);
      if frame.Err? {
        return Err(BadArgument(frame.error));
      }
      if !written {
        return Err(WriteFailed);
      }
      sent := sent + [frame.value];
      ghost var begun := View();
      while responses == []
        invariant Valid() && connected && sent == begun.sent
        invariant popped == old(popped) && returned == old(returned)
        invariant Await(View()) == Await(begun)
        decreases |inbox|, responses == []
      {
        AwaitStops(View());
        ghost var before := View();
        var arrival := Receive();
        if arrival.Timeout? {
          return Err(TimedOut);
        }
        if arrival.Broken? {
          return Err(ReadFailed);
        }
        if arrival.bytes == [] {
          return Err(NoResponse);
        }
        var parsed := stream.Feed(arrival.bytes);
        JoinedSnoc(arrived, arrival.bytes);
        arrived := arrived + [arrival.bytes];
        AwaitReads(before, arrival.bytes, Decode(before.pending + arrival.bytes, None));
        if parsed.errors != [] {
          return Err(InvalidResponse(parsed.errors[0]));
        }
        if parsed.heartbeats != [] {
          return Err(UnexpectedHeartbeat);
        }
        responses := responses + parsed.frames;
      }
      AwaitStops(View());
      var response := responses[0];
      responses := responses[1..];
      popped := popped + [response];
      if !Answers(response, command) {
        return Err(UnexpectedCommand(response.command, command));
      }
      returned := returned + [response];
      return Ok(response);
    }

    /** `_run`: a command whose answer must also report success. */
    method Run(address: int, command: Command, data: seq<byte>, written: bool) returns (reading: Reading)
      requires Valid()
      modifies this, stream
      ensures Valid()
      ensures var (state, answer) := Ask(old(View()), address, command, data, written);
        && View() == state
        && (reading.Ok? <==> answer.Ok? && answer.value.status == SUCCESS)
        && (reading.Ok? ==> reading == answer)
        && (reading.Err? && answer.Ok? ==> reading == Err(CommandFailed(answer.value.status)))
        && (answer.Err? ==> reading == answer)
        && (reading.Ok? <==> answer.Ok? && answer.value.status == 0x00)
    {
      reading := SendCommand(address, command, data, written);
      if reading.Ok? && reading.value.status != SUCCESS {
        return Err(CommandFailed(reading.value.status));
      }
    }
  }
}
