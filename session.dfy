/**
 * The instrument session, class CondInterface: the read handler that cuts
 * response frames out of the serial byte stream and hands each trimmed,
 * non-empty one to its meter's parser; connecting and initialising the
 * meter; asking for a reading; shutting down; and reacting to serial
 * port errors. Signals the session emits are appended to output fields,
 * in emission order.
 */
module Session {
  import opened Wrappers
  import opened Sequences
  import opened Text
  import opened Utf8
  import opened Framing
  import opened Meter
  import opened Responses

  /** What the session asks of its worker thread and of its serial port, in order. */
  datatype PortCall = StartWorker | StopWorker | ClosePort | OpenPort(name: string, baud: int)

  /** What opening the serial port reported. */
  datatype OpenOutcome = Opened | OpenFailed(errorString: string)

  /** QSerialPort::SerialPortError. */
  datatype SerialPortError =
    | NoError | DeviceNotFoundError | PermissionError | OpenError | WriteError | ReadError
    | ResourceError | UnsupportedOperationError | UnknownError | TimeoutError | NotOpenError

  /** The enumerator's name, as the meta-object system reports it. */
  function ErrorName(e: SerialPortError): string {
    match e
    case NoError => "NoError"
    case DeviceNotFoundError => "DeviceNotFoundError"
    case PermissionError => "PermissionError"
    case OpenError => "OpenError"
    case WriteError => "WriteError"
    case ReadError => "ReadError"
    case ResourceError => "ResourceError"
    case UnsupportedOperationError => "UnsupportedOperationError"
    case UnknownError => "UnknownError"
    case TimeoutError => "TimeoutError"
    case NotOpenError => "NotOpenError"
  }

  /** Distinct errors are reported under distinct names. */
  lemma ErrorNamesDistinct(a: SerialPortError, b: SerialPortError)
    requires ErrorName(a) == ErrorName(b)
    ensures a == b
  {
  }

  /** The text of one frame as the parsers see it: read as Latin-1, then trimmed. */
  function Response(frame: seq<byte>): string {
    Trimmed(FromLatin1(frame))
  }

  /** The response of one frame, or nothing when the frame is blank. */
  function ResponseOf(frame: seq<byte>): seq<string> {
    NonBlank(Response(frame))
  }

  /** A response, or nothing when it is empty. */
  function NonBlank(r: string): seq<string> {
    if r == [] then [] else [r]
  }

  /** The responses handed to the parser, in arrival order: one per frame that is not blank. */
  function Delivered(frames: seq<seq<byte>>): seq<string> {
    FlatMap(frames, ResponseOf)
  }

  /** The events one response gives: exactly one for the EC112, none for the EPU357 prompt. */
  function EventsOf(meter: MeterType, response: string): (es: seq<Event>)
    ensures |es| <= 1
    ensures es == [] <==> meter == EdaqEPU357 && response == "EPU357>"
  {
    match meter
    case ThermoOrionEC112 => [ParseOrion(response)]
    case EdaqEPU357 =>
      match ParseEPU357(response)
      case None => []
      case Some(e) => [e]
  }

  /** `EventsOf` for one meter, as a value to map over responses. */
  function EventsFor(meter: MeterType): string -> seq<Event> {
    (r: string) => EventsOf(meter, r)
  }

  /** The events a sequence of responses gives, in order. */
  function Emitted(meter: MeterType, responses: seq<string>): seq<Event> {
    FlatMap(responses, EventsFor(meter))
  }

  /** The events one read of `incoming` gives, with `buffer` left over from earlier reads. */
  function ReadEvents(meter: MeterType, buffer: seq<byte>, incoming: seq<byte>): seq<Event> {
    Emitted(meter, Delivered(Frames(buffer + incoming, Terminator(meter))))
  }

  /**
   * Two reads give the events of one read of the same bytes: where the
   * serial driver splits the stream does not change what the session
   * reports.
   */
  lemma ReadsCompose(meter: MeterType, buffer: seq<byte>, x: seq<byte>, y: seq<byte>)
    ensures ReadEvents(meter, buffer, x) + ReadEvents(meter, AfterLast(buffer + x, Terminator(meter)), y)
         == ReadEvents(meter, buffer, x + y)
  {
    var t := Terminator(meter);
    ReadsSplit(meter, buffer, x, y);
    EventsOfAppend(meter, Frames(buffer + (x + y), t), Frames(buffer + x, t), Frames(AfterLast(buffer + x, t) + y, t));
  }

  /**
   * Two reads cut the frames one read of the same bytes cuts, in the same
   * order, and leave behind the bytes that one read leaves.
   */
  lemma ReadsSplit(meter: MeterType, buffer: seq<byte>, x: seq<byte>, y: seq<byte>)
    ensures Frames(buffer + (x + y), Terminator(meter))
         == Frames(buffer + x, Terminator(meter)) + Frames(AfterLast(buffer + x, Terminator(meter)) + y, Terminator(meter))
    ensures AfterLast(AfterLast(buffer + x, Terminator(meter)) + y, Terminator(meter))
         == AfterLast(buffer + (x + y), Terminator(meter))
  {
    var t := Terminator(meter);
    assert buffer + (x + y) == (buffer + x) + y;
    FramesAppend(buffer + x, y, t);
  }

  /** The events of two runs of frames are the events of the first, then those of the second. */
  lemma EventsOfAppend(meter: MeterType, whole: seq<seq<byte>>, a: seq<seq<byte>>, b: seq<seq<byte>>)
    requires whole == a + b
    ensures Emitted(meter, Delivered(whole)) == Emitted(meter, Delivered(a)) + Emitted(meter, Delivered(b))
  {
    FlatMapAppend(a, b, ResponseOf);
    FlatMapAppend(Delivered(a), Delivered(b), EventsFor(meter));
  }

  /** Every response handed to a parser is non-empty and already trimmed. */
  lemma DeliveredTrimmed(frames: seq<seq<byte>>)
    ensures forall r :: r in Delivered(frames) ==> r != [] && Trimmed(r) == r
  {
    forall r | r in Delivered(frames)
      ensures r != [] && Trimmed(r) == r
    {
      FlatMapMember(frames, ResponseOf, r);
      var f :| f in frames && r in ResponseOf(f);
      ResponseOfTrimmed(f, r);
    }
  }

  lemma ResponseOfTrimmed(f: seq<byte>, r: string)
    requires r in ResponseOf(f)
    ensures r != [] && Trimmed(r) == r
  {
    NonBlankTrimmed(FromLatin1(f), r);
  }

  lemma NonBlankTrimmed(s: string, r: string)
    requires r in NonBlank(Trimmed(s))
    ensures r != [] && Trimmed(r) == r
  {
    TrimmedIdempotent(s);
  }

  /** Frames that are none of them blank all reach the parser, each as its own response, in order. */
  lemma DeliveredAll(frames: seq<seq<byte>>)
    requires forall i :: 0 <= i < |frames| ==> Response(frames[i]) != []
    ensures |Delivered(frames)| == |frames|
    ensures forall i :: 0 <= i < |frames| ==> Delivered(frames)[i] == Response(frames[i])
  {
    FlatMapSingletons(frames, ResponseOf);
  }

  /** An EC112 frame ends with '>', which is not whitespace, so it is never blank. */
  lemma OrionFrameNotBlank(f: seq<byte>)
    requires IsFrame(f, Terminator(ThermoOrionEC112))
    ensures Response(f) != [] && Response(f)[|Response(f)| - 1] == '>'
  {
    var s := FromLatin1(f);
    assert s[|s| - 1] as int == '>' as int;
    TrimmedKeepsLast(s);
  }

  /** Each EC112 response gives exactly one event. */
  lemma OrionEventPerResponse(responses: seq<string>)
    ensures |Emitted(ThermoOrionEC112, responses)| == |responses|
  {
    FlatMapSingletons(responses, EventsFor(ThermoOrionEC112));
  }

  /** From an EC112 byte stream the session reports exactly one event per '>' byte. */
  lemma OrionEventPerTerminator(s: seq<byte>)
    ensures |ReadEvents(ThermoOrionEC112, [], s)| == multiset(s)[Terminator(ThermoOrionEC112)]
  {
    var t := Terminator(ThermoOrionEC112);
    assert [] + s == s;
    var frames := Frames(s, t);
    FramesComplete(s, t);
    FrameCount(s, t);
    forall i | 0 <= i < |frames|
      ensures Response(frames[i]) != []
    {
      assert frames[i] in frames;
      OrionFrameNotBlank(frames[i]);
    }
    DeliveredAll(frames);
    OrionEventPerResponse(Delivered(frames));
  }

  /** EPU357 responses other than the prompt give exactly one event each. */
  lemma EPU357EventPerResponse(responses: seq<string>)
    requires forall i :: 0 <= i < |responses| ==> responses[i] != "EPU357>"
    ensures |Emitted(EdaqEPU357, responses)| == |responses|
  {
    FlatMapSingletons(responses, EventsFor(EdaqEPU357));
  }

  /** EPU357 prompts give no event at all. */
  lemma EPU357PromptsSilent(responses: seq<string>)
    requires forall i :: 0 <= i < |responses| ==> responses[i] == "EPU357>"
    ensures Emitted(EdaqEPU357, responses) == []
  {
    FlatMapNone(responses, EventsFor(EdaqEPU357));
  }

  class CondInterface {
    const meterType: MeterType
    /** Bytes received after the last complete frame. */
    var serialBuffer: seq<byte>
    var portOpen: bool
    var portName: string
    var baudRate: int
    /** The worker thread exists and runs. */
    var workerRunning: bool
    var epu357SamplingMode: bool
    /** messageReceived, measurementReceived and errorOccurred, in emission order. */
    var events: seq<Event>
    /** sendCommand, in emission order: what the worker queues for sending. */
    var commands: seq<string>
    /** Requests to the worker thread and to the serial port, in order. */
    var calls: seq<PortCall>
    /** The bytes handed to the serial port for writing, packet by packet. */
    var packets: seq<seq<byte>>

    /** The buffer never holds a complete frame between reads. */
    ghost predicate Valid()
      reads this
    {
      Terminator(meterType) !in serialBuffer
    }

    /** A new session starts its worker thread; the port stays closed until connected. */
    constructor(meterType: MeterType)
      ensures this.meterType == meterType && Valid()
      ensures serialBuffer == [] && !portOpen && workerRunning && !epu357SamplingMode
      ensures events == [] && commands == [] && calls == [StartWorker] && packets == []
    {
      this.meterType := meterType;
      serialBuffer := [];
      portOpen := false;
      portName := "";
      baudRate := 9600;
      workerRunning := true;
      epu357SamplingMode := false;
      events := [];
      commands := [];
      calls := [StartWorker];
      packets := [];
    }

    /** Stops the worker thread if it still runs, then closes the port if it is open. */
    method Shutdown()
      modifies this`workerRunning, this`portOpen, this`calls
      ensures !workerRunning && !portOpen
      ensures calls == old(calls) + (if old(workerRunning) then [StopWorker] else [])
                                  + (if old(portOpen) then [ClosePort] else [])
    {
      var stopped: seq<PortCall> := [];
      if workerRunning {
        stopped := [StopWorker];
        workerRunning := false;
      }
      var closed: seq<PortCall> := [];
      if portOpen {
        closed := [ClosePort];
        portOpen := false;
      }
      calls := calls + stopped + closed;
    }

    /** The signal sendCommand: the command joins the worker's queue. */
    method SendCommand(cmd: string)
      modifies this`commands
      ensures commands == old(commands) + [cmd]
    {
      commands := commands + [cmd];
    }

    /**
     * Closes a port that is open, configures the port for the meter's
     * speed and opens it. When the port does not open, one error naming
     * the port's reason is emitted and nothing is sent; when it opens, the
     * meter's initialisation commands are sent in order.
     */
    method ConnectToMeter(name: string, outcome: OpenOutcome, now: DateTime) returns (ok: bool)
      modifies this`portOpen, this`portName, this`baudRate, this`calls, this`events, this`commands,
        this`epu357SamplingMode
      ensures ok <==> outcome.Opened?
      ensures portOpen == ok && portName == name && baudRate == BaudRate(meterType)
      ensures calls == old(calls) + (if old(portOpen) then [ClosePort] else []) + [OpenPort(name, BaudRate(meterType))]
      ensures !ok ==> events == old(events) + [ErrorOccurred("Failed to open port: " + outcome.errorString)]
      ensures !ok ==> commands == old(commands) && epu357SamplingMode == old(epu357SamplingMode)
      ensures ok ==> events == old(events) && commands == old(commands) + InitCommands(meterType, now)
      ensures ok ==> epu357SamplingMode == (old(epu357SamplingMode) || meterType == EdaqEPU357)
    {
      var closed: seq<PortCall> := [];
      if portOpen {
        closed := [ClosePort];
        portOpen := false;
      }
      var baud := BaudRate(meterType);
      portName := name;
      baudRate := baud;
      calls := calls + closed + [OpenPort(name, baud)];
      if outcome.OpenFailed? {
        events := events + [ErrorOccurred("Failed to open port: " + outcome.errorString)];
        return false;
      }
      portOpen := true;
      if meterType == EdaqEPU357 {
        SendCommand("\r");
        SendCommand("set range 20 auto\r");
        SendCommand("set k 1.0\r");
        SendCommand("sample ascii #\r");
        epu357SamplingMode := true;
      } else {
        SendCommand(SetRtcCommand(now));
      }
      return true;
    }

    /** Asks the meter for one reading; the reading arrives later through the read handler. */
    method GetMeasurement()
      modifies this`commands
      ensures commands == old(commands) + [MeasurementCommand(meterType)]
    {
      var cmd: string;
      if meterType == EdaqEPU357 {
        cmd := "#\r";
      } else {
        cmd := "GETMEAS\r";
      }
      SendCommand(cmd);
    }

    /**
     * Writes one command as UTF-8. `written` is what the port's write
     * reported (-1 on failure); the write succeeded when every byte went.
     */
    method SendToMeter(cmd: string, written: int) returns (ok: bool)
      modifies this`packets
      ensures packets == old(packets) + [ToUtf8(cmd)]
      ensures ok <==> written == |ToUtf8(cmd)|
    {
      var packet := ToUtf8(cmd);
      packets := packets + [packet];
      ok := written == |packet|;
    }

    /** The worker's request to send the next queued command. */
    method HandleCommand(cmd: string, written: int)
      modifies this`packets
      ensures packets == old(packets) + [ToUtf8(cmd)]
    {
      var _ := SendToMeter(cmd, written);
    }

    /**
     * Reaction to an error the serial port reports: a lost device
     * (ResourceError) closes the port and emits one error carrying the
     * error's name; every other error, NoError included, changes nothing.
     */
    method HandleError(error: SerialPortError)
      modifies this`portOpen, this`calls, this`events
      ensures error == ResourceError ==> !portOpen && calls == old(calls) + [ClosePort]
                                         && events == old(events) + [ErrorOccurred(ErrorName(error))]
      ensures error != ResourceError ==> portOpen == old(portOpen) && calls == old(calls) && events == old(events)
    {
      if error != NoError {
        var errorStr := ErrorName(error);
        if error == ResourceError {
          calls := calls + [ClosePort];
          portOpen := false;
          events := events + [ErrorOccurred(errorStr)];
        }
      }
    }

    /** Hands one response to the meter's parser, which emits what it decides. */
    method Parse(response: string)
      modifies this`events
      ensures events == old(events) + EventsOf(meterType, response)
    {
      if meterType == EdaqEPU357 {
        var e := ParseEPU357(response);
        if e.Some? {
          events := events + [e.value];
        }
      } else {
        events := events + [ParseOrion(response)];
      }
    }

    /**
     * The read handler: appends the bytes read, then cuts off each prefix
     * that ends at the first terminator, handing its trimmed Latin-1 text to
     * the parser unless it is blank, until no terminator is left. What
     * remains is the partial frame after the last terminator.
     */
    method HandleReadyRead(incoming: seq<byte>)
      modifies this`serialBuffer, this`events
      ensures serialBuffer == AfterLast(old(serialBuffer) + incoming, Terminator(meterType))
      ensures events == old(events) + ReadEvents(meterType, old(serialBuffer), incoming)
      ensures Valid()
    {
      var t := Terminator(meterType);
      serialBuffer := serialBuffer + incoming;
      ghost var total := serialBuffer;
      ghost var cut: seq<seq<byte>> := [];
      while true
        invariant Frames(total, t) == cut + Frames(serialBuffer, t)
        invariant AfterLast(total, t) == AfterLast(serialBuffer, t)
        invariant events == old(events) + Emitted(meterType, Delivered(cut))
        decreases |serialBuffer|
      {
        var endIndex := IndexOf(serialBuffer, t);
        if endIndex == -1 {
          NoTerminatorNoFrame(serialBuffer, t);
          break;
        }
        CutStep(total, cut, serialBuffer, t, endIndex);
        var frame := CutFrame(endIndex);
        CutOne(cut, frame, meterType);
        Associate(old(events), Emitted(meterType, Delivered(cut)), Piece(meterType, frame));
        cut := cut + [frame];
      }
      assert cut + [] == cut;
    }

    /** One step of the read loop: removes the first frame and hands its response to the parser. */
    method CutFrame(endIndex: int) returns (frame: seq<byte>)
      requires 0 <= endIndex < |serialBuffer|
      modifies this`serialBuffer, this`events
      ensures frame == old(serialBuffer)[..endIndex + 1] && serialBuffer == old(serialBuffer)[endIndex + 1..]
      ensures events == old(events) + Piece(meterType, frame)
    {
      frame := serialBuffer[..endIndex + 1];
      serialBuffer := serialBuffer[endIndex + 1..];
      var response := Response(frame);
      if response != [] {
        Parse(response);
      }
    }
  }

  lemma CutStep<T>(total: seq<T>, cut: seq<seq<T>>, s: seq<T>, t: T, k: int)
    requires k == IndexOf(s, t) && k != -1
    requires Frames(total, t) == cut + Frames(s, t) && AfterLast(total, t) == AfterLast(s, t)
    ensures Frames(total, t) == (cut + [s[..k + 1]]) + Frames(s[k + 1..], t)
    ensures AfterLast(total, t) == AfterLast(s[k + 1..], t)
  {
    FramesCons(s, t, k);
    AfterLastStep(s, t, k);
    Associate(cut, [s[..k + 1]], Frames(s[k + 1..], t));
  }

  /** The events of one more frame: those of its response, or none when it is blank. */
  function Piece(meter: MeterType, frame: seq<byte>): seq<Event> {
    if Response(frame) == [] then [] else EventsOf(meter, Response(frame))
  }

  lemma CutOne(cut: seq<seq<byte>>, frame: seq<byte>, meter: MeterType)
    ensures Emitted(meter, Delivered(cut + [frame])) == Emitted(meter, Delivered(cut)) + Piece(meter, frame)
  {
    FlatMapSnocThen(cut, frame, ResponseOf, EventsFor(meter));
    PieceOf(meter, frame);
  }

  /** `Piece` is what `Emitted` gives for the responses of one frame. */
  lemma PieceOf(meter: MeterType, frame: seq<byte>)
    ensures Emitted(meter, ResponseOf(frame)) == Piece(meter, frame)
  {
    var r := Response(frame);
    if r != [] {
      FlatMapOne(r, EventsFor(meter));
    }
  }

  /** A second shutdown changes nothing: it neither stops the worker nor closes the port again. */
  method ShutdownTwice(c: CondInterface)
    modifies c`workerRunning, c`portOpen, c`calls
    ensures !c.workerRunning && !c.portOpen
    ensures c.calls == old(c.calls) + (if old(c.workerRunning) then [StopWorker] else [])
                                    + (if old(c.portOpen) then [ClosePort] else [])
  {
    c.Shutdown();
    ghost var once := c.calls;
    c.Shutdown();
    assert c.calls == once + [] + [];
  }

  /** Reading the same bytes in two chunks reports what one read reports, and leaves the same buffer. */
  method ReadInTwoChunks(c: CondInterface, x: seq<byte>, y: seq<byte>)
    modifies c`serialBuffer, c`events
    ensures c.serialBuffer == AfterLast(old(c.serialBuffer) + (x + y), Terminator(c.meterType))
    ensures c.events == old(c.events) + ReadEvents(c.meterType, old(c.serialBuffer), x + y)
  {
    ghost var m, b, e := c.meterType, c.serialBuffer, c.events;
    c.HandleReadyRead(x);
    c.HandleReadyRead(y);
    ReadsCompose(m, b, x, y);
    ReadsSplit(m, b, x, y);
    Associate(e, ReadEvents(m, b, x), ReadEvents(m, AfterLast(b + x, Terminator(m)), y));
  }
}
