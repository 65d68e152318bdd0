/** The stream decoder of `stream.py`: a pure decoder, its grammar, and the stateful buffer that refines it. */
module Stream {
  import opened Wrappers
  import opened Bits
  import opened Frame

  datatype StreamError =
    | BadLength(length: byte)
    | BadFrame(error: FrameError)
    | UnknownReader(address: byte)

  datatype Event =
    | Response(frame: RfidResponse)
    | Heartbeat(raw: seq<byte>)
    | Error(error: StreamError)

  /** One message: the bytes it takes from the stream and what is reported for them. */
  datatype Item = Item(raw: seq<byte>, event: Event)

  /** The readers whose frames are let through; `None` means all. */
  type Allowed = Option<set<byte>>

  predicate Permits(allowed: Allowed, address: byte) {
    allowed.Some? ==> address in allowed.value
  }

  /** What a complete frame-shaped string is reported as. */
  function Judge(raw: seq<byte>, allowed: Allowed): Event {
    match ValidateFrame(raw)
    case Err(e) => Error(BadFrame(e))
    case Ok(f) => if Permits(allowed, f.readerAddress) then Response(f) else Error(UnknownReader(f.readerAddress))
  }

  /** The next message at the front of a non-empty buffer, if it is complete. */
  function Next(buffer: seq<byte>, allowed: Allowed): (r: Option<Item>)
    requires buffer != []
    ensures r.Some? ==> r.value.raw != [] && r.value.raw <= buffer
  {
    if buffer[0] == HEARTBEAT_MARKER && |buffer| < HEARTBEAT_LENGTH then None
    else if buffer[0] == HEARTBEAT_MARKER && buffer[..HEARTBEAT_LENGTH] == HEARTBEAT then
      Some(Item(buffer[..HEARTBEAT_LENGTH], Heartbeat(buffer[..HEARTBEAT_LENGTH])))
    else if Size(buffer[0]) < MIN_FRAME_LENGTH then
      Some(Item(buffer[..1], Error(BadLength(buffer[0]))))
    else
      var total := Size(buffer[0]) + 1;
      if |buffer| < total then None
      else Some(Item(buffer[..total], Judge(buffer[..total], allowed)))
  }

  /** The four cases: a heartbeat, a length below five, an incomplete message, a frame. */
  lemma NextIs(buffer: seq<byte>, allowed: Allowed)
    requires buffer != []
    ensures var r, n, beat := Next(buffer, allowed), Size(buffer[0]), [0x56, 0, 0, 0, 0, 0];
      if |buffer| >= 6 && buffer[..6] == beat then r == Some(Item(beat, Heartbeat(beat)))
      else if n < 5 then r == Some(Item([buffer[0]], Error(BadLength(buffer[0]))))
      else if |buffer| <= n then r == None
      else
        && r.Some? && r.value.raw == buffer[..n + 1]
        && match ValidateFrame(r.value.raw)
           case Err(e) => r.value.event == Error(BadFrame(e))
           case Ok(f) =>
             r.value.event == if allowed.None? || f.readerAddress in allowed.value then Response(f)
                              else Error(UnknownReader(f.readerAddress))
  {
    MarkerSize();
    hide ValidateFrame, Size;
    if |buffer| >= 6 {
      assert buffer[0] == buffer[..6][0];
    }
    assert buffer[..1] == [buffer[0]];
  }

  lemma MarkerSize()
    ensures Size(HEARTBEAT_MARKER) == 86
  {}

  datatype Decoded = Decoded(items: seq<Item>, rest: seq<byte>)

  function Decode(buffer: seq<byte>, allowed: Allowed): Decoded
    decreases |buffer|
  {
    if buffer == [] then Decoded([], [])
    else
      match Next(buffer, allowed)
      case None => Decoded([], buffer)
      case Some(item) =>
        var d := Decode(buffer[|item.raw|..], allowed);
        Decoded([item] + d.items, d.rest)
  }

  // ---- the three result lists ----

  datatype ParseResult = ParseResult(
    frames: seq<RfidResponse>, heartbeats: seq<seq<byte>>, errors: seq<StreamError>)
  {
    function Add(event: Event): ParseResult {
      match event
      case Response(f) => this.(frames := frames + [f])
      case Heartbeat(raw) => this.(heartbeats := heartbeats + [raw])
      case Error(e) => this.(errors := errors + [e])
    }
  }

  const NOTHING := ParseResult([], [], [])

  function FrameIn(event: Event): seq<RfidResponse> {
    if event.Response? then [event.frame] else []
  }

  function HeartbeatIn(event: Event): seq<seq<byte>> {
    if event.Heartbeat? then [event.raw] else []
  }

  function ErrorIn(event: Event): seq<StreamError> {
    if event.Error? then [event.error] else []
  }

  function Frames(items: seq<Item>): seq<RfidResponse> {
    if items == [] then [] else FrameIn(items[0].event) + Frames(items[1..])
  }

  function Heartbeats(items: seq<Item>): seq<seq<byte>> {
    if items == [] then [] else HeartbeatIn(items[0].event) + Heartbeats(items[1..])
  }

  function Errors(items: seq<Item>): seq<StreamError> {
    if items == [] then [] else ErrorIn(items[0].event) + Errors(items[1..])
  }

  function Sorted(items: seq<Item>): ParseResult {
    ParseResult(Frames(items), Heartbeats(items), Errors(items))
  }

  lemma {:induction false} FramesAppend(a: seq<Item>, b: seq<Item>)
    ensures Frames(a + b) == Frames(a) + Frames(b)
  {
    hide FrameIn;
    if a == [] {
      assert a + b == b;
    } else {
      assert (a + b)[1..] == a[1..] + b;
      FramesAppend(a[1..], b);
      var first := FrameIn(a[0].event);
      assert first + (Frames(a[1..]) + Frames(b)) == (first + Frames(a[1..])) + Frames(b);
    }
  }

  lemma {:induction false} HeartbeatsAppend(a: seq<Item>, b: seq<Item>)
    ensures Heartbeats(a + b) == Heartbeats(a) + Heartbeats(b)
  {
    hide HeartbeatIn;
    if a == [] {
      assert a + b == b;
    } else {
      assert (a + b)[1..] == a[1..] + b;
      HeartbeatsAppend(a[1..], b);
      var first := HeartbeatIn(a[0].event);
      assert first + (Heartbeats(a[1..]) + Heartbeats(b)) == (first + Heartbeats(a[1..])) + Heartbeats(b);
    }
  }

  lemma {:induction false} ErrorsAppend(a: seq<Item>, b: seq<Item>)
    ensures Errors(a + b) == Errors(a) + Errors(b)
  {
    hide ErrorIn;
    if a == [] {
      assert a + b == b;
    } else {
      assert (a + b)[1..] == a[1..] + b;
      ErrorsAppend(a[1..], b);
      var first := ErrorIn(a[0].event);
      assert first + (Errors(a[1..]) + Errors(b)) == (first + Errors(a[1..])) + Errors(b);
    }
  }

  /** Each message adds to its own list only, in order of arrival. */
  lemma ListsAre(items: seq<Item>, raw: seq<byte>, f: RfidResponse, e: StreamError)
    ensures var (fs, hs, es) := (Frames(items), Heartbeats(items), Errors(items));
      && Sorted(items) == ParseResult(fs, hs, es)
      && Sorted(items + [Item(raw, Response(f))]) == ParseResult(fs + [f], hs, es)
      && Sorted(items + [Item(raw, Heartbeat(raw))]) == ParseResult(fs, hs + [raw], es)
      && Sorted(items + [Item(raw, Error(e))]) == ParseResult(fs, hs, es + [e])
    ensures Sorted([]) == ParseResult([], [], [])
  {
    SortedSnoc(items, Item(raw, Response(f)));
    SortedSnoc(items, Item(raw, Heartbeat(raw)));
    SortedSnoc(items, Item(raw, Error(e)));
  }

  lemma SortedSnoc(items: seq<Item>, item: Item)
    ensures Sorted(items + [item]) == Sorted(items).Add(item.event)
  {
    FramesAppend(items, [item]);
    HeartbeatsAppend(items, [item]);
    ErrorsAppend(items, [item]);
    assert [item][1..] == [];
  }

  // ---- the grammar: an independent description of the decoding ----

  /** A message and the report it must get, described without reference to a buffer. */
  predicate Legal(item: Item, allowed: Allowed) {
    var raw := item.raw;
    || (raw == HEARTBEAT && item.event == Heartbeat(raw))
    || (|raw| == 1 && Size(raw[0]) < MIN_FRAME_LENGTH && item.event == Error(BadLength(raw[0])))
    || (|raw| > MIN_FRAME_LENGTH && |raw| == Size(raw[0]) + 1 && !IsHeartbeat(raw)
        && item.event == Judge(raw, allowed))
  }

  /** Bytes that form the beginning of a message but not all of it. */
  predicate Incomplete(rest: seq<byte>) {
    rest == [] || (MIN_FRAME_LENGTH <= Size(rest[0]) && |rest| <= Size(rest[0]) && !IsHeartbeat(rest))
  }

  function Consumed(items: seq<Item>): seq<byte> {
    if items == [] then [] else items[0].raw + Consumed(items[1..])
  }

  ghost predicate Parses(stream: seq<byte>, d: Decoded, allowed: Allowed) {
    && stream == Consumed(d.items) + d.rest
    && (forall i :: 0 <= i < |d.items| ==> Legal(d.items[i], allowed))
    && Incomplete(d.rest)
  }

  lemma NextIsLegal(buffer: seq<byte>, allowed: Allowed)
    requires buffer != []
    ensures var r := Next(buffer, allowed);
      if r.None? then Incomplete(buffer) else Legal(r.value, allowed)
  {
    hide Size, Judge;
    MarkerSize();
    if Size(buffer[0]) >= MIN_FRAME_LENGTH && |buffer| > Size(buffer[0]) {
      var raw := buffer[..Size(buffer[0]) + 1];
      if |raw| >= HEARTBEAT_LENGTH {
        assert raw[..HEARTBEAT_LENGTH] == buffer[..HEARTBEAT_LENGTH];
      }
      if IsHeartbeat(raw) {
        assert raw[0] == raw[..6][0];
      }
    }
    if IsHeartbeat(buffer) {
      assert buffer[0] == buffer[..6][0];
    }
  }

  /** Legal messages form a prefix code: a buffer that starts with one yields that one. */
  lemma NextOfLegal(item: Item, tail: seq<byte>, allowed: Allowed)
    requires Legal(item, allowed)
    ensures item.raw != [] && Next(item.raw + tail, allowed) == Some(item)
  {
    hide Size, Judge;
    MarkerSize();
    var buffer := item.raw + tail;
    assert buffer[..|item.raw|] == item.raw && buffer[0] == item.raw[0];
    if |item.raw| > MIN_FRAME_LENGTH {
      assert buffer[..HEARTBEAT_LENGTH] == item.raw[..HEARTBEAT_LENGTH];
    }
  }

  lemma NextOfIncomplete(rest: seq<byte>, allowed: Allowed)
    requires Incomplete(rest) && rest != []
    ensures Next(rest, allowed) == None
  {
    hide Size, Judge;
    MarkerSize();
  }

  lemma ParsesCons(item: Item, tail: seq<byte>, d: Decoded, allowed: Allowed)
    requires Legal(item, allowed) && Parses(tail, d, allowed)
    ensures Parses(item.raw + tail, Decoded([item] + d.items, d.rest), allowed)
  {
    hide Legal, Incomplete;
    var all := [item] + d.items;
    assert all[1..] == d.items;
    assert Consumed(all) == item.raw + Consumed(d.items);
    assert item.raw + (Consumed(d.items) + d.rest) == (item.raw + Consumed(d.items)) + d.rest;
    forall i | 0 <= i < |all|
      ensures Legal(all[i], allowed)
    {
      if i > 0 {
        assert all[i] == d.items[i - 1];
      }
    }
  }

  /** What the decoder produces is a parse of the stream. */
  lemma {:induction false} DecodeParses(stream: seq<byte>, allowed: Allowed)
    ensures Parses(stream, Decode(stream, allowed), allowed)
    decreases |stream|
  {
    hide Next, Legal, Incomplete;
    if stream == [] {
      EmptyIncomplete();
    } else {
      NextIsLegal(stream, allowed);
      if Next(stream, allowed).Some? {
        hide Parses;
        var item := Next(stream, allowed).value;
        var tail := stream[|item.raw|..];
        DecodeParses(tail, allowed);
        ParsesCons(item, tail, Decode(tail, allowed), allowed);
        assert stream == item.raw + tail;
      }
    }
  }

  lemma EmptyIncomplete()
    ensures Incomplete([])
  {}

  /** The stream has no other parse. */
  lemma {:induction false} ParseIsDecode(stream: seq<byte>, d: Decoded, allowed: Allowed)
    requires Parses(stream, d, allowed)
    ensures d == Decode(stream, allowed)
    decreases |d.items|
  {
    hide Next, Legal, Incomplete;
    if d.items == [] {
      assert stream == d.rest;
      if stream != [] {
        NextOfIncomplete(stream, allowed);
      }
    } else {
      var item, tail := d.items[0], Decoded(d.items[1..], d.rest);
      var remaining := Consumed(tail.items) + tail.rest;
      assert stream == item.raw + remaining;
      NextOfLegal(item, remaining, allowed);
      assert stream[|item.raw|..] == remaining;
      ParseIsDecode(remaining, tail, allowed);
      assert d.items == [item] + tail.items;
    }
  }

  lemma DecodeIffParse(stream: seq<byte>, d: Decoded, allowed: Allowed)
    ensures d == Decode(stream, allowed) <==> Parses(stream, d, allowed)
  {
    DecodeParses(stream, allowed);
    if Parses(stream, d, allowed) {
      ParseIsDecode(stream, d, allowed);
    }
  }

  // ---- consequences ----

  lemma {:induction false} ConsumedAppend(a: seq<Item>, b: seq<Item>)
    ensures Consumed(a + b) == Consumed(a) + Consumed(b)
  {
    if a == [] {
      assert a + b == b;
    } else {
      assert (a + b)[1..] == a[1..] + b;
      ConsumedAppend(a[1..], b);
    }
  }

  /** Decoding a stream in two pieces, keeping the undecoded rest in between, changes nothing. */
  lemma {:induction false} DecodeResumes(a: seq<byte>, b: seq<byte>, allowed: Allowed)
    ensures var first := Decode(a, allowed);
      var second := Decode(first.rest + b, allowed);
      Decode(a + b, allowed) == Decoded(first.items + second.items, second.rest)
  {
    hide Decode, Legal, Incomplete;
    var first := Decode(a, allowed);
    var second := Decode(first.rest + b, allowed);
    DecodeParses(a, allowed);
    DecodeParses(first.rest + b, allowed);
    ConsumedAppend(first.items, second.items);
    assert a + b == Consumed(first.items) + (first.rest + b);
    ParseIsDecode(a + b, Decoded(first.items + second.items, second.rest), allowed);
  }

  /** What is pending is short, and is decoded no further until more bytes arrive. */
  lemma {:induction false} Quiescent(stream: seq<byte>, allowed: Allowed)
    ensures var rest := Decode(stream, allowed).rest;
      && Incomplete(rest) && |rest| <= 255
      && Decode(rest, allowed) == Decoded([], rest)
  {
    hide Size;
    var rest := Decode(stream, allowed).rest;
    DecodeParses(stream, allowed);
    ParseIsDecode(rest, Decoded([], rest), allowed);
    if rest != [] {
      SizeRange(rest[0]);
    }
  }

  /** Repeated feeding of one buffer, chunk by chunk. */
  function FeedAll(pending: seq<byte>, chunks: seq<seq<byte>>, allowed: Allowed): Decoded
    decreases |chunks|
  {
    if chunks == [] then Decoded([], pending)
    else
      var first := Decode(pending + chunks[0], allowed);
      var others := FeedAll(first.rest, chunks[1..], allowed);
      Decoded(first.items + others.items, others.rest)
  }

  function Joined(chunks: seq<seq<byte>>): seq<byte> {
    if chunks == [] then [] else chunks[0] + Joined(chunks[1..])
  }

  lemma {:induction false} JoinedAppend(a: seq<seq<byte>>, b: seq<seq<byte>>)
    ensures Joined(a + b) == Joined(a) + Joined(b)
  {
    if a == [] {
      assert a + b == b;
    } else {
      assert (a + b)[1..] == a[1..] + b;
      JoinedAppend(a[1..], b);
    }
  }

  lemma JoinedSnoc(chunks: seq<seq<byte>>, chunk: seq<byte>)
    ensures Joined(chunks + [chunk]) == Joined(chunks) + chunk
  {
    JoinedAppend(chunks, [chunk]);
    assert [chunk][1..] == [];
  }

  /** However a stream is cut into chunks, the messages and the pending bytes are the same. */
  lemma {:induction false} ChunkInvariance(pending: seq<byte>, chunks: seq<seq<byte>>, allowed: Allowed)
    requires Incomplete(pending)
    ensures FeedAll(pending, chunks, allowed) == Decode(pending + Joined(chunks), allowed)
    decreases |chunks|
  {
    hide Decode, Incomplete;
    if chunks == [] {
      assert pending + [] == pending;
      ParseIsDecode(pending, Decoded([], pending), allowed);
    } else {
      var first := Decode(pending + chunks[0], allowed);
      Quiescent(pending + chunks[0], allowed);
      ChunkInvariance(first.rest, chunks[1..], allowed);
      DecodeResumes(pending + chunks[0], Joined(chunks[1..]), allowed);
      assert pending + Joined(chunks) == (pending + chunks[0]) + Joined(chunks[1..]);
    }
  }

  // ---- the allowlist ----

  /** The report of a message that was let through, when only the readers in `s` are. */
  function Restricted(event: Event, s: set<byte>): Event {
    if event.Response? && event.frame.readerAddress !in s then Error(UnknownReader(event.frame.readerAddress))
    else event
  }

  /**
   * An allowlist changes nothing about where messages begin and end, and of their reports only
   * those of responses from readers that are not on it: they become errors with the address.
   */
  lemma {:induction false} AllowlistExact(buffer: seq<byte>, s: set<byte>)
    ensures var d, all := Decode(buffer, Some(s)), Decode(buffer, None);
      && d.rest == all.rest && |d.items| == |all.items|
      && forall i :: 0 <= i < |d.items| ==>
           && d.items[i].raw == all.items[i].raw
           && d.items[i].event == Restricted(all.items[i].event, s)
    decreases |buffer|
  {
    hide Next, Restricted;
    if buffer != [] {
      NextRestricted(buffer, s);
      var r := Next(buffer, None);
      if r.Some? {
        AllowlistExact(buffer[|r.value.raw|..], s);
      }
    }
  }

  lemma NextRestricted(buffer: seq<byte>, s: set<byte>)
    requires buffer != []
    ensures var r, all := Next(buffer, Some(s)), Next(buffer, None);
      && (r.None? <==> all.None?)
      && (r.Some? ==>
            r.value.raw == all.value.raw && r.value.event == Restricted(all.value.event, s))
  {
    hide ValidateFrame, Size;
  }

  /** The frames of readers in `s`. */
  function From(frames: seq<RfidResponse>, s: set<byte>): (r: seq<RfidResponse>)
    ensures forall f :: f in r <==> f in frames && f.readerAddress in s
  {
    if frames == [] then []
    else (if frames[0].readerAddress in s then [frames[0]] else []) + From(frames[1..], s)
  }

  /**
   * With an allowlist the frames handed out are just those of the readers on it, in order; every
   * other frame costs one error, and heartbeats are as they were.
   */
  lemma AllowlistFrames(buffer: seq<byte>, s: set<byte>)
    ensures var d, all := Decode(buffer, Some(s)).items, Decode(buffer, None).items;
      && Frames(d) == From(Frames(all), s)
      && Heartbeats(d) == Heartbeats(all)
      && |Errors(d)| + |Frames(d)| == |Errors(all)| + |Frames(all)|
      && (forall f :: f in Frames(d) ==> f.readerAddress in s)
  {
    hide Decode, Frames, Errors, Heartbeats, Restricted;
    AllowlistExact(buffer, s);
    RestrictedLists(Decode(buffer, Some(s)).items, Decode(buffer, None).items, s);
  }

  lemma {:induction false} RestrictedLists(d: seq<Item>, all: seq<Item>, s: set<byte>)
    requires |d| == |all| && forall i :: 0 <= i < |d| ==> d[i].event == Restricted(all[i].event, s)
    ensures Frames(d) == From(Frames(all), s)
    ensures Heartbeats(d) == Heartbeats(all)
    ensures |Errors(d)| + |Frames(d)| == |Errors(all)| + |Frames(all)|
    decreases |d|
  {
    if d != [] {
      RestrictedLists(d[1..], all[1..], s);
      var e := all[0].event;
      assert d[0].event == Restricted(e, s);
      if e.Response? {
        assert Frames(all) == [e.frame] + Frames(all[1..]);
        FromCons(e.frame, Frames(all[1..]), s);
        assert [] + From(Frames(all[1..]), s) == From(Frames(all[1..]), s);
      } else {
        assert Frames(all) == [] + Frames(all[1..]) == Frames(all[1..]);
      }
    }
  }

  lemma FromCons(f: RfidResponse, frames: seq<RfidResponse>, s: set<byte>)
    ensures From([f] + frames, s) == (if f.readerAddress in s then [f] else []) + From(frames, s)
  {
    assert ([f] + frames)[1..] == frames;
  }

  // ---- the buffer ----

  class StreamBuffer {
    var buffer: seq<byte>
    const allowed: Allowed

    /** Everything fed since the last reset, and the messages found in it. */
    ghost var received: seq<byte>
    ghost var log: seq<Item>

    ghost predicate Valid()
      reads this
    {
      Decode(received, allowed) == Decoded(log, buffer)
    }

    constructor (allowed: Allowed)
      ensures Valid() && this.allowed == allowed
      ensures buffer == [] && received == [] && log == []
    {
      this.allowed := allowed;
      buffer, received, log := [], [], [];
    }

    function PendingBytes(): nat
      reads this
    {
      |buffer|
    }

    method Feed(data: seq<byte>) returns (result: ParseResult)
      requires Valid()
      modifies this
      ensures Valid()
      ensures received == old(received) + data
      ensures old(log) <= log && result == Sorted(log[|old(log)|..])
      ensures Decode(old(buffer) + data, allowed) == Decoded(log[|old(log)|..], buffer)
      ensures PendingBytes() <= 255
      ensures data == [] ==> buffer == old(buffer) && result == NOTHING
    {
      hide Decode, Judge, Size, ValidateFrame, Sorted, SoFar;
      ghost var start, done := buffer + data, [];
      buffer := buffer + data;
      result := NOTHING;
      Begin(start, allowed);
      while buffer != []
        invariant SoFar(start, done, buffer, allowed)
        invariant result == Sorted(done)
        invariant log == old(log) && received == old(received)
        decreases |buffer|
      {
        if buffer[0] == HEARTBEAT_MARKER {
          if |buffer| < HEARTBEAT_LENGTH {
            break;
          }
          if buffer[..HEARTBEAT_LENGTH] == HEARTBEAT {
            done := Advance(start, done, buffer, allowed);
            result := result.(heartbeats := result.heartbeats + [buffer[..HEARTBEAT_LENGTH]]);
            buffer := buffer[HEARTBEAT_LENGTH..];
            continue;
          }
        }
        var length := Size(buffer[0]);
        if length < MIN_FRAME_LENGTH {
          done := Advance(start, done, buffer, allowed);
          result := result.(errors := result.errors + [BadLength(buffer[0])]);
          buffer := buffer[1..];
          continue;
        }
        var total := length + 1;
        if |buffer| < total {
          break;
        }
        var raw := buffer[..total];
        JudgeCases(raw, allowed);
        done := Advance(start, done, buffer, allowed);
        buffer := buffer[total..];
        var checked := ValidateFrame(raw);
        if checked.Err? {
          result := result.(errors := result.errors + [BadFrame(checked.error)]);
          continue;
        }
        var frame := checked.value;
        if allowed.Some? && frame.readerAddress !in allowed.value {
          result := result.(errors := result.errors + [UnknownReader(frame.readerAddress)]);
          continue;
        }
        result := result.(frames := result.frames + [frame]);
      }
      Finish(start, done, buffer, allowed);
      received := received + data;
      log := log + done;
      DecodeResumes(old(received), data, allowed);
      Quiescent(old(received), allowed);
      Quiescent(received, allowed);
      assert data == [] ==> start == old(buffer);
    }

    method Reset()
      modifies this
      ensures Valid() && buffer == [] && received == [] && log == []
    {
      buffer := [];
      received, log := [], [];
    }
  }

  lemma JudgeCases(raw: seq<byte>, allowed: Allowed)
    ensures match ValidateFrame(raw)
      case Err(e) => Judge(raw, allowed) == Error(BadFrame(e))
      case Ok(f) =>
        Judge(raw, allowed)
          == if allowed.None? || f.readerAddress in allowed.value then Response(f)
             else Error(UnknownReader(f.readerAddress))
  {}

  // ---- the loop of `Feed` ----

  /** `start` decodes to the messages `done`, followed by whatever `buffer` decodes to. */
  ghost predicate SoFar(start: seq<byte>, done: seq<Item>, buffer: seq<byte>, allowed: Allowed) {
    var d := Decode(buffer, allowed);
    Decode(start, allowed) == Decoded(done + d.items, d.rest)
  }

  lemma Begin(start: seq<byte>, allowed: Allowed)
    ensures SoFar(start, [], start, allowed)
    ensures Sorted([]) == NOTHING
  {
    var d := Decode(start, allowed);
    assert [] + d.items == d.items;
  }

  lemma Advance(start: seq<byte>, done: seq<Item>, buffer: seq<byte>, allowed: Allowed)
    returns (longer: seq<Item>)
    requires SoFar(start, done, buffer, allowed) && buffer != [] && Next(buffer, allowed).Some?
    ensures var item := Next(buffer, allowed).value;
      && SoFar(start, longer, buffer[|item.raw|..], allowed)
      && Sorted(longer) == Sorted(done).Add(item.event)
  {
    hide Next, Sorted;
    var item := Next(buffer, allowed).value;
    longer := done + [item];
    SortedSnoc(done, item);
    var d := Decode(buffer[|item.raw|..], allowed);
    assert done + ([item] + d.items) == longer + d.items;
  }

  lemma Finish(start: seq<byte>, done: seq<Item>, buffer: seq<byte>, allowed: Allowed)
    requires SoFar(start, done, buffer, allowed) && (buffer == [] || Next(buffer, allowed) == None)
    ensures Decode(start, allowed) == Decoded(done, buffer)
  {
    assert done + [] == done;
  }
}
