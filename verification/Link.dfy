/** Whole transmissions: what a sender puts on the wire, damage on the way, and what is decoded. */
module Link {
  import opened Wrappers
  import opened Bits
  import opened Checksum
  import opened Frame
  import opened Stream

  datatype Message = Beat | Reply(fields: Fields) {
    predicate Sendable() {
      Reply? ==> fields.InRange()
    }

    function Wire(): seq<byte>
      requires Sendable()
    {
      if Beat? then HEARTBEAT else fields.Build().value
    }
  }

  /** A message on its way; `damage` is the pattern of flipped bits, if any. */
  datatype Transmission = Transmission(message: Message, damage: Option<seq<byte>>) {
    /** Damage hits a frame and spares its length byte. */
    predicate Possible() {
      && message.Sendable()
      && (damage.Some? ==> message.Reply? && |damage.value| == |message.Wire()| && damage.value[0] == 0)
    }

    function Received(): seq<byte>
      requires Possible()
    {
      if damage.None? then message.Wire() else Xor(message.Wire(), damage.value)
    }

    /** A frame that arrives with the heartbeat's bytes in front. */
    predicate Lookalike()
      requires Possible()
    {
      message.Reply? && IsHeartbeat(Received())
    }

    /** The checksum does not notice the damage. */
    predicate Missed() {
      damage.Some? && Syndrome(damage.value) == 0
    }
  }

  function ResponseOf(x: Fields): RfidResponse
    requires x.InRange()
  {
    var length, address := ByteOf(|x.data| + 5), ByteOf(x.address);
    var command, status := ByteOf(x.command), ByteOf(x.status);
    RfidResponse(length, address, command, status, x.data, Crc([length, address, command, status] + x.data))
  }

  /** What the receiver should make of an undamaged message. */
  function Report(m: Message, allowed: Allowed): Event
    requires m.Sendable()
  {
    if m.Beat? then Heartbeat(HEARTBEAT)
    else if Permits(allowed, ByteOf(m.fields.address)) then Response(ResponseOf(m.fields))
    else Error(UnknownReader(ByteOf(m.fields.address)))
  }

  /** The item is the right account of the transmission. */
  predicate Faithful(t: Transmission, item: Item, allowed: Allowed)
    requires t.Possible()
  {
    && item.raw == t.Received()
    && if t.damage.None? then item.event == Report(t.message, allowed) else IsCrcError(item.event)
  }

  predicate IsCrcError(event: Event) {
    event.Error? && event.error.BadFrame? && event.error.error.CrcMismatch?
  }

  /** What the receiver makes of a transmission that does not look like a heartbeat. */
  function Account(t: Transmission, allowed: Allowed): Event
    requires t.Possible()
  {
    if t.message.Beat? then Heartbeat(HEARTBEAT) else Judge(t.Received(), allowed)
  }

  predicate AllPossible(ts: seq<Transmission>) {
    forall i :: 0 <= i < |ts| ==> ts[i].Possible()
  }

  function OnWire(ts: seq<Transmission>): seq<byte>
    requires AllPossible(ts)
  {
    if ts == [] then [] else ts[0].Received() + OnWire(ts[1..])
  }

  predicate AllFaithful(ts: seq<Transmission>, d: Decoded, allowed: Allowed)
    requires AllPossible(ts)
  {
    && d.rest == []
    && |d.items| == |ts|
    && forall i :: 0 <= i < |ts| ==> Faithful(ts[i], d.items[i], allowed)
  }

  // ---- one transmission ----

  lemma JudgeBuilt(x: Fields, allowed: Allowed)
    requires x.InRange()
    ensures var raw := x.Build().value;
      && Size(raw[0]) == |raw| - 1 && |raw| > MIN_FRAME_LENGTH
      && ValidateFrame(raw) == Ok(ResponseOf(x))
      && Judge(raw, allowed) == Report(Reply(x), allowed)
  {
    hide Crc, Trailer, TrailerValue, Size, ByteOf;
    BuiltIsAccepted(x);
    var raw := x.Build().value;
    var f := ValidateFrame(raw).value;
    SizeRange(f.readerAddress);
    SizeRange(f.command);
    SizeRange(f.status);
    SizeRange(raw[0]);
    var r := ResponseOf(x);
    assert raw[..|raw| - 2] == [r.length, r.readerAddress, r.command, r.status] + x.data;
  }

  /** Damage outside the length byte keeps a frame's length, and is reported iff the checksum notices it. */
  lemma DamagedKeepsShape(raw: seq<byte>, e: seq<byte>, allowed: Allowed)
    requires ValidateFrame(raw).Ok? && |e| == |raw| && e[0] == 0
    ensures var bad := Xor(raw, e);
      && |bad| == |raw| && bad[0] == raw[0]
      && (Syndrome(e) != 0 <==> IsCrcError(Judge(bad, allowed)))
  {
    hide Syndrome, Crc, TrailerValue, Size;
    assert raw[0] ^ 0 == raw[0];
    DamagedAcceptance(raw, e);
  }

  /** A transmission that does not look like a heartbeat is a legal message with this report. */
  lemma TransmissionIsLegal(t: Transmission, allowed: Allowed)
    requires t.Possible() && !t.Lookalike()
    ensures var item := Item(t.Received(), Account(t, allowed));
      Legal(item, allowed) && (Faithful(t, item, allowed) <==> !t.Missed())
  {
    hide ValidateFrame, Judge, Size, ResponseOf, Fields.Build, Syndrome;
    if t.message.Reply? {
      var x := t.message.fields;
      BuildsIffInRange(x);
      JudgeBuilt(x, allowed);
      if t.damage.Some? {
        DamagedKeepsShape(x.Build().value, t.damage.value, allowed);
      }
    }
  }

  /** A lookalike is decoded as a heartbeat, which is never the right account of it. */
  lemma LookalikeIsUnfaithful(t: Transmission, tail: seq<byte>, allowed: Allowed)
    requires t.Possible() && t.Lookalike()
    ensures var buffer := t.Received() + tail;
      && buffer != []
      && Next(buffer, allowed) == Some(Item(HEARTBEAT, Heartbeat(HEARTBEAT)))
      && !Faithful(t, Next(buffer, allowed).value, allowed)
  {
    hide ValidateFrame, Judge, Size, ResponseOf, Fields.Build, Syndrome;
    var raw := t.Received();
    assert (raw + tail)[..6] == raw[..6] == HEARTBEAT;
    assert raw[0] == raw[..6][0];
  }

  // ---- whole streams ----

  /**
   * Damage isolation: a stream of heartbeats, intact frames and frames with any damage outside
   * their length bytes is decoded into exactly the right report for each of them, in order, with
   * nothing left over, iff no frame arrives looking like a heartbeat and no damage leaves the
   * checksum unchanged.
   */
  lemma {:induction false} DamageIsolation(ts: seq<Transmission>, allowed: Allowed)
    requires AllPossible(ts)
    ensures AllFaithful(ts, Decode(OnWire(ts), allowed), allowed)
        <==> forall i :: 0 <= i < |ts| ==> !ts[i].Lookalike() && !ts[i].Missed()
    decreases |ts|
  {
    hide Next, Legal, Faithful, Account, Transmission.Received, Transmission.Possible, Transmission.Lookalike;
    hide Transmission.Missed;
    if ts != [] {
      var t, others := ts[0], ts[1..];
      var raw, tail := t.Received(), OnWire(others);
      assert AllPossible(others) && OnWire(ts) == raw + tail;
      DamageIsolation(others, allowed);
      if t.Lookalike() {
        LookalikeIsUnfaithful(t, tail, allowed);
        assert Decode(OnWire(ts), allowed).items[0] == Next(raw + tail, allowed).value;
      } else {
        TransmissionIsLegal(t, allowed);
        var item := Item(raw, Account(t, allowed));
        NextOfLegal(item, tail, allowed);
        assert (raw + tail)[|raw|..] == tail;
        assert Decode(OnWire(ts), allowed).items[0] == item;
        if !t.Missed() {
          HeadAndTail(ts, item, Decode(tail, allowed), allowed);
          assert forall i :: 0 <= i < |others| ==> others[i] == ts[i + 1];
          assert forall i :: 0 < i < |ts| ==> ts[i] == others[i - 1];
        }
      }
    }
  }

  /** Damage of the noticeable kinds is never missed, so there only lookalikes matter. */
  lemma {:induction false} NoticeableIsolation(ts: seq<Transmission>, allowed: Allowed)
    requires AllPossible(ts)
    requires forall i :: 0 <= i < |ts| && ts[i].damage.Some? ==> Noticeable(BitsOf(ts[i].damage.value))
    ensures AllFaithful(ts, Decode(OnWire(ts), allowed), allowed)
        <==> forall i :: 0 <= i < |ts| ==> !ts[i].Lookalike()
  {
    hide AllFaithful, Decode, OnWire, Noticeable, BitsOf, Syndrome, Transmission.Lookalike;
    DamageIsolation(ts, allowed);
    forall i | 0 <= i < |ts|
      ensures !ts[i].Missed()
    {
      if ts[i].damage.Some? {
        NoticeableIsNoticed(ts[i].damage.value);
      }
    }
  }

  lemma HeadAndTail(ts: seq<Transmission>, item: Item, d: Decoded, allowed: Allowed)
    requires AllPossible(ts) && ts != [] && Faithful(ts[0], item, allowed)
    ensures AllPossible(ts[1..])
    ensures AllFaithful(ts, Decoded([item] + d.items, d.rest), allowed) <==> AllFaithful(ts[1..], d, allowed)
  {
    hide Faithful, Transmission.Received, Transmission.Possible;
    var all, others := [item] + d.items, ts[1..];
    if AllFaithful(ts, Decoded(all, d.rest), allowed) {
      forall i | 0 <= i < |others|
        ensures Faithful(others[i], d.items[i], allowed)
      {
        assert Faithful(ts[i + 1], all[i + 1], allowed);
      }
    }
    if AllFaithful(others, d, allowed) {
      forall i | 0 <= i < |ts|
        ensures Faithful(ts[i], all[i], allowed)
      {
        if i > 0 {
          assert Faithful(others[i - 1], d.items[i - 1], allowed);
        }
      }
    }
  }

  // ---- nothing damaged: the round trip ----

  function Undamaged(ms: seq<Message>): (ts: seq<Transmission>)
    ensures |ts| == |ms|
    ensures forall i :: 0 <= i < |ms| ==> ts[i] == Transmission(ms[i], None)
  {
    seq(|ms|, i requires 0 <= i < |ms| => Transmission(ms[i], None))
  }

  function Encode(ms: seq<Message>): seq<byte>
    requires forall m :: m in ms ==> m.Sendable()
  {
    if ms == [] then [] else ms[0].Wire() + Encode(ms[1..])
  }

  function Reports(ms: seq<Message>, allowed: Allowed): (items: seq<Item>)
    requires forall m :: m in ms ==> m.Sendable()
    ensures |items| == |ms|
  {
    seq(|ms|, i requires 0 <= i < |ms| => Item(ms[i].Wire(), Report(ms[i], allowed)))
  }

  lemma {:induction false} UndamagedOnWire(ms: seq<Message>)
    requires forall m :: m in ms ==> m.Sendable()
    ensures AllPossible(Undamaged(ms)) && OnWire(Undamaged(ms)) == Encode(ms)
  {
    hide Message.Wire;
    if ms != [] {
      UndamagedOnWire(ms[1..]);
      assert Undamaged(ms)[1..] == Undamaged(ms[1..]);
    }
  }

  /**
   * Decoding what was encoded gives back exactly the messages sent, iff none of the frames is
   * of the one ambiguous shape.
   */
  lemma RoundTrip(ms: seq<Message>, allowed: Allowed)
    requires forall m :: m in ms ==> m.Sendable()
    ensures Decode(Encode(ms), allowed) == Decoded(Reports(ms, allowed), [])
        <==> forall m :: m in ms && m.Reply? ==> !Ambiguous(m.fields)
  {
    hide Message.Wire, Report, IsHeartbeat, Ambiguous, Decode;
    var ts, d := Undamaged(ms), Decode(Encode(ms), allowed);
    UndamagedOnWire(ms);
    DamageIsolation(ts, allowed);
    forall i | 0 <= i < |ms|
      ensures ts[i].Lookalike() <==> ms[i].Reply? && Ambiguous(ms[i].fields)
    {
      assert ms[i] in ms;
      LookalikeIffAmbiguous(ms[i]);
    }
    if AllFaithful(ts, d, allowed) {
      forall i | 0 <= i < |ms|
        ensures d.items[i] == Reports(ms, allowed)[i]
      {
        assert Faithful(ts[i], d.items[i], allowed);
      }
      assert d.items == Reports(ms, allowed);
    }
    if d == Decoded(Reports(ms, allowed), []) {
      assert AllFaithful(ts, d, allowed);
    }
  }

  lemma LookalikeIffAmbiguous(m: Message)
    requires m.Sendable()
    ensures Transmission(m, None).Lookalike() <==> m.Reply? && Ambiguous(m.fields)
  {
    if m.Reply? {
      AmbiguousIffHeartbeat(m.fields);
    }
  }

  /** Without an allowlist a frame is handed out; with one, iff its reader is on it. */
  lemma ReaderLetThrough(x: Fields, s: set<byte>)
    requires x.InRange() && !Ambiguous(x)
    ensures var raw, address := x.Build().value, ByteOf(x.address);
      && Decode(raw, None) == Decoded([Item(raw, Response(ResponseOf(x)))], [])
      && Decode(raw, Some(s)) == Decoded([Item(raw,
           if address in s then Response(ResponseOf(x)) else Error(UnknownReader(address)))], [])
  {
    hide Fields.Build, Decode, ResponseOf, Ambiguous;
    var m := Reply(x);
    BuildsIffInRange(x);
    assert Encode([m]) == m.Wire() by {
      assert [m][1..] == [];
      assert m.Wire() + [] == m.Wire();
    }
    RoundTrip([m], None);
    RoundTrip([m], Some(s));
    assert Reports([m], None) == [Item(m.Wire(), Report(m, None))];
    assert Reports([m], Some(s)) == [Item(m.Wire(), Report(m, Some(s)))];
  }

  /**
   * An input on which decoding fails: the frame of an all-zero response with 81 data bytes is
   * read as a heartbeat, followed by whatever its other 81 bytes are taken for.
   */
  lemma RoundTripFails(allowed: Allowed)
    ensures var m := Reply(Fields(0, 0, 0, seq(81, _ => 0)));
      && m.Sendable() && |m.Wire()| == 87
      && var d := Decode(m.Wire(), allowed);
      && d.items != [] && d.items[0] == Item(HEARTBEAT, Heartbeat(HEARTBEAT))
      && Decode(Encode([m]), allowed) != Decoded(Reports([m], allowed), [])
  {
    hide Fields.Build, Report, Decode, Size;
    var x := Fields(0, 0, 0, seq(81, _ => 0));
    var m := Reply(x);
    BuildsIffInRange(x);
    BuiltIsAccepted(x);
    AmbiguousIffHeartbeat(x);
    HeartbeatComesFirst(m.Wire(), allowed);
    assert m in [m] && Ambiguous(m.fields);
    RoundTrip([m], allowed);
  }

  lemma HeartbeatComesFirst(raw: seq<byte>, allowed: Allowed)
    requires IsHeartbeat(raw)
    ensures var d := Decode(raw, allowed);
      d.items != [] && d.items[0] == Item(HEARTBEAT, Heartbeat(HEARTBEAT))
  {}

  // ---- the three result lists of a damaged stream ----

  function IntactResponses(ts: seq<Transmission>): seq<RfidResponse>
    requires AllPossible(ts)
  {
    if ts == [] then []
    else
      (if ts[0].damage.None? && ts[0].message.Reply? then [ResponseOf(ts[0].message.fields)] else [])
      + IntactResponses(ts[1..])
  }

  function DamagedCount(ts: seq<Transmission>): nat {
    if ts == [] then 0 else (if ts[0].damage.Some? then 1 else 0) + DamagedCount(ts[1..])
  }

  function BeatCount(ts: seq<Transmission>): nat {
    if ts == [] then 0 else (if ts[0].message.Beat? then 1 else 0) + BeatCount(ts[1..])
  }

  lemma {:induction false} FaithfulLists(ts: seq<Transmission>, d: Decoded)
    requires AllPossible(ts) && AllFaithful(ts, d, None)
    ensures Frames(d.items) == IntactResponses(ts)
    ensures |Errors(d.items)| == DamagedCount(ts) && |Heartbeats(d.items)| == BeatCount(ts)
    decreases |ts|
  {
    hide Transmission.Received, Transmission.Possible, ResponseOf;
    if ts != [] {
      var item, others := d.items[0], d.items[1..];
      HeadAndTail(ts, item, Decoded(others, d.rest), None);
      assert d.items == [item] + others;
      FaithfulLists(ts[1..], Decoded(others, d.rest));
      hide AllPossible, AllFaithful;
      FaithfulEvent(ts[0], item);
    }
  }

  lemma FaithfulEvent(t: Transmission, item: Item)
    requires t.Possible() && Faithful(t, item, None)
    ensures t.message.Reply? ==> t.message.fields.InRange()
    ensures FrameIn(item.event)
         == if t.damage.None? && t.message.Reply? then [ResponseOf(t.message.fields)] else []
    ensures |ErrorIn(item.event)| == if t.damage.Some? then 1 else 0
    ensures |HeartbeatIn(item.event)| == if t.message.Beat? then 1 else 0
  {
    hide ResponseOf;
  }

  /** Without an allowlist, damage that is noticed costs one error per damaged frame and nothing else. */
  lemma {:induction false} DamageCost(ts: seq<Transmission>)
    requires AllPossible(ts) && forall i :: 0 <= i < |ts| ==> !ts[i].Lookalike() && !ts[i].Missed()
    ensures var d := Decode(OnWire(ts), None);
      && d.rest == []
      && Frames(d.items) == IntactResponses(ts)
      && |Errors(d.items)| == DamagedCount(ts)
      && |Heartbeats(d.items)| == BeatCount(ts)
  {
    DamageIsolation(ts, None);
    FaithfulLists(ts, Decode(OnWire(ts), None));
  }
}
