/** Frame layout: the builders of `builder.py` and the validator and serializer of `frame.py`. */
module Frame {
  import opened Wrappers
  import opened Bits
  import opened Checksum
  import opened Order
  import opened Detection

  const MIN_FRAME_LENGTH: nat := 5
  const HEARTBEAT_MARKER: byte := 0x56
  const HEARTBEAT_LENGTH: nat := 6
  const HEARTBEAT: seq<byte> := [HEARTBEAT_MARKER, 0, 0, 0, 0, 0]

  /** A byte as the number of bytes it announces. */
  function Size(b: byte): nat {
    b as nat
  }

  predicate IsByte(n: int) {
    0 <= n <= 0xFF
  }

  function ByteOf(n: int): byte
    requires IsByte(n)
  {
    n as byte
  }

  lemma SizeRange(b: byte)
    ensures IsByte(Size(b)) && ByteOf(Size(b)) == b
  {}

  lemma SizeOfByte(n: int)
    requires IsByte(n)
    ensures Size(ByteOf(n)) == n
  {
    ConvertBack(n);
  }

  lemma ConvertBack(n: int)
    requires 0 <= n < 256
    ensures (n as bv8) as int == n
  {
    assert n % 256 == n;
  }

  datatype BuildError = AddressOutOfRange | CommandOutOfRange | StatusOutOfRange | DataTooLong

  datatype FrameError =
    | EmptyFrame
    | LengthTooSmall(length: byte)
    | LengthMismatch(length: byte, got: nat)
    | CrcMismatch(received: bv16, computed: bv16)

  datatype RfidResponse = RfidResponse(
    length: byte, readerAddress: byte, command: byte, status: byte, data: seq<byte>, crc: bv16)
  {
    function ToBytes(): seq<byte> {
      [length, readerAddress, command, status] + data + Trailer(crc)
    }
  }

  function WithCrc(payload: seq<byte>): (raw: seq<byte>)
    ensures |raw| == |payload| + 2
  {
    payload + Trailer(Crc(payload))
  }

  function BuildCommandFrame(address: int, command: int, data: seq<byte>): Result<seq<byte>, BuildError> {
    if !IsByte(address) then Err(AddressOutOfRange)
    else if !IsByte(command) then Err(CommandOutOfRange)
    else if |data| > 251 then Err(DataTooLong)
    else Ok(WithCrc([ByteOf(|data| + 4), ByteOf(address), ByteOf(command)] + data))
  }

  function BuildResponseFrame(readerAddress: int, command: int, status: int, data: seq<byte>)
    : Result<seq<byte>, BuildError>
  {
    if !IsByte(readerAddress) then Err(AddressOutOfRange)
    else if !IsByte(command) then Err(CommandOutOfRange)
    else if !IsByte(status) then Err(StatusOutOfRange)
    else if |data| > 250 then Err(DataTooLong)
    else Ok(WithCrc([ByteOf(|data| + 5), ByteOf(readerAddress), ByteOf(command), ByteOf(status)] + data))
  }

  predicate IsHeartbeat(data: seq<byte>) {
    |data| >= HEARTBEAT_LENGTH && data[..HEARTBEAT_LENGTH] == HEARTBEAT
  }

  function ValidateFrame(raw: seq<byte>): Result<RfidResponse, FrameError> {
    if raw == [] then Err(EmptyFrame)
    else if Size(raw[0]) < MIN_FRAME_LENGTH then Err(LengthTooSmall(raw[0]))
    else if |raw| != Size(raw[0]) + 1 then Err(LengthMismatch(raw[0], |raw|))
    else
      var n := |raw| - 2;
      var received, computed := TrailerValue(raw[n..]), Crc(raw[..n]);
      if received != computed then Err(CrcMismatch(received, computed))
      else Ok(RfidResponse(raw[0], raw[1], raw[2], raw[3], raw[4..n], received))
  }

  // ---- the accepted strings are exactly the built ones ----

  /** The fields that a response frame carries, as the builder takes them. */
  datatype Fields = Fields(address: int, command: int, status: int, data: seq<byte>) {
    predicate InRange() {
      IsByte(address) && IsByte(command) && IsByte(status) && |data| <= 250
    }

    function Build(): Result<seq<byte>, BuildError> {
      BuildResponseFrame(address, command, status, data)
    }
  }

  function FieldsOf(f: RfidResponse): Fields {
    Fields(Size(f.readerAddress), Size(f.command), Size(f.status), f.data)
  }

  lemma BuildsIffInRange(x: Fields)
    ensures x.Build().Ok? <==> x.InRange()
    ensures x.InRange() <==> 0 <= x.address <= 255 && 0 <= x.command <= 255 && 0 <= x.status <= 255 && |x.data| <= 250
  {}

  /** What a builder complains about: the first argument that is out of range. */
  lemma BuildErrorsAre(x: Fields)
    ensures !(0 <= x.address <= 255) ==> x.Build() == Err(AddressOutOfRange)
    ensures 0 <= x.address <= 255 && !(0 <= x.command <= 255) ==> x.Build() == Err(CommandOutOfRange)
    ensures 0 <= x.address <= 255 && 0 <= x.command <= 255 && !(0 <= x.status <= 255)
        ==> x.Build() == Err(StatusOutOfRange)
    ensures 0 <= x.address <= 255 && 0 <= x.command <= 255 && 0 <= x.status <= 255 && |x.data| > 250
        ==> x.Build() == Err(DataTooLong)
  {}

  lemma CommandBuildsIff(address: int, command: int, data: seq<byte>)
    ensures BuildCommandFrame(address, command, data).Ok?
        <==> 0 <= address <= 255 && 0 <= command <= 255 && |data| <= 251
  {}

  /** Why a string is refused, in this order; the two checksums are the one found and the one computed. */
  lemma RefusalsAre(raw: seq<byte>)
    ensures raw == [] ==> ValidateFrame(raw) == Err(EmptyFrame)
    ensures raw != [] && Size(raw[0]) < 5 ==> ValidateFrame(raw) == Err(LengthTooSmall(raw[0]))
    ensures raw != [] && Size(raw[0]) >= 5 && |raw| != Size(raw[0]) + 1
        ==> ValidateFrame(raw) == Err(LengthMismatch(raw[0], |raw|))
    ensures raw != [] && Size(raw[0]) >= 5 && |raw| == Size(raw[0]) + 1 && Crc(raw) != 0
        ==> var n := |raw| - 2;
            ValidateFrame(raw) == Err(CrcMismatch(Word(raw[n], raw[n + 1]), Crc(raw[..n])))
  {
    ZeroResidueRule(raw);
    hide Crc, Size;
  }

  /** A built frame is accepted, yields the fields it was built from, and serializes to itself. */
  lemma BuiltIsAccepted(x: Fields)
    requires x.InRange()
    ensures var raw := x.Build().value;
      && ValidateFrame(raw).Ok?
      && FieldsOf(ValidateFrame(raw).value) == x
      && ValidateFrame(raw).value.ToBytes() == raw
      && Size(raw[0]) == |x.data| + 5 == |raw| - 1
  {
    hide Crc, Trailer, TrailerValue, Size, ByteOf;
    var raw := x.Build().value;
    var payload := [ByteOf(|x.data| + 5), ByteOf(x.address), ByteOf(x.command), ByteOf(x.status)] + x.data;
    SizeOfByte(|x.data| + 5);
    SizeOfByte(x.address);
    SizeOfByte(x.command);
    SizeOfByte(x.status);
    assert raw[..|raw| - 2] == payload && raw[|raw| - 2..] == Trailer(Crc(payload));
    TrailerRoundTrip(Crc(payload));
    assert raw[4..|raw| - 2] == x.data;
  }

  /** Every accepted string is the frame built from the fields found in it. */
  lemma AcceptedIsBuilt(raw: seq<byte>)
    requires ValidateFrame(raw).Ok?
    ensures var f := ValidateFrame(raw).value;
      && FieldsOf(f).InRange()
      && FieldsOf(f).Build() == Ok(raw)
      && f.ToBytes() == raw
  {
    hide Crc, Trailer, TrailerValue, Size, ByteOf;
    var f := ValidateFrame(raw).value;
    var n := |raw| - 2;
    SizeRange(raw[0]);
    SizeRange(raw[1]);
    SizeRange(raw[2]);
    SizeRange(raw[3]);
    TrailerOnto(raw[n..]);
    assert [raw[0], raw[1], raw[2], raw[3]] + raw[4..n] == raw[..n];
    assert raw[..n] + raw[n..] == raw;
  }

  lemma AcceptedIffBuilt(raw: seq<byte>)
    ensures ValidateFrame(raw).Ok? <==> exists x: Fields :: x.Build() == Ok(raw)
  {
    if ValidateFrame(raw).Ok? {
      AcceptedIsBuilt(raw);
      assert FieldsOf(ValidateFrame(raw).value).Build() == Ok(raw);
    }
    if x: Fields :| x.Build() == Ok(raw) {
      BuildsIffInRange(x);
      BuiltIsAccepted(x);
    }
  }

  lemma BuildInjective(x: Fields, y: Fields)
    requires x.InRange() && y.InRange() && x.Build() == y.Build()
    ensures x == y
  {
    BuiltIsAccepted(x);
    BuiltIsAccepted(y);
  }

  /** Acceptance is the documented rule: the announced length, and a zero checksum over all bytes. */
  lemma ZeroResidueRule(raw: seq<byte>)
    ensures ValidateFrame(raw).Ok?
        <==> |raw| > MIN_FRAME_LENGTH && |raw| == Size(raw[0]) + 1 && Crc(raw) == 0
  {
    hide Crc, TrailerValue;
    if |raw| > MIN_FRAME_LENGTH {
      var n := |raw| - 2;
      assert raw[..n] + raw[n..] == raw;
      Residue(raw[..n], raw[n..]);
    }
  }

  /** A command with data reads as a response whose status is the first data byte. */
  lemma CommandReadsAsResponse(address: int, command: int, data: seq<byte>)
    requires IsByte(address) && IsByte(command) && |data| <= 251
    ensures var raw := BuildCommandFrame(address, command, data).value;
      if data == [] then ValidateFrame(raw) == Err(LengthTooSmall(4))
      else
        && ValidateFrame(raw).Ok?
        && FieldsOf(ValidateFrame(raw).value) == Fields(address, command, Size(data[0]), data[1..])
  {
    hide Crc, Trailer, TrailerValue, Size, ByteOf;
    SizeOfByte(|data| + 4);
    Sizes();
    if data != [] {
      var x := Fields(address, command, Size(data[0]), data[1..]);
      SizeRange(data[0]);
      assert [ByteOf(|data| + 4), ByteOf(address), ByteOf(command)] + data
          == [ByteOf(|x.data| + 5), ByteOf(x.address), ByteOf(x.command), ByteOf(x.status)] + x.data;
      BuiltIsAccepted(x);
    }
  }

  lemma Sizes()
    ensures Size(HEARTBEAT_MARKER) == 86 && ByteOf(86) == HEARTBEAT_MARKER
    ensures Size(0) == 0 && ByteOf(0) == 0 && ByteOf(4) == 4 && Size(4) == 4
  {}

  /** Exactly one family of frames begins like a heartbeat. */
  predicate Ambiguous(x: Fields) {
    && x.address == 0 && x.command == 0 && x.status == 0
    && |x.data| == 81 && x.data[0] == 0 && x.data[1] == 0
  }

  lemma AmbiguousIffHeartbeat(x: Fields)
    requires x.InRange()
    ensures IsHeartbeat(x.Build().value) <==> Ambiguous(x)
  {
    hide Crc, Trailer, Size, ByteOf;
    var raw := x.Build().value;
    SizeRange(raw[0]);
    Sizes();
    SizeOfByte(|x.data| + 5);
    SizeOfByte(x.address);
    SizeOfByte(x.command);
    SizeOfByte(x.status);
    if IsHeartbeat(raw) || Ambiguous(x) {
      assert |x.data| == 81 by {
        if IsHeartbeat(raw) {
          assert raw[0] == raw[..6][0];
        }
      }
      assert raw[..6] == [raw[0], ByteOf(x.address), ByteOf(x.command), ByteOf(x.status), x.data[0], x.data[1]];
      if IsHeartbeat(raw) {
        assert raw[1] == raw[..6][1] && raw[2] == raw[..6][2] && raw[3] == raw[..6][3];
        assert raw[4] == raw[..6][4] && raw[5] == raw[..6][5];
      }
    }
  }

  // ---- damage ----

  /** Damage of a kind that the checksum is guaranteed to notice. */
  ghost predicate Noticeable(e: bits) {
    || (exists lo: nat :: Burst(e, lo))
    || Weight(e) % 2 == 1
    || (Weight(e) == 2 && |e| <= ORDER)
  }

  lemma NoticeableIsNoticed(e: seq<byte>)
    requires Noticeable(BitsOf(e))
    ensures Syndrome(e) != 0
  {
    hide Feed, Weight, BitsOf;
    var m := BitsOf(e);
    if Weight(m) % 2 == 1 {
      OddNoticed(m);
    } else if Weight(m) == 2 && |m| <= ORDER {
      SmallErrorsNoticed(m);
    } else {
      var lo: nat :| Burst(m, lo);
      BurstNoticed(m, lo);
    }
  }

  /** Damage outside the length byte leaves a frame acceptable iff the checksum misses it. */
  lemma {:induction false} DamagedAcceptance(raw: seq<byte>, e: seq<byte>)
    requires ValidateFrame(raw).Ok? && |e| == |raw| && e[0] == 0
    ensures ValidateFrame(Xor(raw, e)).Ok? <==> Syndrome(e) == 0
    ensures !ValidateFrame(Xor(raw, e)).Ok? ==> ValidateFrame(Xor(raw, e)).error.CrcMismatch?
  {
    hide Crc, Syndrome, TrailerValue, Plus;
    ZeroResidueRule(raw);
    ZeroResidueRule(Xor(raw, e));
    CrcXor(raw, e);
    PlusGroup(Syndrome(e), 0, 0);
    assert raw[0] ^ 0 == raw[0];
  }

  /** One burst of up to 16 bits, or up to three (or any odd number of) flipped bits, is rejected. */
  lemma {:induction false} DamagedIsRejected(raw: seq<byte>, e: seq<byte>)
    requires ValidateFrame(raw).Ok? && |e| == |raw| && e[0] == 0
    requires Noticeable(BitsOf(e)) || 1 <= Weight(BitsOf(e)) <= 3
    ensures ValidateFrame(Xor(raw, e)).Err? && ValidateFrame(Xor(raw, e)).error.CrcMismatch?
  {
    hide Crc, Syndrome, TrailerValue, Plus, Weight, BitsOf;
    SizeRange(raw[0]);
    assert 1 <= Weight(BitsOf(e)) <= 3 ==> Noticeable(BitsOf(e));
    NoticeableIsNoticed(e);
    DamagedAcceptance(raw, e);
  }
}
