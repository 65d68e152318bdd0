/** Fixed inputs with known answers, from published sources and from a captured frame. */
module Vectors {
  import opened Wrappers
  import opened Bits
  import opened Checksum
  import opened Frame
  import opened Stream

  lemma {:induction false} Chain(data: seq<byte>, regs: seq<bv16>)
    requires |regs| == |data| + 1
    requires forall i :: 0 <= i < |data| ==> ByteStep(regs[i], data[i]) == regs[i + 1]
    ensures Update(regs[0], data) == regs[|data|]
    decreases |data|
  {
    hide ByteStep;
    if data != [] {
      assert forall i :: 0 <= i < |data[1..]| ==> data[1..][i] == data[i + 1] && regs[1..][i] == regs[i + 1];
      Chain(data[1..], regs[1..]);
    }
  }

  /** The check value of CRC-16/MCRF4XX: the checksum of "123456789". */
  lemma CheckValue()
    ensures Crc([0x31, 0x32, 0x33, 0x34, 0x35, 0x36, 0x37, 0x38, 0x39]) == 0x6F91
  {
    var data: seq<byte> := [0x31, 0x32, 0x33, 0x34, 0x35, 0x36, 0x37, 0x38, 0x39];
    var regs := [
      0xFFFF, 0x2F8D, 0x4D53, 0x634B, 0x8B13, 0x44BF, 0x198D, 0x1AC8, 0xF795, 0x6F91];
    assert ByteStep(0xFFFF, 0x31) == 0x2F8D;
    assert ByteStep(0x2F8D, 0x32) == 0x4D53;
    assert ByteStep(0x4D53, 0x33) == 0x634B;
    assert ByteStep(0x634B, 0x34) == 0x8B13;
    assert ByteStep(0x8B13, 0x35) == 0x44BF;
    assert ByteStep(0x44BF, 0x36) == 0x198D;
    assert ByteStep(0x198D, 0x37) == 0x1AC8;
    assert ByteStep(0x1AC8, 0x38) == 0xF795;
    assert ByteStep(0xF795, 0x39) == 0x6F91;
    hide ByteStep;
    Chain(data, regs);
  }

  lemma CommandRegister()
    ensures Update(0xFFFF, [0x04, 0x00, 0x21]) == 0x6AD9
  {
    var data: seq<byte> := [0x04, 0x00, 0x21];
    var regs := [
      0xFFFF, 0x49A3, 0x97D8, 0x6AD9];
    assert ByteStep(0xFFFF, 0x04) == 0x49A3;
    assert ByteStep(0x49A3, 0x00) == 0x97D8;
    assert ByteStep(0x97D8, 0x21) == 0x6AD9;
    hide ByteStep;
    Chain(data, regs);
  }

  /** The whole frame of "get reader info" to address 0. */
  lemma CommandFrame()
    ensures BuildCommandFrame(0, 0x21, []) == Ok([0x04, 0x00, 0x21, 0xD9, 0x6A])
  {
    CommandRegister();
    hide Update;
    assert ByteOf(4) == 0x04 && ByteOf(0) == 0x00 && ByteOf(0x21) == 0x21;
    var payload := [ByteOf(4), ByteOf(0), ByteOf(0x21)] + [];
    assert payload == [0x04, 0x00, 0x21];
    assert Trailer(0x6AD9) == [0xD9, 0x6A];
    assert payload + [0xD9, 0x6A] == [0x04, 0x00, 0x21, 0xD9, 0x6A];
  }

  lemma CapturedFirst()
    ensures Update(0xFFFF, [0x11, 0x00, 0xEE, 0x00]) == 0xAFB2
  {
    var data: seq<byte> := [0x11, 0x00, 0xEE, 0x00];
    var regs := [
      0xFFFF, 0x0E8F, 0x7CF1, 0xE80A, 0xAFB2];
    assert ByteStep(0xFFFF, 0x11) == 0x0E8F;
    assert ByteStep(0x0E8F, 0x00) == 0x7CF1;
    assert ByteStep(0x7CF1, 0xEE) == 0xE80A;
    assert ByteStep(0xE80A, 0x00) == 0xAFB2;
    hide ByteStep;
    Chain(data, regs);
  }

  lemma CapturedSecond()
    ensures Update(0xAFB2, [0x20, 0x00, 0x70, 0x8C]) == 0x2C09
  {
    var data: seq<byte> := [0x20, 0x00, 0x70, 0x8C];
    var regs := [
      0xAFB2, 0xB734, 0x7710, 0x6371, 0x2C09];
    assert ByteStep(0xAFB2, 0x20) == 0xB734;
    assert ByteStep(0xB734, 0x00) == 0x7710;
    assert ByteStep(0x7710, 0x70) == 0x6371;
    assert ByteStep(0x6371, 0x8C) == 0x2C09;
    hide ByteStep;
    Chain(data, regs);
  }

  lemma CapturedThird()
    ensures Update(0x2C09, [0x2B, 0x38, 0x0B, 0x2D]) == 0x4E9E
  {
    var data: seq<byte> := [0x2B, 0x38, 0x0B, 0x2D];
    var regs := [
      0x2C09, 0x023C, 0x4626, 0xFAA1, 0x4E9E];
    assert ByteStep(0x2C09, 0x2B) == 0x023C;
    assert ByteStep(0x023C, 0x38) == 0x4626;
    assert ByteStep(0x4626, 0x0B) == 0xFAA1;
    assert ByteStep(0xFAA1, 0x2D) == 0x4E9E;
    hide ByteStep;
    Chain(data, regs);
  }

  lemma CapturedFourth()
    ensures Update(0x4E9E, [0x00, 0x00, 0x00, 0x00]) == 0x56E0
  {
    var data: seq<byte> := [0x00, 0x00, 0x00, 0x00];
    var regs := [
      0x4E9E, 0x7DB9, 0x2837, 0x4514, 0x56E0];
    assert ByteStep(0x4E9E, 0x00) == 0x7DB9;
    assert ByteStep(0x7DB9, 0x00) == 0x2837;
    assert ByteStep(0x2837, 0x00) == 0x4514;
    assert ByteStep(0x4514, 0x00) == 0x56E0;
    hide ByteStep;
    Chain(data, regs);
  }

  /** A captured tag report: its fields and its checksum. */
  lemma CapturedFrame()
    ensures
      var head: seq<byte>, data := [0x11, 0x00, 0xEE, 0x00], [
        0x20, 0x00, 0x70, 0x8C, 0x2B, 0x38, 0x0B, 0x2D, 0x00, 0x00, 0x00, 0x00];
      ValidateFrame(head + data + [0xE0, 0x56]) == Ok(RfidResponse(0x11, 0x00, 0xEE, 0x00, data, 0x56E0))
  {
    CapturedFirst();
    CapturedSecond();
    CapturedThird();
    CapturedFourth();
    hide Update;
    var a: seq<byte> := [0x11, 0x00, 0xEE, 0x00];
    var b: seq<byte> := [0x20, 0x00, 0x70, 0x8C];
    var c: seq<byte> := [0x2B, 0x38, 0x0B, 0x2D];
    var d: seq<byte> := [0x00, 0x00, 0x00, 0x00];
    UpdateAppend(0xFFFF, a, b);
    UpdateAppend(0xFFFF, a + b, c);
    UpdateAppend(0xFFFF, a + b + c, d);
    var raw := a + b + c + d + [0xE0, 0x56];
    assert raw[..16] == a + b + c + d && raw[16..] == [0xE0, 0x56];
    assert TrailerValue([0xE0, 0x56]) == 0x56E0;
    assert Size(0x11) == 17;
    var data: seq<byte> := [
      0x20, 0x00, 0x70, 0x8C, 0x2B, 0x38, 0x0B, 0x2D, 0x00, 0x00, 0x00, 0x00];
    assert raw[4..16] == data;
    assert [0x11, 0x00, 0xEE, 0x00] + data + [0xE0, 0x56] == raw;
  }

  /** The heartbeat, and what waits for more bytes or is skipped. */
  lemma Heartbeats()
    ensures HEARTBEAT == [0x56, 0x00, 0x00, 0x00, 0x00, 0x00]
    ensures Decode(HEARTBEAT, None) == Decoded([Item(HEARTBEAT, Heartbeat(HEARTBEAT))], [])
    ensures Decode([0x56, 0x00], None) == Decoded([], [0x56, 0x00])
    ensures Decode([0x03], None) == Decoded([Item([0x03], Error(BadLength(0x03)))], [])
  {
    assert HEARTBEAT[HEARTBEAT_LENGTH..] == [] && HEARTBEAT[..HEARTBEAT_LENGTH] == HEARTBEAT;
    assert Size(0x03) == 3;
    var short: seq<byte> := [0x03];
    assert short[1..] == [] && short[..1] == short;
    assert Decode([], None) == Decoded([], []);
    assert Decode(short, None).items == [Item(short, Error(BadLength(0x03)))] + [];
  }
}
