/**
 * The relay's binary wire format: bytes, big-endian unsigned integers, the
 * identity byte, the 10-byte heartbeat frame (tag 1) and the latency sample
 * the server derives from an echoed heartbeat.
 */
module Wire {
  import opened Js

  type byte = b: int | 0 <= b < 256

  /** Capacity of the slot table (`new Array(255)`). */
  const SLOTS: nat := 255

  /** A slot index of the room table. */
  type Slot = k: nat | k < 255

  /** `Date.now()`: whole milliseconds, always below 2^53. */
  type Millis = t: nat | t < 0x20_0000_0000_0000

  /** Message tags (byte 0). */
  const TAG_USERS: byte := 0
  const TAG_HEARTBEAT: byte := 1
  const TAG_NICKNAME: byte := 2
  const TAG_MOTION: byte := 3

  /** Latency samples are clamped from above to what a u16 holds. */
  const MAX_LATENCY: nat := 65535

  /** 256 to the power `w`: one more than the largest `w`-byte unsigned value. */
  function Pow256(w: nat): (p: nat)
    ensures p >= 1
  {
    if w == 0 then 1 else 256 * Pow256(w - 1)
  }

  lemma Pow256Values()
    ensures Pow256(2) == 0x1_0000
    ensures Pow256(4) == 0x1_0000_0000
    ensures Pow256(8) == 0x1_0000_0000_0000_0000
  {
    assert Pow256(1) == 256;
    assert Pow256(2) == 0x1_0000;
    assert Pow256(3) == 0x100_0000;
    assert Pow256(4) == 0x1_0000_0000;
    assert Pow256(5) == 0x100_0000_0000;
    assert Pow256(6) == 0x1_0000_0000_0000;
    assert Pow256(7) == 0x100_0000_0000_0000;
  }

  lemma DivBound(n: nat, p: nat)
    requires n < 256 * p
    ensures n / 256 < p
  {
  }

  /** `writeUIntBE`: `n` as `width` bytes, most significant first. */
  function ToBigEndian(n: nat, width: nat): (bytes: seq<byte>)
    requires n < Pow256(width)
    ensures |bytes| == width
  {
    if width == 0 then []
    else
      DivBound(n, Pow256(width - 1));
      ToBigEndian(n / 256, width - 1) + [n % 256]
  }

  /** `readUIntBE`: the unsigned value of big-endian bytes, always in range. */
  function FromBigEndian(bytes: seq<byte>): (n: nat)
    ensures n < Pow256(|bytes|)
  {
    if |bytes| == 0 then 0
    else FromBigEndian(bytes[..|bytes| - 1]) * 256 + bytes[|bytes| - 1]
  }

  /** Decoding what was encoded gives the number back. */
  lemma {:induction false} DecodeEncode(n: nat, width: nat)
    requires n < Pow256(width)
    ensures FromBigEndian(ToBigEndian(n, width)) == n
  {
    if width > 0 {
      var bytes := ToBigEndian(n, width);
      DivBound(n, Pow256(width - 1));
      assert bytes[..width - 1] == ToBigEndian(n / 256, width - 1);
      DecodeEncode(n / 256, width - 1);
    }
  }

  /** Encoding what was decoded gives the bytes back. */
  lemma {:induction false} EncodeDecode(bytes: seq<byte>)
    ensures ToBigEndian(FromBigEndian(bytes), |bytes|) == bytes
  {
    if |bytes| > 0 {
      var init := bytes[..|bytes| - 1];
      var n := FromBigEndian(bytes);
      assert n / 256 == FromBigEndian(init);
      assert n % 256 == bytes[|bytes| - 1];
      EncodeDecode(init);
      assert bytes == init + [bytes[|bytes| - 1]];
    }
  }

  /** `writeUInt8(x)` of an identity: an undefined `_id` is coerced to 0. */
  function IdByte(id: Option<Slot>): (b: byte)
    ensures id.Some? ==> b == id.value
    ensures id.None? ==> b == 0
  {
    match id
    case None => 0
    case Some(k) => k
  }

  /**
   * The heartbeat the server sends every interval: tag 1, the connection's
   * identity, then the send time as a big-endian u64.
   */
  function HeartbeatFrame(id: byte, now: Millis): (frame: seq<byte>)
    ensures |frame| == 10 && frame[0] == TAG_HEARTBEAT && frame[1] == id
    ensures FromBigEndian(frame[2..]) == now
  {
    Pow256Values();
    DecodeEncode(now, 8);
    var frame := [TAG_HEARTBEAT, id] + ToBigEndian(now, 8);
    assert frame[2..] == ToBigEndian(now, 8);
    frame
  }

  /**
   * The latency sample of an inbound tag-1 message received at `now`:
   * `now` minus the big-endian u64 at bytes 2..9, clamped from above only.
   */
  function MeasuredLatency(message: seq<byte>, now: Millis): (latency: int)
    requires |message| >= 10
    ensures latency <= MAX_LATENCY
    ensures latency == MAX_LATENCY || latency == now - FromBigEndian(message[2..10])
    ensures now - FromBigEndian(message[2..10]) <= MAX_LATENCY ==> latency == now - FromBigEndian(message[2..10])
  {
    var elapsed := now - FromBigEndian(message[2..10]);
    if elapsed < MAX_LATENCY then elapsed else MAX_LATENCY
  }

  /**
   * A heartbeat echoed back unchanged, whatever the identity byte was
   * rewritten to, yields the clamped round-trip time.
   */
  lemma EchoLatency(sent: Millis, received: Millis, id: byte, echo: seq<byte>)
    requires |echo| >= 10 && echo[2..10] == HeartbeatFrame(id, sent)[2..]
    ensures MeasuredLatency(echo, received) == if received - sent < MAX_LATENCY then received - sent else MAX_LATENCY
  {
  }
}
