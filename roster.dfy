/**
 * The roster message (tag 0) built by `getUsers`: byte 0 is the tag, then
 * one 17-byte record per live client in registry order: identity (1 byte),
 * nickname as UTF-8 truncated or zero-padded to 10 bytes, `ip2long` of the
 * stored address (big-endian u32), latency (big-endian u16).
 */
module Roster {
  import opened Js
  import opened Wire
  import opened Address

  const NICKNAME_BYTES: nat := 10
  const RECORD_SIZE: nat := 17  // 1 + 10 + 4 + 2

  /** What `getUsers` reads off one client; `None` stands for a field still `undefined`. */
  datatype Entry = Entry(id: Option<Slot>, nickname: Option<string>, address: Option<string>, latency: Option<int>)

  /** The nickname field: bytes 0..9 of the encoding, `undefined` past its end written as 0. */
  function Pad10(buf: seq<byte>): (field: seq<byte>)
    ensures |field| == NICKNAME_BYTES
    ensures |buf| >= NICKNAME_BYTES ==> field == buf[..NICKNAME_BYTES]
    ensures |buf| < NICKNAME_BYTES ==> field[..|buf|] == buf
    ensures forall j :: |buf| <= j < NICKNAME_BYTES ==> field[j] == 0
  {
    seq(NICKNAME_BYTES, j requires 0 <= j < NICKNAME_BYTES => if j < |buf| then buf[j] else 0)
  }

  /**
   * A client `getUsers` can write without throwing: `Buffer.from` needs a
   * nickname, `ip2long` needs an address, and `writeUInt16BE` needs a
   * latency in [0, 65535] (an undefined latency is written as 0).
   */
  predicate Writable(e: Entry) {
    e.nickname.Some? && e.address.Some? && (e.latency.Some? ==> 0 <= e.latency.value <= MAX_LATENCY)
  }

  /** The u16 written for the latency: 0 while it is undefined. */
  function LatencyField(latency: Option<int>): (v: nat)
    requires latency.Some? ==> 0 <= latency.value <= MAX_LATENCY
    ensures v <= MAX_LATENCY
  {
    match latency
    case None => 0
    case Some(l) => l
  }

  /** The 17 bytes of one client's record. */
  function EncodeRecord(e: Entry, utf8: string -> seq<byte>): (record: seq<byte>)
    requires Writable(e)
    ensures |record| == RECORD_SIZE
  {
    [IdByte(e.id)] + Pad10(utf8(e.nickname.value))
    + ToBigEndian(Ip2Long(e.address.value), 4) + ToBigEndian(LatencyField(e.latency), 2)
  }

  /**
   * The exception raised on a client that is not writable: `Buffer.from(undefined)`
   * and `undefined.split` raise TypeError, an out-of-range u16 raises RangeError.
   */
  function RecordError(e: Entry): Error
    requires !Writable(e)
  {
    if e.nickname.None? || e.address.None? then TypeError else RangeError
  }

  /** Writing one client's record. */
  function Record(e: Entry, utf8: string -> seq<byte>): Result<seq<byte>> {
    if Writable(e) then Ok(EncodeRecord(e, utf8)) else Throw(RecordError(e))
  }

  /** Writing the records of `es` in order; the first client that throws ends the build. */
  function Records(es: seq<Entry>, utf8: string -> seq<byte>): Result<seq<byte>> {
    if |es| == 0 then Ok([])
    else
      match Records(es[..|es| - 1], utf8)
      case Throw(error) => Throw(error)
      case Ok(done) =>
        match Record(es[|es| - 1], utf8)
        case Throw(error) => Throw(error)
        case Ok(record) => Ok(done + record)
  }

  /** `getUsers()`: undefined with no clients, else the roster buffer, unless a record throws. */
  function Users(es: seq<Entry>, utf8: string -> seq<byte>): (users: Result<Option<seq<byte>>>)
    ensures users == Ok(None) <==> |es| == 0
    ensures users.Ok? && users.value.Some? ==>
      |users.value.value| == 1 + 17 * |es| && users.value.value[0] == TAG_USERS
  {
    if |es| == 0 then Ok(None)
    else
      match Records(es, utf8)
      case Throw(error) => Throw(error)
      case Ok(records) =>
        RecordsOkWritable(es, utf8);
        RecordsLayout(es, utf8);
        Ok(Some([TAG_USERS] + records))
  }

  /** The first client that cannot be written ends the build with its exception. */
  lemma RecordsStop(es: seq<Entry>, i: nat, utf8: string -> seq<byte>)
    requires i < |es| && Records(es[..i], utf8).Ok? && !Writable(es[i])
    ensures Records(es, utf8) == Throw(RecordError(es[i]))
  {
    RecordsOkWritable(es[..i], utf8);
    assert forall j :: 0 <= j < i ==> es[..i][j] == es[j];
    RecordsThrow(es, utf8, i);
  }

  /** The records of `es`, one per client, when every client is writable. */
  function Encodings(es: seq<Entry>, utf8: string -> seq<byte>): (records: seq<seq<byte>>)
    requires forall i :: 0 <= i < |es| ==> Writable(es[i])
    ensures |records| == |es|
  {
    if |es| == 0 then [] else Encodings(es[..|es| - 1], utf8) + [EncodeRecord(es[|es| - 1], utf8)]
  }

  /** Record `i` of the list is client `i`'s record. */
  lemma {:induction false} EncodingsAt(es: seq<Entry>, utf8: string -> seq<byte>)
    requires forall i :: 0 <= i < |es| ==> Writable(es[i])
    ensures forall i :: 0 <= i < |es| ==> Encodings(es, utf8)[i] == EncodeRecord(es[i], utf8)
  {
    if |es| > 0 {
      var n := |es| - 1;
      EncodingsAt(es[..n], utf8);
      assert forall i :: 0 <= i < n ==> es[..n][i] == es[i];
    }
  }

  /** The chunks of `chunks`, back to back. */
  function Flatten(chunks: seq<seq<byte>>): seq<byte> {
    if |chunks| == 0 then [] else Flatten(chunks[..|chunks| - 1]) + chunks[|chunks| - 1]
  }

  /** Chunks of 17 bytes each sit at multiples of 17 in their concatenation. */
  lemma {:induction false} FlattenLayout(chunks: seq<seq<byte>>)
    requires forall i :: 0 <= i < |chunks| ==> |chunks[i]| == RECORD_SIZE
    ensures |Flatten(chunks)| == 17 * |chunks|
    ensures forall i :: 0 <= i < |chunks| ==> Flatten(chunks)[17 * i..17 * (i + 1)] == chunks[i]
  {
    if |chunks| > 0 {
      var n := |chunks| - 1;
      var done := Flatten(chunks[..n]);
      FlattenLayout(chunks[..n]);
      forall i | 0 <= i < |chunks|
        ensures Flatten(chunks)[17 * i..17 * (i + 1)] == chunks[i]
      {
        if i < n {
          assert chunks[..n][i] == chunks[i];
          ChunkBefore(done, chunks[n], i);
        } else {
          ChunkAfter(done, chunks[n]);
        }
      }
    }
  }

  /** With every client writable, the build succeeds with the records back to back. */
  lemma {:induction false} RecordsFlatten(es: seq<Entry>, utf8: string -> seq<byte>)
    requires forall i :: 0 <= i < |es| ==> Writable(es[i])
    ensures Records(es, utf8) == Ok(Flatten(Encodings(es, utf8)))
  {
    if |es| > 0 {
      var n := |es| - 1;
      RecordsFlatten(es[..n], utf8);
      var chunks := Encodings(es, utf8);
      assert chunks[..n] == Encodings(es[..n], utf8);
    }
  }

  /** When every client is writable, the records sit back to back, 17 bytes each. */
  lemma RecordsLayout(es: seq<Entry>, utf8: string -> seq<byte>)
    requires forall i :: 0 <= i < |es| ==> Writable(es[i])
    ensures Records(es, utf8).Ok?
    ensures |Records(es, utf8).value| == 17 * |es|
    ensures forall i :: 0 <= i < |es| ==>
      Records(es, utf8).value[17 * i..17 * (i + 1)] == EncodeRecord(es[i], utf8)
  {
    var chunks := Encodings(es, utf8);
    RecordsFlatten(es, utf8);
    EncodingsAt(es, utf8);
    FlattenLayout(chunks);
  }

  /** A 17-byte chunk inside `done` is unchanged by appending. */
  lemma ChunkBefore(done: seq<byte>, last: seq<byte>, i: nat)
    requires 17 * (i + 1) <= |done|
    ensures (done + last)[17 * i..17 * (i + 1)] == done[17 * i..17 * (i + 1)]
  {
  }

  /** The appended 17 bytes are the chunk right after `done`. */
  lemma ChunkAfter(done: seq<byte>, last: seq<byte>)
    requires |last| == 17
    ensures (done + last)[|done|..|done| + 17] == last
  {
  }

  /** One more writable client appends its record. */
  lemma RecordsStep(es: seq<Entry>, i: nat, utf8: string -> seq<byte>)
    requires i < |es| && Records(es[..i], utf8).Ok? && Writable(es[i])
    ensures Records(es[..i + 1], utf8) == Ok(Records(es[..i], utf8).value + EncodeRecord(es[i], utf8))
  {
    assert es[..i + 1][..i] == es[..i];
  }

  /** Records build only when every client is writable. */
  lemma {:induction false} RecordsOkWritable(es: seq<Entry>, utf8: string -> seq<byte>)
    requires Records(es, utf8).Ok?
    ensures forall i :: 0 <= i < |es| ==> Writable(es[i])
  {
    if |es| > 0 {
      var n := |es| - 1;
      RecordsOkWritable(es[..n], utf8);
      assert forall i :: 0 <= i < n ==> es[..n][i] == es[i];
    }
  }

  /** The first client that is not writable decides the exception. */
  lemma {:induction false} RecordsThrow(es: seq<Entry>, utf8: string -> seq<byte>, k: nat)
    requires k < |es| && !Writable(es[k])
    requires forall i :: 0 <= i < k ==> Writable(es[i])
    ensures Records(es, utf8) == Throw(RecordError(es[k]))
  {
    var n := |es| - 1;
    if k < n {
      RecordsThrow(es[..n], utf8, k);
      assert Records(es[..n], utf8).Throw?;
    } else {
      assert forall i :: 0 <= i < n ==> es[..n][i] == es[i];
      RecordsLayout(es[..n], utf8);
      assert Record(es[n], utf8) == Throw(RecordError(es[k]));
    }
  }

  /**
   * Client `e`'s record sits at offset `at` of `frame`: its identity byte,
   * its padded nickname, and fields that decode back to the packed address
   * and the latency.
   */
  ghost predicate RecordAt(frame: seq<byte>, at: nat, e: Entry, utf8: string -> seq<byte>) {
    && Writable(e)
    && at + RECORD_SIZE <= |frame|
    && frame[at] == IdByte(e.id)
    && frame[at + 1..at + 11] == Pad10(utf8(e.nickname.value))
    && FromBigEndian(frame[at + 11..at + 15]) == Ip2Long(e.address.value)
    && FromBigEndian(frame[at + 15..at + 17]) == LatencyField(e.latency)
  }

  /**
   * The roster layout: nothing with no clients; otherwise exactly
   * `1 + 17 N` bytes, tag 0 first, and client `i`'s record at `1 + 17 i`.
   */
  lemma UsersLayout(es: seq<Entry>, utf8: string -> seq<byte>)
    requires forall i :: 0 <= i < |es| ==> Writable(es[i])
    ensures |es| == 0 ==> Users(es, utf8) == Ok(None)
    ensures |es| > 0 ==> Users(es, utf8).Ok? && Users(es, utf8).value.Some?
    ensures |es| > 0 ==>
      var frame := Users(es, utf8).value.value;
      && |frame| == 1 + 17 * |es|
      && frame[0] == TAG_USERS
      && forall i :: 0 <= i < |es| ==> RecordAt(frame, 1 + 17 * i, es[i], utf8)
  {
    if |es| > 0 {
      RecordsLayout(es, utf8);
      var records := Records(es, utf8).value;
      var frame := [TAG_USERS] + records;
      forall i | 0 <= i < |es|
        ensures RecordAt(frame, 1 + 17 * i, es[i], utf8)
      {
        var at := 1 + 17 * i;
        ChunkShift(TAG_USERS, records, 17 * i);
        RecordFields(es[i], utf8);
        RecordAtSlice(frame, at, es[i], utf8);
      }
    }
  }

  /** Prefixing one byte moves every 17-byte chunk one place to the right. */
  lemma ChunkShift(tag: byte, records: seq<byte>, at: nat)
    requires at + 17 <= |records|
    ensures ([tag] + records)[at + 1..at + 1 + 17] == records[at..at + 17]
  {
  }

  /** A record found as a 17-byte slice of a frame is a record at that offset. */
  lemma RecordAtSlice(frame: seq<byte>, at: nat, e: Entry, utf8: string -> seq<byte>)
    requires Writable(e)
    requires at + RECORD_SIZE <= |frame| && frame[at..at + RECORD_SIZE] == EncodeRecord(e, utf8)
    requires RecordAt(EncodeRecord(e, utf8), 0, e, utf8)
    ensures RecordAt(frame, at, e, utf8)
  {
    var record := frame[at..at + RECORD_SIZE];
    assert frame[at + 1..at + 11] == record[1..11];
    assert frame[at + 11..at + 15] == record[11..15];
    assert frame[at + 15..at + 17] == record[15..17];
  }

  /** The fields of one record decode back to what was written. */
  lemma RecordFields(e: Entry, utf8: string -> seq<byte>)
    requires Writable(e)
    ensures RecordAt(EncodeRecord(e, utf8), 0, e, utf8)
  {
    Pow256Values();
    var record := EncodeRecord(e, utf8);
    var ip := ToBigEndian(Ip2Long(e.address.value), 4);
    var latency := ToBigEndian(LatencyField(e.latency), 2);
    assert record[11..15] == ip;
    assert record[15..17] == latency;
    DecodeEncode(Ip2Long(e.address.value), 4);
    DecodeEncode(LatencyField(e.latency), 2);
  }

  /**
   * `getUsers` throws exactly when some client is not writable, and then
   * with the exception of the first such client.
   */
  lemma UsersThrows(es: seq<Entry>, utf8: string -> seq<byte>)
    ensures Users(es, utf8).Throw? <==> exists i :: 0 <= i < |es| && !Writable(es[i])
    ensures Users(es, utf8).Throw? ==>
      exists k :: 0 <= k < |es| && !Writable(es[k]) && (forall i :: 0 <= i < k ==> Writable(es[i]))
        && Users(es, utf8).error == RecordError(es[k])
  {
    if exists i :: 0 <= i < |es| && !Writable(es[i]) {
      var k := FirstUnwritable(es);
      RecordsThrow(es, utf8, k);
    } else {
      RecordsLayout(es, utf8);
    }
  }

  /** The index of the first client that is not writable. */
  lemma FirstUnwritable(es: seq<Entry>) returns (k: nat)
    requires exists i :: 0 <= i < |es| && !Writable(es[i])
    ensures k < |es| && !Writable(es[k]) && forall i :: 0 <= i < k ==> Writable(es[i])
  {
    k := 0;
    while Writable(es[k])
      invariant k < |es|
      decreases |es| - k
      invariant forall i :: 0 <= i < k ==> Writable(es[i])
      invariant exists i :: k <= i < |es| && !Writable(es[i])
    {
      k := k + 1;
    }
  }
}
