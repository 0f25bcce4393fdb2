/** Modbus TCP: the MBAP header (section 3.1.3 of MODBUS Messaging on TCP/IP V1.0b), request
    building, reply checking, and reading whole frames off a byte stream. */
module ModbusTcp {
  import opened Bytes
  import opened ModbusRtu
  import opened ModbusPdu

  datatype FrameError =
    | FrameTooShort(size: nat)
    | WrongTransaction(got: int)
    | WrongProtocol(got: int)
    | BadLength(length: int)

  /** `buildModbusTCPRequest`; `clock` stands for the nanosecond clock that supplies a transaction id
      when the request carries none. */
  method BuildTcpRequest(req: Request, transactionId: int, clock: int) returns (frame: seq<byte>, txId: int)
    ensures txId == if transactionId != 0 then transactionId
                    else if clock % 0x10000 != 0 then clock % 0x10000 else 1
    ensures frame == PutU16(txId) + PutU16(0) + PutU16(6) + [ToByte(req.slaveId)] + RequestPdu(req)
  {
    hide ToByte, HighOf;
    var pdu := [ToByte(req.functionCode)] + PutU16(req.address);
    if req.functionCode == READ_HOLDING_REGISTERS {
      pdu := pdu + PutU16(req.quantity);
    } else if req.functionCode == WRITE_SINGLE_REGISTER {
      pdu := pdu + PutU16(req.value);
    } else {
      pdu := pdu + PutU16(0);
    }
    txId := transactionId;
    if txId == 0 {
      txId := clock % 0x10000;
      if txId == 0 {
        txId := 1;
      }
    }
    var mbap := PutU16(txId) + PutU16(0) + PutU16(1 + |pdu|) + [ToByte(req.slaveId)];
    frame := mbap + pdu;
  }

  /** `validateRawModbusTCPFrame`: the frame's transaction id. */
  function ValidateFrame(frame: seq<byte>): Result<int, FrameError> {
    if |frame| < 8 then Err(FrameTooShort(|frame|))
    else if U16(frame[2], frame[3]) != 0 then Err(WrongProtocol(U16(frame[2], frame[3])))
    else
      var length := U16(frame[4], frame[5]);
      if length < 2 || 6 + length != |frame| then Err(BadLength(length))
      else Ok(U16(frame[0], frame[1]))
  }

  /** A frame is accepted exactly if it is long enough, its protocol is zero, and its length field counts the
      bytes after it; its id is then its first two bytes, the high one first. */
  lemma ValidMeans(frame: seq<byte>)
    ensures ValidateFrame(frame).Ok? <==>
              && |frame| >= 8 && IntOf(frame[2]) == IntOf(frame[3]) == 0
              && IntOf(frame[4]) * 256 + IntOf(frame[5]) == |frame| - 6
    ensures ValidateFrame(frame).Ok? ==> ValidateFrame(frame).value == IntOf(frame[0]) * 256 + IntOf(frame[1])
  {
    hide IntOf;
  }

  /** A built request is a valid frame that carries its own transaction id (its low sixteen bits;
      request validation admits no other ids). */
  lemma BuiltRequestValid(req: Request, txId: int)
    ensures ValidateFrame(PutU16(txId) + PutU16(0) + PutU16(6) + [ToByte(req.slaveId)] + RequestPdu(req))
         == Ok(txId % 0x10000)
  {
    hide ToByte, HighOf, U16;
    U16RoundTrip(txId);
    U16RoundTrip(0);
    U16RoundTrip(6);
  }

  /** `parseModbusTCPResponseHeader`: the slave id and the reply body. */
  function ParseTcpHeader(response: seq<byte>, txId: int): (r: Result<(int, seq<byte>), FrameError>)
    ensures r.Ok? ==> |r.value.1| >= 2
  {
    if |response| < 9 then Err(FrameTooShort(|response|))
    else if U16(response[0], response[1]) != txId then Err(WrongTransaction(U16(response[0], response[1])))
    else if U16(response[2], response[3]) != 0 then Err(WrongProtocol(U16(response[2], response[3])))
    else if U16(response[4], response[5]) != |response| - 6 then Err(BadLength(U16(response[4], response[5])))
    else Ok((IntOf(response[6]), response[7..]))
  }

  datatype TcpError = BadFrame(frame: FrameError) | WrongSlaveId(got: int) | BadReply(reply: ReplyError)

  /** `parseModbusTCPResponse` */
  function ParseTcpReply(req: Request, response: seq<byte>, txId: int): Result<Reply, TcpError> {
    match ParseTcpHeader(response, txId)
    case Err(e) => Err(BadFrame(e))
    case Ok((slaveId, pdu)) =>
      if slaveId != req.slaveId then Err(WrongSlaveId(slaveId))
      else
        match ParsePdu(req, pdu)
        case Err(e) => Err(BadReply(e))
        case Ok(reply) => Ok(reply)
  }

  /** A reply of another slave is rejected. */
  lemma OtherSlaveRejected(req: Request, response: seq<byte>, txId: int)
    requires ParseTcpHeader(response, txId).Ok? && IntOf(response[6]) != req.slaveId
    ensures ParseTcpReply(req, response, txId) == Err(WrongSlaveId(IntOf(response[6])))
  {
    hide IntOf, U16, ParsePdu;
  }

  function Mbap(txId: int, slaveId: int, pdu: seq<byte>): seq<byte> {
    PutU16(txId) + PutU16(0) + PutU16(1 + |pdu|) + [ToByte(slaveId)] + pdu
  }

  /** A function-3 reply under a correct header parses back to its registers. */
  lemma TcpReadReplyRoundTrip(req: Request, regs: seq<int>, txId: int)
    requires req.functionCode == READ_HOLDING_REGISTERS && |regs| <= 127 && Words(regs)
    requires 0 <= txId < 0x10000 && 0 <= req.slaveId < 256
    ensures ParseTcpReply(req, Mbap(txId, req.slaveId, ReadReplyPdu(regs)), txId)
         == Ok(Registers(req.address, |regs|, regs))
  {
    hide ToByte, HighOf, U16, IntOf, ParsePdu, EncodeRegisters;
    var pdu := ReadReplyPdu(regs);
    U16RoundTrip(txId);
    U16RoundTrip(0);
    U16RoundTrip(1 + |pdu|);
    ByteRoundTrip(req.slaveId);
    ReadPduRoundTrip(req, regs);
    assert Mbap(txId, req.slaveId, pdu)[7..] == pdu;
  }

  /** A reply is accepted exactly if it is the header for its transaction, its slave and a body of at
      least two bytes, followed by that body. */
  lemma AcceptedIffMbap(response: seq<byte>, txId: int, slaveId: int, pdu: seq<byte>)
    requires 0 <= txId < 0x10000 && 0 <= slaveId < 256 && 2 <= |pdu| < 0xFFFF
    ensures ParseTcpHeader(response, txId) == Ok((slaveId, pdu)) <==> response == Mbap(txId, slaveId, pdu)
  {
    hide ToByte, HighOf, U16, IntOf, PutU16;
    if ParseTcpHeader(response, txId) == Ok((slaveId, pdu)) {
      PutBack(response[0], response[1]);
      PutBack(response[2], response[3]);
      PutBack(response[4], response[5]);
      IntRoundTrip(response[6]);
      assert response == response[..2] + response[2..4] + response[4..6] + [response[6]] + response[7..];
    }
    if response == Mbap(txId, slaveId, pdu) {
      MbapParsed(txId, slaveId, pdu);
    }
  }

  lemma MbapParsed(txId: int, slaveId: int, pdu: seq<byte>)
    requires 0 <= txId < 0x10000 && 0 <= slaveId < 256 && 2 <= |pdu| < 0xFFFF
    ensures ParseTcpHeader(Mbap(txId, slaveId, pdu), txId) == Ok((slaveId, pdu))
  {
    hide ToByte, HighOf, U16, IntOf;
    U16RoundTrip(txId);
    U16RoundTrip(0);
    U16RoundTrip(1 + |pdu|);
    ByteRoundTrip(slaveId);
    assert Mbap(txId, slaveId, pdu)[7..] == pdu;
  }

  // Reading frames off a stream.

  datatype ReadError = ShortBuffer | EndOfStream

  /** The readable side of a connection: the bytes still to come. */
  class Conn {
    var incoming: seq<byte>

    constructor (incoming: seq<byte>)
      ensures this.incoming == incoming
    {
      this.incoming := incoming;
    }

    /** `io.ReadFull` into `buf[from..to]`; at the end of the stream it takes what there is. */
    method ReadFull(buf: array<byte>, from: nat, to: nat) returns (ok: bool)
      requires from <= to <= buf.Length
      modifies this, buf
      ensures ok <==> to - from <= |old(incoming)|
      ensures ok ==> buf[from..to] == old(incoming)[..to - from] && incoming == old(incoming)[to - from..]
      ensures !ok ==> incoming == []
      ensures buf[..from] == old(buf[..from])
    {
      var n := to - from;
      ok := n <= |incoming|;
      if !ok {
        n := |incoming|;
      }
      var i := 0;
      while i < n
        invariant 0 <= i <= n && incoming == old(incoming)
        invariant buf[..from] == old(buf[..from])
        invariant buf[from..from + i] == incoming[..i]
      {
        buf[from + i] := incoming[i];
        i := i + 1;
      }
      incoming := incoming[n..];
    }
  }

  /** What one read makes of the bytes to come: a frame or an error, and the bytes left. */
  function ReadOne(incoming: seq<byte>, capacity: nat): (Result<seq<byte>, ReadError>, seq<byte>) {
    if capacity < 9 then (Err(ShortBuffer), incoming)
    else if |incoming| < 7 then (Err(EndOfStream), [])
    else
      var length := U16(incoming[4], incoming[5]);
      if length < 2 then (Err(EndOfStream), incoming[7..])
      else if 6 + length > capacity then (Err(ShortBuffer), incoming[7..])
      else if |incoming| < 6 + length then (Err(EndOfStream), [])
      else (Ok(incoming[..6 + length]), incoming[6 + length..])
  }

  /** `readModbusTCPResponse` */
  method ReadResponse(conn: Conn, buf: array<byte>) returns (r: Result<nat, ReadError>)
    modifies conn, buf
    ensures conn.incoming == ReadOne(old(conn.incoming), buf.Length).1
    ensures r.Ok? ==> r.value <= buf.Length
    ensures r.Ok? ==> ReadOne(old(conn.incoming), buf.Length).0 == Ok(buf[..r.value])
    ensures r.Err? ==> ReadOne(old(conn.incoming), buf.Length).0 == Err(r.error)
  {
    hide U16;
    if buf.Length < 9 {
      return Err(ShortBuffer);
    }
    var ok := conn.ReadFull(buf, 0, 7);
    if !ok {
      return Err(EndOfStream);
    }
    ghost var all := old(conn.incoming);
    assert buf[..7] == all[..7];
    assert buf[4] == buf[..7][4] && buf[5] == buf[..7][5];
    var length := U16(buf[4], buf[5]);
    if length < 2 {
      return Err(EndOfStream);
    }
    var total := 6 + length;
    if total > buf.Length {
      return Err(ShortBuffer);
    }
    ok := conn.ReadFull(buf, 7, total);
    if !ok {
      return Err(EndOfStream);
    }
    assert buf[..total] == buf[..7] + buf[7..total];
    assert all[..total] == all[..7] + all[7..][..total - 7];
    return Ok(total);
  }

  /** A frame whose length field is truthful and that fits the reader's buffer. */
  predicate Fits(frame: seq<byte>, capacity: nat) {
    && 8 <= |frame| <= capacity
    && U16(frame[4], frame[5]) == |frame| - 6
  }

  function Concat(frames: seq<seq<byte>>): seq<byte> {
    if frames == [] then [] else frames[0] + Concat(frames[1..])
  }

  /** `n` reads in a row: the frames read, until the first error, and the bytes left. */
  function ReadMany(incoming: seq<byte>, capacity: nat, n: nat): (seq<seq<byte>>, seq<byte>) {
    if n == 0 then ([], incoming)
    else
      match ReadOne(incoming, capacity)
      case (Err(_), rest) => ([], rest)
      case (Ok(frame), rest) =>
        var (frames, rest') := ReadMany(rest, capacity, n - 1);
        ([frame] + frames, rest')
  }

  lemma ReadOneFrame(frame: seq<byte>, rest: seq<byte>, capacity: nat)
    requires Fits(frame, capacity) && capacity >= 9
    ensures ReadOne(frame + rest, capacity) == (Ok(frame), rest)
  {
    hide U16;
    var s := frame + rest;
    assert s[..|frame|] == frame && s[|frame|..] == rest;
  }

  /** Repeated reads split any concatenation of fitting frames into exactly those frames, and leave
      what follows them. */
  lemma {:induction false} StreamSplits(frames: seq<seq<byte>>, rest: seq<byte>, capacity: nat)
    requires capacity >= 9 && forall i :: 0 <= i < |frames| ==> Fits(frames[i], capacity)
    ensures ReadMany(Concat(frames) + rest, capacity, |frames|) == (frames, rest)
  {
    hide ReadOne, Fits;
    if frames == [] {
      assert Concat(frames) + rest == rest;
    } else {
      assert Concat(frames) + rest == frames[0] + (Concat(frames[1..]) + rest);
      ReadOneFrame(frames[0], Concat(frames[1..]) + rest, capacity);
      StreamSplits(frames[1..], rest, capacity);
      assert [frames[0]] + frames[1..] == frames;
    }
  }

  /** A read succeeds exactly if the buffer holds a header and the stream begins with a fitting frame. */
  lemma ReadOneIff(incoming: seq<byte>, capacity: nat)
    ensures ReadOne(incoming, capacity).0.Ok? <==>
              capacity >= 9 && exists n :: 8 <= n <= |incoming| && Fits(incoming[..n], capacity)
  {
    hide IntOf;
    if ReadOne(incoming, capacity).0.Ok? {
      assert Fits(incoming[..6 + U16(incoming[4], incoming[5])], capacity);
    }
  }

  lemma ReadOneConserves(incoming: seq<byte>, capacity: nat)
    requires ReadOne(incoming, capacity).0.Ok?
    ensures var (r, rest) := ReadOne(incoming, capacity); Fits(r.value, capacity) && incoming == r.value + rest
  {
    hide U16;
  }

  lemma ConcatCons(frame: seq<byte>, frames: seq<seq<byte>>, rest: seq<byte>)
    ensures Concat([frame] + frames) + rest == frame + (Concat(frames) + rest)
  {
    assert ([frame] + frames)[1..] == frames;
  }

  /** Conversely, successful reads lose and invent nothing. */
  lemma {:induction false} ReadsConserve(incoming: seq<byte>, capacity: nat, n: nat)
    ensures var (frames, rest) := ReadMany(incoming, capacity, n);
            |frames| == n ==>
              incoming == Concat(frames) + rest && forall i :: 0 <= i < n ==> Fits(frames[i], capacity)
    decreases n
  {
    hide ReadOne, Fits, U16, Concat;
    if n == 0 {
      ConcatNone(incoming);
    } else {
      var (r, rest) := ReadOne(incoming, capacity);
      if r.Ok? {
        ReadOneConserves(incoming, capacity);
        ReadsConserve(rest, capacity, n - 1);
        var (frames, rest') := ReadMany(rest, capacity, n - 1);
        ConcatCons(r.value, frames, rest');
      }
    }
  }

  lemma ConcatNone(rest: seq<byte>)
    ensures Concat([]) + rest == rest
  {
  }
}
