/** The payload of Modbus replies: register lists, echoed writes and exceptions (sections 6.3, 6.6
    and 7 of MODBUS Application Protocol V1.1b3). */
module ModbusPdu {
  import opened Bytes
  import opened ModbusCrc
  import opened ModbusRtu

  const READ_HOLDING_REGISTERS := 3
  const WRITE_SINGLE_REGISTER := 6

  function HighOf(n: int): byte {
    ToByte(n / 256)
  }

  /** `binary.BigEndian.Uint16` */
  function U16(hi: byte, lo: byte): (n: int)
    ensures 0 <= n < 0x10000
  {
    IntOf(hi) * 256 + IntOf(lo)
  }

  /** `binary.BigEndian.PutUint16` of an int, which keeps its low sixteen bits. */
  function PutU16(n: int): seq<byte> {
    [HighOf(n), ToByte(n)]
  }

  lemma U16RoundTrip(n: int)
    ensures U16(HighOf(n), ToByte(n)) == n % 0x10000
  {
    hide ToByte, IntOf;
    ByteRoundTrip(n / 256);
    ByteRoundTrip(n);
    TwoDigits(n);
  }

  lemma TwoDigits(n: int)
    ensures (n / 256) % 256 * 256 + n % 256 == n % 0x10000
  {
  }

  /** The two bytes carry the low sixteen bits of `n`, the high byte first. */
  predicate BigEndian(hi: byte, lo: byte, n: int) {
    IntOf(hi) * 256 + IntOf(lo) == n % 0x10000
  }

  lemma PutIsBigEndian(n: int)
    ensures |PutU16(n)| == 2 && BigEndian(PutU16(n)[0], PutU16(n)[1], n)
  {
    hide ToByte, IntOf;
    U16RoundTrip(n);
  }

  // Register lists.

  /** `byteCount` and the end of the register values, or why the payload is malformed. */
  datatype RangeError = MissingByteCount | BadByteCount(count: int) | OddByteCount(count: int)

  /** `resolveModbusRegisterValueRange` */
  function ValueRange(payload: seq<byte>, countAt: nat, valuesAt: nat): (r: Result<nat, RangeError>)
    ensures r.Ok? ==> countAt < |payload| && r.value == IntOf(payload[countAt])
    ensures r.Ok? ==> valuesAt + r.value <= |payload| && r.value % 2 == 0
    ensures r == Err(MissingByteCount) <==> |payload| <= countAt
    ensures r.Err? && countAt < |payload| ==>
              var n := IntOf(payload[countAt]);
              r.error == if valuesAt + n > |payload| then BadByteCount(n) else OddByteCount(n)
    ensures (countAt < |payload| && valuesAt + IntOf(payload[countAt]) <= |payload|
             && IntOf(payload[countAt]) % 2 == 0) ==> r.Ok?
  {
    if |payload| <= countAt then Err(MissingByteCount)
    else
      var count := IntOf(payload[countAt]);
      if valuesAt + count > |payload| then Err(BadByteCount(count))
      else if count % 2 != 0 then Err(OddByteCount(count))
      else Ok(count)
  }

  function EncodeRegisters(regs: seq<int>): (r: seq<byte>)
    ensures |r| == 2 * |regs|
  {
    if regs == [] then [] else EncodeRegisters(regs[..|regs| - 1]) + PutU16(regs[|regs| - 1])
  }

  function DecodeRegisters(values: seq<byte>): (r: seq<int>)
    requires |values| % 2 == 0
    ensures |r| == |values| / 2
  {
    var n := |values|;
    if n == 0 then [] else DecodeRegisters(values[..n - 2]) + [U16(values[n - 2], values[n - 1])]
  }

  predicate Words(regs: seq<int>) {
    forall i :: 0 <= i < |regs| ==> 0 <= regs[i] < 0x10000
  }

  lemma {:induction false} RegistersRoundTrip(regs: seq<int>)
    requires Words(regs)
    ensures DecodeRegisters(EncodeRegisters(regs)) == regs
  {
    hide DecodeRegisters, U16, ToByte, HighOf, PutU16;
    DecodeNone();
    if regs != [] {
      var init, last := regs[..|regs| - 1], regs[|regs| - 1];
      RegistersRoundTrip(init);
      DecodeMore(EncodeRegisters(init), last);
      U16RoundTrip(last);
      assert regs == init + [last];
    }
  }

  lemma DecodeMore(values: seq<byte>, n: int)
    requires |values| % 2 == 0
    ensures DecodeRegisters(values + PutU16(n)) == DecodeRegisters(values) + [U16(HighOf(n), ToByte(n))]
  {
    hide U16, HighOf, ToByte;
    var more := values + PutU16(n);
    assert more[..|more| - 2] == values;
  }

  lemma DecodeNone()
    ensures DecodeRegisters([]) == []
  {
  }

  lemma DecodeNext(payload: seq<byte>, from: nat, i: nat)
    requires from <= i && i + 2 <= |payload| && (i - from) % 2 == 0
    ensures DecodeRegisters(payload[from..i + 2])
         == DecodeRegisters(payload[from..i]) + [U16(payload[i], payload[i + 1])]
  {
    hide U16;
    var v := payload[from..i + 2];
    assert v[..|v| - 2] == payload[from..i];
  }

  /** Register `k` is the k-th pair of bytes, the high byte first. */
  lemma {:induction false} RegisterAt(values: seq<byte>, k: nat)
    requires |values| % 2 == 0 && k < |values| / 2
    ensures DecodeRegisters(values)[k] == IntOf(values[2 * k]) * 256 + IntOf(values[2 * k + 1])
  {
    hide IntOf;
    var n := |values|;
    if 2 * k < n - 2 {
      RegisterAt(values[..n - 2], k);
    }
  }

  /** `parseModbusRegisterPayload` */
  method ParseRegisters(payload: seq<byte>, countAt: nat, valuesAt: nat)
    returns (r: Result<(int, seq<int>), RangeError>)
    ensures ValueRange(payload, countAt, valuesAt).Err? ==>
              r == Err(ValueRange(payload, countAt, valuesAt).error)
    ensures ValueRange(payload, countAt, valuesAt).Ok? ==>
              var count := ValueRange(payload, countAt, valuesAt).value;
              r == Ok((count / 2, DecodeRegisters(payload[valuesAt..valuesAt + count])))
  {
    hide U16, IntOf, ValueRange, DecodeRegisters;
    var range := ValueRange(payload, countAt, valuesAt);
    if range.Err? {
      return Err(range.error);
    }
    var registers := [];
    var i := valuesAt;
    DecodeNone();
    assert payload[valuesAt..i] == [];
    while i < valuesAt + range.value
      invariant valuesAt <= i <= valuesAt + range.value && (i - valuesAt) % 2 == 0
      invariant registers == DecodeRegisters(payload[valuesAt..i])
    {
      DecodeNext(payload, valuesAt, i);
      registers := registers + [U16(payload[i], payload[i + 1])];
      i := i + 2;
    }
    return Ok((range.value / 2, registers));
  }

  // Whole replies.

  datatype Request = Request(slaveId: int, functionCode: int, address: int, quantity: int, value: int)

  datatype Reply =
    | Exception(code: int)
    | Registers(address: int, quantity: int, registers: seq<int>)
    | Written(address: int, value: int)
    | Other

  datatype ReplyError =
    | BadHeader(header: HeaderError)
    | ExceptionTooShort
    | WrongFunction(got: int)
    | BadRegisters(range: RangeError)
    | WriteTooShort

  predicate IsException(functionCode: byte) {
    functionCode & 0x80 != 0
  }

  /** What follows a valid header: exception, function code check, then the reply's own fields. */
  function ParsePdu(req: Request, pdu: seq<byte>): Result<Reply, ReplyError>
    requires |pdu| >= 1
  {
    if IsException(pdu[0]) && |pdu| >= 2 then Ok(Exception(IntOf(pdu[1])))
    else if IsException(pdu[0]) then Err(ExceptionTooShort)
    else if IntOf(pdu[0]) != req.functionCode then Err(WrongFunction(IntOf(pdu[0])))
    else if req.functionCode == READ_HOLDING_REGISTERS then
      match ValueRange(pdu, 1, 2)
      case Err(e) => Err(BadRegisters(e))
      case Ok(count) => Ok(Registers(req.address, count / 2, DecodeRegisters(pdu[2..2 + count])))
    else if req.functionCode == WRITE_SINGLE_REGISTER then
      if |pdu| < 5 then Err(WriteTooShort)
      else Ok(Written(U16(pdu[1], pdu[2]), U16(pdu[3], pdu[4])))
    else Ok(Other)
  }

  /** `parseModbusRTUResponse` */
  function ParseRtuReply(req: Request, response: seq<byte>): Result<Reply, ReplyError> {
    match ParseHeader(response, req.slaveId)
    case Err(e) => Err(BadHeader(e))
    case Ok(h) => ParsePdu(req, h.payload)
  }

  /** A function-3 reply body as the protocol lays it out. */
  function ReadReplyPdu(regs: seq<int>): seq<byte> {
    [ToByte(READ_HOLDING_REGISTERS), ToByte(2 * |regs|)] + EncodeRegisters(regs)
  }

  function WriteReplyPdu(address: int, value: int): seq<byte> {
    [ToByte(WRITE_SINGLE_REGISTER)] + PutU16(address) + PutU16(value)
  }

  lemma PlainFunctions()
    ensures !IsException(ToByte(3)) && !IsException(ToByte(6))
    ensures IntOf(ToByte(3)) == 3 && IntOf(ToByte(6)) == 6
  {
    hide IntOf, ToByte, IsException;
    ByteRoundTrip(3);
    ByteRoundTrip(6);
    TopBitClear(3);
    TopBitClear(6);
  }

  lemma TopBitClear(n: nat)
    requires n < 128
    ensures !IsException(ToByte(n))
  {
    hide FromBits;
    var n3, n6 := n / 2 / 2 / 2, n / 2 / 2 / 2 / 2 / 2 / 2;
    assert n3 < 16 && n6 < 2;
    BitsOf(Odd(n), Odd(n / 2), Odd(n / 2 / 2), Odd(n3), Odd(n3 / 2), Odd(n3 / 2 / 2), Odd(n6), Odd(n6 / 2));
  }

  lemma TopBitSet(n: nat)
    requires 128 <= n < 256
    ensures IsException(ToByte(n))
  {
    hide FromBits;
    var n3, n6 := n / 2 / 2 / 2, n / 2 / 2 / 2 / 2 / 2 / 2;
    assert 16 <= n3 < 32 && 2 <= n6 < 4 && n6 / 2 == 1;
    BitsOf(Odd(n), Odd(n / 2), Odd(n / 2 / 2), Odd(n3), Odd(n3 / 2), Odd(n3 / 2 / 2), Odd(n6), Odd(n6 / 2));
  }

  lemma ReadPduRoundTrip(req: Request, regs: seq<int>)
    requires req.functionCode == READ_HOLDING_REGISTERS && |regs| <= 127 && Words(regs)
    ensures ParsePdu(req, ReadReplyPdu(regs)) == Ok(Registers(req.address, |regs|, regs))
  {
    hide ToByte, IntOf, IsException, EncodeRegisters, DecodeRegisters, U16, PutU16, HighOf;
    var pdu := ReadReplyPdu(regs);
    PlainFunctions();
    ByteRoundTrip(2 * |regs|);
    RegistersRoundTrip(regs);
    assert pdu[2..2 + 2 * |regs|] == EncodeRegisters(regs);
  }

  lemma WritePduRoundTrip(req: Request)
    requires req.functionCode == WRITE_SINGLE_REGISTER
    ensures ParsePdu(req, WriteReplyPdu(req.address, req.value))
         == Ok(Written(req.address % 0x10000, req.value % 0x10000))
  {
    hide ToByte, IntOf, IsException, U16, HighOf;
    PlainFunctions();
    U16RoundTrip(req.address);
    U16RoundTrip(req.value);
  }

  /** A framed body with a correct checksum reaches the body parser unchanged. */
  lemma SealedReplyParsed(req: Request, pdu: seq<byte>)
    requires |pdu| >= 2
    ensures ParseRtuReply(req, Sealed([ToByte(req.slaveId)] + pdu)) == ParsePdu(req, pdu)
  {
    hide ToByte, LittleEndian, LowByte, HighByte, Crc, ParsePdu, Zero;
    var data := [ToByte(req.slaveId)] + pdu;
    var f := Sealed(data);
    SealedPasses(data);
    assert f[1..|f| - 2] == pdu;
  }

  /** Any function-3 reply, framed as the protocol says, parses back to the same registers, and its
      length is the one `buildModbusRTURequest` tells the reader to expect. */
  lemma ReadReplyRoundTrip(req: Request, regs: seq<int>)
    requires req.functionCode == READ_HOLDING_REGISTERS && |regs| <= 127 && Words(regs)
    ensures var f := Sealed([ToByte(req.slaveId)] + ReadReplyPdu(regs));
            && |f| == 5 + 2 * |regs|
            && ParseRtuReply(req, f) == Ok(Registers(req.address, |regs|, regs))
  {
    hide ToByte, EncodeRegisters, Crc, ParsePdu, ParseRtuReply;
    ReadPduRoundTrip(req, regs);
    SealedReplyParsed(req, ReadReplyPdu(regs));
  }

  lemma WriteReplyRoundTrip(req: Request)
    requires req.functionCode == WRITE_SINGLE_REGISTER
    ensures var f := Sealed([ToByte(req.slaveId)] + WriteReplyPdu(req.address, req.value));
            && |f| == 8
            && ParseRtuReply(req, f) == Ok(Written(req.address % 0x10000, req.value % 0x10000))
  {
    hide ToByte, HighOf, Crc, ParsePdu, ParseRtuReply;
    WritePduRoundTrip(req);
    SealedReplyParsed(req, WriteReplyPdu(req.address, req.value));
  }

  /** An exception reply, whatever function it answers, is reported with its code. */
  lemma ExceptionReplyRoundTrip(req: Request, functionCode: int, code: int)
    requires 0 <= functionCode < 128 && 0 <= code < 256
    ensures ParseRtuReply(req, Sealed([ToByte(req.slaveId)] + [ToByte(functionCode + 128), ToByte(code)]))
         == Ok(Exception(code))
  {
    hide ToByte, IntOf, IsException, Crc, ParseRtuReply;
    TopBitSet(functionCode + 128);
    ByteRoundTrip(code);
    SealedReplyParsed(req, [ToByte(functionCode + 128), ToByte(code)]);
  }

  // What a reply body says, byte by byte.

  /** A set top bit means an exception, and the next byte is its code. */
  lemma TopBitMeans(b: byte)
    ensures IsException(b) <==> IntOf(b) >= 128
  {
    hide ToByte, IsException;
    IntRoundTrip(b);
    if IntOf(b) < 128 {
      TopBitClear(IntOf(b));
    } else {
      TopBitSet(IntOf(b));
    }
  }

  lemma ExceptionMeans(req: Request, pdu: seq<byte>)
    requires |pdu| >= 1 && IntOf(pdu[0]) >= 128
    ensures ParsePdu(req, pdu) == if |pdu| >= 2 then Ok(Exception(IntOf(pdu[1]))) else Err(ExceptionTooShort)
  {
    hide IntOf, IsException;
    TopBitMeans(pdu[0]);
  }

  /** A reply to another function than the one asked for is rejected. */
  lemma OtherFunctionRejected(req: Request, pdu: seq<byte>)
    requires |pdu| >= 1 && IntOf(pdu[0]) < 128 && IntOf(pdu[0]) != req.functionCode
    ensures ParsePdu(req, pdu) == Err(WrongFunction(IntOf(pdu[0])))
  {
    hide IntOf, IsException;
    TopBitMeans(pdu[0]);
  }

  /** A function-3 reply is accepted exactly if its byte count is even and it holds that many; its registers
      are then the pairs of bytes, and its address the one asked for. */
  lemma RegistersMean(req: Request, pdu: seq<byte>)
    requires |pdu| >= 1 && IntOf(pdu[0]) == req.functionCode == 3
    ensures ParsePdu(req, pdu).Ok? <==>
              |pdu| >= 2 && IntOf(pdu[1]) % 2 == 0 && 2 + IntOf(pdu[1]) <= |pdu|
    ensures ParsePdu(req, pdu).Ok? ==>
              var reply := ParsePdu(req, pdu).value;
              && reply.Registers? && reply.address == req.address
              && reply.quantity == |reply.registers| == IntOf(pdu[1]) / 2
              && forall k :: 0 <= k < |reply.registers| ==>
                   reply.registers[k] == IntOf(pdu[2 + 2 * k]) * 256 + IntOf(pdu[3 + 2 * k])
  {
    hide IntOf, IsException, DecodeRegisters;
    TopBitMeans(pdu[0]);
    if ParsePdu(req, pdu).Ok? {
      var count := IntOf(pdu[1]);
      var values := pdu[2..2 + count];
      forall k | 0 <= k < count / 2
        ensures DecodeRegisters(values)[k] == IntOf(pdu[2 + 2 * k]) * 256 + IntOf(pdu[3 + 2 * k])
      {
        RegisterAt(values, k);
      }
    }
  }

  /** A function-6 reply reports the address and the value it carries, whatever was asked for. */
  lemma WrittenMeans(req: Request, pdu: seq<byte>)
    requires |pdu| >= 1 && IntOf(pdu[0]) == req.functionCode == 6
    ensures ParsePdu(req, pdu) ==
              if |pdu| < 5 then Err(WriteTooShort)
              else Ok(Written(IntOf(pdu[1]) * 256 + IntOf(pdu[2]), IntOf(pdu[3]) * 256 + IntOf(pdu[4])))
  {
    hide IntOf, IsException;
    TopBitMeans(pdu[0]);
  }

  lemma PutBack(hi: byte, lo: byte)
    ensures PutU16(U16(hi, lo)) == [hi, lo]
  {
    hide ToByte, IntOf;
    IntRoundTrip(hi);
    IntRoundTrip(lo);
    LowDigit(IntOf(hi), IntOf(lo));
  }

  /** Only the low eight bits count. */
  lemma LowDigit(hi: int, lo: int)
    requires 0 <= lo < 256
    ensures (hi * 256 + lo) / 256 == hi && ToByte(hi * 256 + lo) == ToByte(lo)
  {
    hide ToByte;
    SameLowBits(hi * 256 + lo, lo);
  }

  lemma SameLowBits(n: int, m: int)
    requires n % 256 == m % 256
    ensures ToByte(n) == ToByte(m)
  {
    hide ToByte, IntOf;
    ByteRoundTrip(n);
    ByteRoundTrip(m);
    IntRoundTrip(ToByte(n));
    IntRoundTrip(ToByte(m));
  }

  // Requests.

  function RequestPdu(req: Request): (r: seq<byte>)
    ensures |r| == 5
  {
    var operand := if req.functionCode == READ_HOLDING_REGISTERS then req.quantity
                   else if req.functionCode == WRITE_SINGLE_REGISTER then req.value
                   else 0;
    [ToByte(req.functionCode)] + PutU16(req.address) + PutU16(operand)
  }

  /** A request carries its function, the address, and then the quantity to read or the value to write. */
  lemma RequestMeans(req: Request)
    ensures var pdu := RequestPdu(req);
            && IntOf(pdu[0]) == req.functionCode % 256
            && BigEndian(pdu[1], pdu[2], req.address)
            && (req.functionCode == 3 ==> BigEndian(pdu[3], pdu[4], req.quantity))
            && (req.functionCode == 6 ==> BigEndian(pdu[3], pdu[4], req.value))
            && (req.functionCode != 3 && req.functionCode != 6 ==> BigEndian(pdu[3], pdu[4], 0))
  {
    hide IntOf, ToByte, BigEndian, HighOf;
    ByteRoundTrip(req.functionCode);
    PutIsBigEndian(req.address);
    PutIsBigEndian(req.quantity);
    PutIsBigEndian(req.value);
    PutIsBigEndian(0);
  }

  /** `buildModbusRTURequest`: the frame and the reply length to wait for. */
  method BuildRtuRequest(req: Request) returns (frame: seq<byte>, expectLen: int)
    ensures |frame| == 8 && Zero(Crc(frame))
    ensures frame[..6] == [ToByte(req.slaveId)] + RequestPdu(req)
    ensures expectLen == if req.functionCode == 3 then 5 + 2 * req.quantity else if req.functionCode == 6 then 8 else 0
  {
    hide ToByte, HighOf, Crc, Zero, LowByte, HighByte;
    var body := [ToByte(req.slaveId), ToByte(req.functionCode)] + PutU16(req.address);
    expectLen := 0;
    if req.functionCode == READ_HOLDING_REGISTERS {
      body := body + PutU16(req.quantity);
      expectLen := 5 + req.quantity * 2;
    } else if req.functionCode == WRITE_SINGLE_REGISTER {
      body := body + PutU16(req.value);
      expectLen := 8;
    } else {
      body := body + PutU16(0);
    }
    var crc := Crc16Modbus(body);
    SealedPasses(body);
    frame := body + [LowByte(crc), HighByte(crc)];
  }
}
