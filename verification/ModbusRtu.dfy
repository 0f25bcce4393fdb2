/** Modbus RTU frames as the debug console builds and checks them. */
module ModbusRtu {
  import opened Bytes
  import opened ModbusCrc

  datatype Result<+T, +E> = Ok(value: T) | Err(error: E)

  datatype HeaderError = TooShort(length: nat) | WrongSlave | WrongCrc

  datatype Header = Header(functionCode: byte, payload: seq<byte>)

  function Wide(b: byte): bv16 {
    b as bv16
  }

  function LittleEndian(lo: byte, hi: byte): bv16 {
    Wide(lo) | (Wide(hi) << 8)
  }

  function LowByte(c: bv16): byte {
    (c & 0xFF) as bv8
  }

  function HighByte(c: bv16): byte {
    (c >> 8) as bv8
  }

  /** `parseModbusRTUResponseHeader` */
  function ParseHeader(response: seq<byte>, slaveId: int): Result<Header, HeaderError> {
    var n := |response|;
    if n < 5 then Err(TooShort(n))
    else if response[0] != ToByte(slaveId) then Err(WrongSlave)
    else if LittleEndian(response[n - 2], response[n - 1]) != Crc(response[..n - 2]) then Err(WrongCrc)
    else Ok(Header(response[1], response[1..n - 2]))
  }

  /** A frame followed by its checksum, low byte first. */
  function Sealed(data: seq<byte>): seq<byte> {
    data + [LowByte(Crc(data)), HighByte(Crc(data))]
  }

  // The checksum of a sealed frame is zero, and no other two trailing bytes make it so.

  lemma LittleEndianSplit(c: bv16)
    ensures LittleEndian(LowByte(c), HighByte(c)) == c
  {
  }

  lemma ShiftDoubled(x: bv16)
    requires x & 0x8000 == 0
    ensures Shift(x << 1) == x
  {
  }

  lemma ShiftByte(hi: byte)
    ensures Shifted(Wide(hi) << 8, 8) == Wide(hi)
  {
    var c0 := Wide(hi);
    var c1 := c0 << 1;
    var c2 := c1 << 1;
    var c3 := c2 << 1;
    var c4 := c3 << 1;
    var c5 := c4 << 1;
    var c6 := c5 << 1;
    var c7 := c6 << 1;
    assert c0 << 8 == c7 << 1;
    ShiftDoubled(c0);
    ShiftDoubled(c1);
    ShiftDoubled(c2);
    ShiftDoubled(c3);
    ShiftDoubled(c4);
    ShiftDoubled(c5);
    ShiftDoubled(c6);
    ShiftDoubled(c7);
    ShiftChain(c0 << 8, c7, c6, c5, c4, c3, c2, c1, c0);
  }

  lemma ShiftChain(c8: bv16, c7: bv16, c6: bv16, c5: bv16, c4: bv16, c3: bv16, c2: bv16, c1: bv16, c0: bv16)
    requires Shift(c8) == c7 && Shift(c7) == c6 && Shift(c6) == c5 && Shift(c5) == c4
    requires Shift(c4) == c3 && Shift(c3) == c2 && Shift(c2) == c1 && Shift(c1) == c0
    ensures Shifted(c8, 8) == c0
  {
    hide Shift;
    assert Shifted(c8, 8) == Shifted(c6, 6);
    assert Shifted(c6, 6) == Shifted(c4, 4);
    assert Shifted(c4, 4) == Shifted(c2, 2);
  }

  lemma OrIsXor(lo: byte, hi: byte)
    ensures LittleEndian(lo, hi) == Xor(Wide(lo), Wide(hi) << 8)
  {
  }

  lemma XorTwice(a: bv16, b: bv16)
    ensures Xor(b, Xor(a, b)) == a && Xor(Xor(b, a), b) == a
  {
  }

  lemma XorSwap(a: bv16, b: bv16, c: bv16)
    ensures Xor(a, b) == c <==> Xor(b, c) == a
  {
    hide Xor;
    XorTwice(a, b);
    XorTwice(c, b);
  }

  lemma TailFits(c: bv16, lo: byte, hi: byte)
    ensures Xor(c, Wide(lo)) == Wide(hi) << 8 <==> LittleEndian(lo, hi) == c
  {
    OrIsXor(lo, hi);
    XorSwap(c, Wide(lo), Wide(hi) << 8);
    hide Xor, Wide, LittleEndian;
  }

  /** Feeding two bytes leaves zero exactly when they are the register, low byte first. */
  lemma TwoBytesClear(c: bv16, lo: byte, hi: byte)
    ensures Zero(Feed(Feed(c, lo), hi)) <==> LittleEndian(lo, hi) == c
  {
    hide Shifted, LittleEndian, Zero, Xor;
    var x, y := Xor(c, Wide(lo)), Wide(hi) << 8;
    ShiftedZero(Xor(Shifted(x, 8), Wide(hi)), 8);
    ShiftByte(hi);
    ShiftedLinear(x, y, 8);
    ShiftedZero(Xor(x, y), 8);
    XorZeroIff(x, y);
    TailFits(c, lo, hi);
  }

  lemma XorZeroIff(a: bv16, b: bv16)
    ensures Zero(Xor(a, b)) <==> a == b
  {
    hide Xor;
    XorAssociates(a, b, b);
    XorZero(a);
    XorZero(b);
  }

  lemma CrcTail(f: seq<byte>)
    requires |f| >= 2
    ensures Crc(f) == Feed(Feed(Crc(f[..|f| - 2]), f[|f| - 2]), f[|f| - 1])
  {
    hide Feed;
    var g := f[..|f| - 1];
    assert g[..|g| - 1] == f[..|f| - 2];
    assert CrcFrom(0xFFFF, g) == Feed(CrcFrom(0xFFFF, g[..|g| - 1]), g[|g| - 1]);
  }

  /** Residue zero: the checksum test of a received frame passes exactly when the checksum of the
      whole frame, trailer included, is zero. */
  lemma Residue(f: seq<byte>)
    requires |f| >= 2
    ensures LittleEndian(f[|f| - 2], f[|f| - 1]) == Crc(f[..|f| - 2]) <==> Zero(Crc(f))
  {
    hide LittleEndian, Zero, Feed;
    CrcTail(f);
    TwoBytesClear(Crc(f[..|f| - 2]), f[|f| - 2], f[|f| - 1]);
  }

  // Error detection.

  lemma {:induction false} AllBitsAt(data: seq<byte>, i: nat, j: nat)
    requires i < |data| && j < 8
    ensures AllBits(data)[8 * i + j] == Bits(data[i])[j]
  {
    hide Bits;
    if i < |data| - 1 {
      AllBitsAt(data[..|data| - 1], i, j);
    }
  }

  lemma BitsInjective(a: byte, b: byte)
    requires a != b
    ensures exists j :: 0 <= j < 8 && Bits(a)[j] != Bits(b)[j]
  {
    if Bits(a) == Bits(b) {
      PackBits(a);
      PackBits(b);
      hide Bits;
    }
  }

  /** The two frames agree on every bit outside the sixteen that start at bit `m`, counted in the
      order they are sent: bytes in order, least significant bit first. */
  ghost predicate WithinBurst(f: seq<byte>, g: seq<byte>, m: nat) {
    && |f| == |g|
    && forall k :: 0 <= k < 8 * |f| && !(m <= k < m + 16) ==> AllBits(f)[k] == AllBits(g)[k]
  }

  /** Every error burst of up to sixteen bits in an accepted frame, wherever it starts and however
      long the frame, makes the frame rejected, whatever slave the receiver expects. */
  lemma BurstRejected(f: seq<byte>, g: seq<byte>, m: nat, slaveId: int, slaveId': int)
    requires ParseHeader(f, slaveId).Ok? && WithinBurst(f, g, m) && f != g
    ensures ParseHeader(g, slaveId').Err?
  {
    hide AllBits, Bits, LittleEndian, Zero, Xor, Stream, CrcFrom, Crc, ToByte;
    var d := Differences(AllBits(f), AllBits(g));
    var i :| 0 <= i < |f| && f[i] != g[i];
    BitsInjective(f[i], g[i]);
    var j :| 0 <= j < 8 && Bits(f[i])[j] != Bits(g[i])[j];
    AllBitsAt(f, i, j);
    AllBitsAt(g, i, j);
    BurstSeen(d, m, 8 * i + j);
    Residue(f);
    Residue(g);
    CrcDifference(f, g);
  }

  lemma CrcDifference(f: seq<byte>, g: seq<byte>)
    requires |f| == |g| && !Zero(Stream(0, Differences(AllBits(f), AllBits(g))))
    ensures !(Zero(Crc(f)) && Zero(Crc(g)))
  {
    CrcIsStream(0xFFFF, f);
    CrcIsStream(0xFFFF, g);
    hide AllBits, CrcFrom, Stream, Xor;
    StreamLinear(0xFFFF, 0xFFFF, AllBits(f), AllBits(g));
    XorZero(0xFFFF);
    XorZero(0);
  }

  /** Changing any one or two adjacent bytes of an accepted frame, checksum bytes included, makes
      it rejected. */
  lemma ByteChangesRejected(f: seq<byte>, g: seq<byte>, i: nat, slaveId: int, slaveId': int)
    requires ParseHeader(f, slaveId).Ok? && |g| == |f| && g != f
    requires forall j :: 0 <= j < |f| && j != i && j != i + 1 ==> g[j] == f[j]
    ensures ParseHeader(g, slaveId').Err?
  {
    forall k | 0 <= k < 8 * |f| && !(8 * i <= k < 8 * i + 16) ensures AllBits(f)[k] == AllBits(g)[k] {
      hide *;
      AllBitsAt(f, k / 8, k % 8);
      AllBitsAt(g, k / 8, k % 8);
    }
    hide AllBits, ParseHeader;
    BurstRejected(f, g, 8 * i, slaveId, slaveId');
  }

  /** Flipping any odd number of bits of an accepted frame, wherever they are, makes it rejected. */
  lemma OddFlipsRejected(f: seq<byte>, g: seq<byte>, slaveId: int, slaveId': int)
    requires ParseHeader(f, slaveId).Ok? && |g| == |f| && OddCount(Differences(AllBits(f), AllBits(g)))
    ensures ParseHeader(g, slaveId').Err?
  {
    hide AllBits, LittleEndian, Zero, Xor, Stream, CrcFrom, Crc, ToByte, OddCount;
    OddSeen(Differences(AllBits(f), AllBits(g)));
    Residue(f);
    Residue(g);
    CrcDifference(f, g);
  }

  /** A sealed frame passes the checksum test. */
  lemma SealedPasses(data: seq<byte>)
    ensures var f := Sealed(data);
            && Zero(Crc(f))
            && LittleEndian(f[|f| - 2], f[|f| - 1]) == Crc(f[..|f| - 2])
  {
    hide Zero, LittleEndian, LowByte, HighByte, Crc;
    var f := Sealed(data);
    assert f[..|f| - 2] == data;
    LittleEndianSplit(Crc(data));
    Residue(f);
  }

  lemma LittleEndianParts(lo: byte, hi: byte)
    ensures LowByte(LittleEndian(lo, hi)) == lo && HighByte(LittleEndian(lo, hi)) == hi
  {
  }

  /** A response is accepted exactly if it is the expected slave and a payload of at least two bytes,
      sealed; the payload is handed on whole. */
  lemma AcceptedIffSealed(f: seq<byte>, slaveId: int, payload: seq<byte>)
    requires |payload| >= 2
    ensures ParseHeader(f, slaveId) == Ok(Header(payload[0], payload)) <==> f == Sealed([ToByte(slaveId)] + payload)
  {
    hide ToByte, LittleEndian, LowByte, HighByte, Crc, Zero;
    var n := |f|;
    if ParseHeader(f, slaveId) == Ok(Header(payload[0], payload)) {
      var data := f[..n - 2];
      assert data == [f[0]] + f[1..n - 2];
      LittleEndianParts(f[n - 2], f[n - 1]);
      assert f == data + [f[n - 2], f[n - 1]];
    }
    if f == Sealed([ToByte(slaveId)] + payload) {
      SealedPasses([ToByte(slaveId)] + payload);
      assert f[1..n - 2] == payload;
    }
  }
}
