/** The CRC-16 of Modbus RTU frames (sections 2.5.1.2 and 6.2.2 of MODBUS over Serial Line V1.02)
    and the transmission errors it is guaranteed to catch. */
module ModbusCrc {
  import opened Bytes

  /** One shift of the register. */
  function Shift(c: bv16): bv16 {
    if c & 1 != 0 then (c >> 1) ^ 0xA001 else c >> 1
  }

  function Shifted(c: bv16, n: nat): bv16
    decreases n
  {
    if n == 0 then c else Shifted(Shift(c), n - 1)
  }

  function Xor(a: bv16, b: bv16): bv16 {
    a ^ b
  }

  function Feed(c: bv16, b: byte): bv16 {
    Shifted(Xor(c, b as bv16), 8)
  }

  /** The register after `data`, started from `c`. */
  function CrcFrom(c: bv16, data: seq<byte>): bv16 {
    if data == [] then c else Feed(CrcFrom(c, data[..|data| - 1]), data[|data| - 1])
  }

  function Crc(data: seq<byte>): bv16 {
    CrcFrom(0xFFFF, data)
  }

  /** The loop over the bits of one byte. */
  method Shift8(c: bv16) returns (crc: bv16)
    ensures crc == Shifted(c, 8)
  {
    crc := c;
    var i := 0;
    while i < 8
      invariant 0 <= i <= 8 && Shifted(crc, 8 - i) == Shifted(c, 8)
    {
      if crc & 1 != 0 {
        crc := crc >> 1;
        crc := crc ^ 0xA001;
      } else {
        crc := crc >> 1;
      }
      i := i + 1;
    }
  }

  /** `crc16Modbus` */
  method Crc16Modbus(data: seq<byte>) returns (crc: bv16)
    ensures crc == Crc(data)
  {
    crc := 0xFFFF;
    var n := 0;
    while n < |data|
      invariant 0 <= n <= |data| && crc == CrcFrom(0xFFFF, data[..n])
    {
      hide Shifted, Xor;
      crc := Shift8(Xor(crc, data[n] as bv16));
      assert data[..n + 1][..n] == data[..n];
      n := n + 1;
    }
    assert data[..n] == data;
  }

  // The register is linear over exclusive-or, and a shift loses nothing.

  lemma XorHalves(a: bv16, b: bv16)
    ensures (a ^ b) >> 1 == (a >> 1) ^ (b >> 1)
    ensures (a ^ b) & 1 == (a & 1) ^ (b & 1)
  {
  }

  lemma LowBit(a: bv16)
    ensures a & 1 == 0 || a & 1 == 1
  {
  }

  lemma XorMoves(a: bv16, b: bv16, p: bv16)
    ensures (a ^ p) ^ b == (a ^ b) ^ p
  {
  }

  lemma XorCancels(a: bv16, b: bv16, p: bv16)
    ensures (a ^ p) ^ (b ^ p) == a ^ b
  {
  }

  lemma ShiftLinear(a: bv16, b: bv16)
    ensures Shift(Xor(a, b)) == Xor(Shift(a), Shift(b))
  {
    XorHalves(a, b);
    LowBit(a);
    LowBit(b);
    XorMoves(a >> 1, b >> 1, 0xA001);
    XorMoves(b >> 1, a >> 1, 0xA001);
    XorCancels(a >> 1, b >> 1, 0xA001);
  }

  lemma {:induction false} ShiftedLinear(a: bv16, b: bv16, n: nat)
    ensures Shifted(Xor(a, b), n) == Xor(Shifted(a, n), Shifted(b, n))
    decreases n
  {
    hide Shift, Xor;
    if n > 0 {
      ShiftLinear(a, b);
      ShiftedLinear(Shift(a), Shift(b), n - 1);
    }
  }

  predicate Zero(c: bv16) {
    c == 0
  }

  lemma ShiftZero(c: bv16)
    ensures Zero(Shift(c)) <==> Zero(c)
  {
  }

  lemma {:induction false} ShiftedZero(c: bv16, n: nat)
    ensures Zero(Shifted(c, n)) <==> Zero(c)
    decreases n
  {
    hide Shift, Zero;
    if n > 0 {
      ShiftZero(c);
      ShiftedZero(Shift(c), n - 1);
    }
  }

  // The same register fed bit by bit, in the order the bits are on the line.

  function Bit(b: bool): bv16 {
    if b then 1 else 0
  }

  function Stream(c: bv16, bits: seq<bool>): bv16
    decreases |bits|
  {
    if bits == [] then c else Stream(Shift(Xor(c, Bit(bits[0]))), bits[1..])
  }

  function Bits(b: byte): (r: seq<bool>)
    ensures |r| == 8
  {
    [b & 1 != 0, b & 2 != 0, b & 4 != 0, b & 8 != 0, b & 16 != 0, b & 32 != 0, b & 64 != 0, b & 128 != 0]
  }

  function AllBits(data: seq<byte>): (r: seq<bool>)
    ensures |r| == 8 * |data|
  {
    if data == [] then [] else AllBits(data[..|data| - 1]) + Bits(data[|data| - 1])
  }

  /** The mask of bits `n` and above. */
  function High(n: nat): bv16
    requires n < 16
  {
    [0xFFFF, 0xFFFE, 0xFFFC, 0xFFF8, 0xFFF0, 0xFFE0, 0xFFC0, 0xFF80,
     0xFF00, 0xFE00, 0xFC00, 0xF800, 0xF000, 0xE000, 0xC000, 0x8000][n]
  }

  /** Puts bit `b` below the number `p`. */
  function Join(b: bv16, p: bv16): bv16 {
    Xor(b, p << 1)
  }

  /** The bits as a number, least significant first. */
  function Pack(bits: seq<bool>): bv16 {
    if bits == [] then 0 else Join(Bit(bits[0]), Pack(bits[1..]))
  }

  /** Only the lowest `n` bits of `p` may be set. */
  predicate Below(p: bv16, n: nat)
    requires n < 16
  {
    Clear(p, High(n))
  }

  predicate Clear(p: bv16, mask: bv16) {
    p & mask == 0
  }

  function Doubled(mask: bv16): bv16 {
    mask << 1
  }

  lemma HighStep(n: nat)
    requires n < 15
    ensures High(n + 1) == Doubled(High(n))
  {
  }

  lemma HighTop(n: nat)
    requires n < 16
    ensures High(n) & 0x8000 == 0x8000
  {
  }

  lemma JoinMask(b: bv16, p: bv16, mask: bv16)
    requires b <= 1 && Clear(p, mask)
    ensures Clear(Join(b, p), Doubled(mask))
  {
  }

  lemma JoinBelow(x: bool, p: bv16, n: nat)
    requires n < 15 && Below(p, n)
    ensures Below(Join(Bit(x), p), n + 1)
  {
    hide High, Join, Bit, Clear, Doubled;
    HighStep(n);
    BitSmall(x);
    JoinMask(Bit(x), p, High(n));
  }

  lemma BitSmall(x: bool)
    ensures Bit(x) <= 1
  {
  }

  lemma BelowTop(p: bv16, n: nat)
    requires n < 16 && Below(p, n)
    ensures p & 0x8000 == 0
  {
    hide High;
    HighTop(n);
  }

  lemma {:induction false} PackBelow(bits: seq<bool>)
    requires |bits| < 16
    ensures Below(Pack(bits), |bits|)
  {
    if bits == [] {
    } else {
      hide Join, Bit, Below;
      PackBelow(bits[1..]);
      JoinBelow(bits[0], Pack(bits[1..]), |bits| - 1);
    }
  }

  lemma XorAssociates(a: bv16, b: bv16, c: bv16)
    ensures Xor(a, Xor(b, c)) == Xor(Xor(a, b), c)
  {
  }

  /** A shift takes the lowest bit off again. */
  lemma ShiftJoin(c: bv16, b: bv16, p: bv16, n: nat)
    requires n < 16 && Below(p, n)
    ensures Shift(Xor(c, Join(b, p))) == Xor(Shift(Xor(c, b)), p)
  {
    assert Xor(c, Join(b, p)) == Xor(Xor(c, b), p << 1) by {
      hide Xor;
      XorAssociates(c, b, p << 1);
    }
    ShiftLinear(Xor(c, b), p << 1);
    ShiftHalves(p, n);
    hide Xor, Shift, Join;
  }

  lemma ShiftHalves(p: bv16, n: nat)
    requires n < 16 && Below(p, n)
    ensures Shift(p << 1) == p
  {
    hide High;
    BelowTop(p, n);
  }

  /** Feeding up to sixteen bits one by one is folding them in at once and shifting. */
  lemma {:induction false} StreamIsShifted(c: bv16, bits: seq<bool>)
    requires |bits| <= 16
    ensures Stream(c, bits) == Shifted(Xor(c, Pack(bits)), |bits|)
    decreases |bits|
  {
    hide Shift, Xor, Join, Bit, Below;
    if bits == [] {
      XorZero(c);
    } else {
      PackBelow(bits[1..]);
      ShiftJoin(c, Bit(bits[0]), Pack(bits[1..]), |bits| - 1);
      StreamIsShifted(Shift(Xor(c, Bit(bits[0]))), bits[1..]);
    }
  }

  lemma XorZero(c: bv16)
    ensures Xor(c, 0) == c && Xor(0, c) == c && Xor(c, c) == 0
  {
  }

  lemma {:induction false} StreamConcat(c: bv16, s: seq<bool>, t: seq<bool>)
    ensures Stream(c, s + t) == Stream(Stream(c, s), t)
    decreases |s|
  {
    hide Shift, Xor;
    if s == [] {
      assert s + t == t;
    } else {
      assert (s + t)[1..] == s[1..] + t;
      StreamConcat(Shift(Xor(c, Bit(s[0]))), s[1..], t);
    }
  }

  function Nested(b0: bv16, b1: bv16, b2: bv16, b3: bv16, b4: bv16, b5: bv16, b6: bv16, b7: bv16): bv16 {
    Join(b0, Join(b1, Join(b2, Join(b3, Join(b4, Join(b5, Join(b6, Join(b7, 0))))))))
  }

  lemma NestedBits(b: byte)
    ensures Nested(if b & 1 != 0 then 1 else 0, if b & 2 != 0 then 1 else 0,
                   if b & 4 != 0 then 1 else 0, if b & 8 != 0 then 1 else 0,
                   if b & 16 != 0 then 1 else 0, if b & 32 != 0 then 1 else 0,
                   if b & 64 != 0 then 1 else 0, if b & 128 != 0 then 1 else 0) == b as bv16
  {
  }

  lemma PackDrop(s: seq<bool>, k: nat)
    requires k < |s| <= 16
    ensures Pack(s[k..]) == Join(Bit(s[k]), Pack(s[k + 1..]))
  {
    hide Join, Bit;
    assert s[k..][1..] == s[k + 1..];
  }

  lemma PackEight(s: seq<bool>)
    requires |s| == 8
    ensures Pack(s) == Nested(Bit(s[0]), Bit(s[1]), Bit(s[2]), Bit(s[3]),
                              Bit(s[4]), Bit(s[5]), Bit(s[6]), Bit(s[7]))
  {
    hide Bit, Join;
    PackDrop(s, 0);
    PackDrop(s, 1);
    PackDrop(s, 2);
    PackDrop(s, 3);
    PackDrop(s, 4);
    PackDrop(s, 5);
    PackDrop(s, 6);
    PackDrop(s, 7);
    assert s == s[0..] && s[8..] == [];
  }

  lemma PackBits(b: byte)
    ensures Pack(Bits(b)) == b as bv16
  {
    hide Nested, Pack;
    PackEight(Bits(b));
    NestedBits(b);
  }

  /** The checksum of a frame is the bit-serial register over the frame's bits. */
  lemma {:induction false} CrcIsStream(c: bv16, data: seq<byte>)
    ensures CrcFrom(c, data) == Stream(c, AllBits(data))
  {
    hide Shift, Xor, Bits, Shifted;
    if data != [] {
      var init, last := data[..|data| - 1], data[|data| - 1];
      CrcIsStream(c, init);
      StreamConcat(c, AllBits(init), Bits(last));
      StreamIsShifted(CrcFrom(c, init), Bits(last));
      PackBits(last);
    }
  }

  /** Where two bit streams differ. */
  function Differences(s: seq<bool>, t: seq<bool>): (d: seq<bool>)
    requires |s| == |t|
    ensures |d| == |s|
  {
    seq(|s|, i requires 0 <= i < |s| => s[i] != t[i])
  }

  lemma XorShuffle(a: bv16, b: bv16, c: bv16, d: bv16)
    ensures Xor(Xor(a, b), Xor(c, d)) == Xor(Xor(a, c), Xor(b, d))
  {
    hide Xor;
    XorAssociates(a, b, Xor(c, d));
    XorAssociates(b, c, d);
    XorCommutes(b, c);
    XorAssociates(c, b, d);
    XorAssociates(a, c, Xor(b, d));
  }

  lemma XorCommutes(a: bv16, b: bv16)
    ensures Xor(a, b) == Xor(b, a)
  {
  }

  /** The difference of two registers depends only on where their inputs differ. */
  lemma {:induction false} StreamLinear(c: bv16, d: bv16, s: seq<bool>, t: seq<bool>)
    requires |s| == |t|
    ensures Xor(Stream(c, s), Stream(d, t)) == Stream(Xor(c, d), Differences(s, t))
    decreases |s|
  {
    hide Shift, Xor;
    if s != [] {
      var a, b := Bit(s[0]), Bit(t[0]);
      assert Differences(s, t)[1..] == Differences(s[1..], t[1..]);
      assert Xor(a, b) == Bit(Differences(s, t)[0]) by {
        BitDifference(s[0], t[0]);
      }
      XorShuffle(c, d, a, b);
      ShiftLinear(Xor(c, a), Xor(d, b));
      StreamLinear(Shift(Xor(c, a)), Shift(Xor(d, b)), s[1..], t[1..]);
    }
  }

  lemma BitDifference(x: bool, y: bool)
    ensures Xor(Bit(x), Bit(y)) == Bit(x != y)
  {
  }

  /** Equal bits neither create nor cancel a difference. */
  lemma {:induction false} QuietBits(c: bv16, s: seq<bool>)
    requires forall i :: 0 <= i < |s| ==> !s[i]
    ensures Zero(Stream(c, s)) <==> Zero(c)
    decreases |s|
  {
    hide Shift, Xor, Zero;
    if s != [] {
      XorZero(c);
      ShiftZero(c);
      QuietBits(Shift(c), s[1..]);
    }
  }

  lemma {:induction false} PackNonZero(s: seq<bool>, i: nat)
    requires |s| <= 16 && i < |s| && s[i]
    ensures !Zero(Pack(s))
  {
    hide Join, Zero, Bit, Below;
    if i > 0 {
      PackNonZero(s[1..], i - 1);
      PackBelow(s[1..]);
      PackStep(s[0], Pack(s[1..]), |s| - 1);
    } else {
      PackOdd(Pack(s[1..]));
    }
  }

  lemma PackStep(x: bool, p: bv16, n: nat)
    requires n < 16 && Below(p, n) && !Zero(p)
    ensures !Zero(Join(Bit(x), p))
  {
    hide High;
    BelowTop(p, n);
  }

  lemma PackOdd(p: bv16)
    ensures !Zero(Join(Bit(true), p))
  {
  }

  lemma {:induction false} QuietStart(s: seq<bool>)
    requires forall i :: 0 <= i < |s| ==> !s[i]
    ensures Stream(0, s) == 0
  {
    QuietBits(0, s);
  }

  /** A burst of at most sixteen bits never leaves the register at zero. */
  lemma BurstSeen(s: seq<bool>, m: nat, k: nat)
    requires k < |s| && s[k]
    requires forall i :: 0 <= i < |s| && s[i] ==> m <= i < m + 16
    ensures !Zero(Stream(0, s))
  {
    hide Shift, Xor, Shifted, Stream, Zero, Pack;
    var end := if m + 16 < |s| then m + 16 else |s|;
    var w := s[m..end];
    assert s == s[..m] + (w + s[end..]);
    StreamConcat(0, s[..m], w + s[end..]);
    QuietStart(s[..m]);
    StreamConcat(0, w, s[end..]);
    StreamIsShifted(0, w);
    XorZero(Pack(w));
    PackNonZero(w, k - m);
    ShiftedZero(Pack(w), |w|);
    QuietBits(Stream(0, w), s[end..]);
  }

  // Which register it is.

  /** The checksum is the shift register started with all ones and fed the frame's bits in the order they
      are sent. */
  lemma CrcIsBitSerial(data: seq<byte>)
    ensures Crc(data) == Stream(0xFFFF, AllBits(data))
  {
    CrcIsStream(0xFFFF, data);
  }

  lemma {:induction false} QuietShifts(c: bv16, s: seq<bool>)
    requires forall i :: 0 <= i < |s| ==> !s[i]
    ensures Stream(c, s) == Shifted(c, |s|)
    decreases |s|
  {
    hide Shift, Xor;
    if s != [] {
      XorZero(c);
      QuietShifts(Shift(c), s[1..]);
    }
  }

  /** What the frame contributes and what the start value contributes. */
  lemma CrcSplits(data: seq<byte>)
    ensures Crc(data) == Xor(Stream(0, AllBits(data)), Shifted(0xFFFF, 8 * |data|))
  {
    hide Stream, Xor, AllBits, CrcFrom, Shifted;
    var bits := AllBits(data);
    CrcIsBitSerial(data);
    StreamLinear(0xFFFF, 0, bits, bits);
    QuietShifts(0xFFFF, Differences(bits, bits));
    XorZero(0xFFFF);
    SplitXor(Stream(0xFFFF, bits), Stream(0, bits), Shifted(0xFFFF, 8 * |data|));
  }

  lemma SplitXor(a: bv16, b: bv16, c: bv16)
    requires Xor(a, b) == c
    ensures a == Xor(b, c)
  {
  }

  lemma FeedChain(c: bv16, b: byte, c8: bv16, c7: bv16, c6: bv16, c5: bv16, c4: bv16, c3: bv16, c2: bv16,
                  c1: bv16, c0: bv16)
    requires Xor(c, b as bv16) == c8
    requires Shift(c8) == c7 && Shift(c7) == c6 && Shift(c6) == c5 && Shift(c5) == c4
    requires Shift(c4) == c3 && Shift(c3) == c2 && Shift(c2) == c1 && Shift(c1) == c0
    ensures Feed(c, b) == c0
  {
    hide Shift;
  }

  lemma CrcNone()
    ensures Crc([]) == 0xFFFF
  {
  }

  lemma CrcNext(data: seq<byte>, c: bv16, b: byte, d: bv16)
    requires Crc(data) == c && Feed(c, b) == d
    ensures Crc(data + [b]) == d
  {
    hide Feed;
    assert (data + [b])[..|data|] == data;
  }

  lemma CheckByte1()
    ensures Feed(0xFFFF, 0x31) == 0x947E
  {
    FeedChain(0xFFFF, 0x31, 0xFFCE, 0x7FE7, 0x9FF2, 0x4FF9, 0x87FD, 0xE3FF, 0xD1FE, 0x68FF, 0x947E);
  }

  lemma CheckByte2()
    ensures Feed(0x947E, 0x32) == 0xF595
  {
    FeedChain(0x947E, 0x32, 0x944C, 0x4A26, 0x2513, 0xB288, 0x5944, 0x2CA2, 0x1651, 0xAB29, 0xF595);
  }

  lemma CheckByte3()
    ensures Feed(0xF595, 0x33) == 0x7A75
  {
    FeedChain(0xF595, 0x33, 0xF5A6, 0x7AD3, 0x9D68, 0x4EB4, 0x275A, 0x13AD, 0xA9D7, 0xF4EA, 0x7A75);
  }

  lemma CheckByte4()
    ensures Feed(0x7A75, 0x34) == 0x30BA
  {
    FeedChain(0x7A75, 0x34, 0x7A41, 0x9D21, 0xEE91, 0xD749, 0xCBA5, 0xC5D3, 0xC2E8, 0x6174, 0x30BA);
  }

  lemma CheckByte5()
    ensures Feed(0x30BA, 0x35) == 0xA471
  {
    FeedChain(0x30BA, 0x35, 0x308F, 0xB846, 0x5C23, 0x8E10, 0x4708, 0x2384, 0x11C2, 0x08E1, 0xA471);
  }

  lemma CheckByte6()
    ensures Feed(0xA471, 0x36) == 0x32E4
  {
    FeedChain(0xA471, 0x36, 0xA447, 0xF222, 0x7911, 0x9C89, 0xEE45, 0xD723, 0xCB90, 0x65C8, 0x32E4);
  }

  lemma CheckByte7()
    ensures Feed(0x32E4, 0x37) == 0x9D73
  {
    FeedChain(0x32E4, 0x37, 0x32D3, 0xB968, 0x5CB4, 0x2E5A, 0x172D, 0xAB97, 0xF5CA, 0x7AE5, 0x9D73);
  }

  lemma CheckByte8()
    ensures Feed(0x9D73, 0x38) == 0x37DD
  {
    FeedChain(0x9D73, 0x38, 0x9D4B, 0xEEA4, 0x7752, 0x3BA9, 0xBDD5, 0xFEEB, 0xDF74, 0x6FBA, 0x37DD);
  }

  lemma CheckByte9()
    ensures Feed(0x37DD, 0x39) == 0x4B37
  {
    FeedChain(0x37DD, 0x39, 0x37E4, 0x1BF2, 0x0DF9, 0xA6FD, 0xF37F, 0xD9BE, 0x6CDF, 0x966E, 0x4B37);
  }

  /** Three bytes more. */
  lemma CrcNextThree(data: seq<byte>, c: bv16, b1: byte, d1: bv16, b2: byte, d2: bv16, b3: byte, d3: bv16)
    requires Crc(data) == c && Feed(c, b1) == d1 && Feed(d1, b2) == d2 && Feed(d2, b3) == d3
    ensures Crc(data + [b1, b2, b3]) == d3
  {
    hide Feed, Crc;
    CrcNext(data, c, b1, d1);
    CrcNext(data + [b1], d1, b2, d2);
    CrcNext(data + [b1] + [b2], d2, b3, d3);
    assert data + [b1] + [b2] + [b3] == data + [b1, b2, b3];
  }

  /** The published check value: the checksum of the digits 1 to 9. */
  lemma CheckValue()
    ensures Crc([0x31, 0x32, 0x33, 0x34, 0x35, 0x36, 0x37, 0x38, 0x39]) == 0x4B37
  {
    hide Feed, Crc;
    CrcNone();
    var none: seq<byte> := [];
    CheckByte1();
    CheckByte2();
    CheckByte3();
    CrcNextThree(none, 0xFFFF, 0x31, 0x947E, 0x32, 0xF595, 0x33, 0x7A75);
    var three := none + [0x31, 0x32, 0x33];
    CheckByte4();
    CheckByte5();
    CheckByte6();
    CrcNextThree(three, 0x7A75, 0x34, 0x30BA, 0x35, 0xA471, 0x36, 0x32E4);
    var six := three + [0x34, 0x35, 0x36];
    CheckByte7();
    CheckByte8();
    CheckByte9();
    CrcNextThree(six, 0x32E4, 0x37, 0x9D73, 0x38, 0x37DD, 0x39, 0x4B37);
    var nine := six + [0x37, 0x38, 0x39];
    assert nine == [0x31, 0x32, 0x33, 0x34, 0x35, 0x36, 0x37, 0x38, 0x39];
  }

  // Parity. The feedback mask has an odd number of bits, so a shift keeps the register's parity.

  /** An odd number of the lowest `n` bits are set. */
  predicate OddBits(c: bv16, n: nat) {
    n > 0 && Low(c) != OddBits(Half(c), n - 1)
  }

  predicate OddWeight(c: bv16) {
    OddBits(c, 16)
  }

  predicate Low(c: bv16) {
    c & 1 != 0
  }

  function Half(c: bv16): bv16 {
    c >> 1
  }

  predicate BitAt(c: bv16, n: nat) {
    if n == 0 then Low(c) else BitAt(Half(c), n - 1)
  }

  lemma HalfXor(a: bv16, b: bv16)
    ensures Half(Xor(a, b)) == Xor(Half(a), Half(b))
    ensures Low(Xor(a, b)) <==> Low(a) != Low(b)
  {
    XorHalves(a, b);
    LowBit(a);
    LowBit(b);
  }

  lemma {:induction false} OddBitsLinear(a: bv16, b: bv16, n: nat)
    ensures OddBits(Xor(a, b), n) <==> OddBits(a, n) != OddBits(b, n)
    decreases n
  {
    hide Half, Low, Xor;
    if n > 0 {
      OddBitsLinear(Half(a), Half(b), n - 1);
      HalfXor(a, b);
    }
  }

  lemma {:induction false} OddBitsMore(c: bv16, n: nat)
    ensures OddBits(c, n + 1) <==> OddBits(c, n) != BitAt(c, n)
    decreases n
  {
    hide Half, Low;
    if n > 0 {
      OddBitsMore(Half(c), n - 1);
    }
  }

  lemma HalfClear(p: bv16, mask: bv16)
    requires Clear(p, Doubled(mask))
    ensures Clear(Half(p), mask)
  {
  }

  lemma {:induction false} NoBitAbove(p: bv16, n: nat)
    requires n < 16 && Below(p, n)
    ensures !BitAt(p, n)
    decreases n
  {
    hide Half, Clear, Doubled, Low;
    if n == 0 {
      NoLowBit(p);
    } else {
      HighStep(n - 1);
      HalfClear(p, High(n - 1));
      NoBitAbove(Half(p), n - 1);
    }
  }

  lemma NoLowBit(p: bv16)
    requires Below(p, 0)
    ensures !Low(p)
  {
  }

  lemma HalfBelow(c: bv16)
    ensures Below(Half(c), 15)
  {
  }

  lemma MaskWeight()
    ensures OddWeight(0xA001)
  {
    assert OddBits(0x0001, 1) && OddBits(0x0002, 2) && !OddBits(0x0005, 3) && !OddBits(0x000A, 4);
    assert !OddBits(0x0014, 5) && !OddBits(0x0028, 6) && !OddBits(0x0050, 7) && !OddBits(0x00A0, 8);
    assert !OddBits(0x0140, 9) && !OddBits(0x0280, 10) && !OddBits(0x0500, 11) && !OddBits(0x0A00, 12);
    assert !OddBits(0x1400, 13) && !OddBits(0x2800, 14) && !OddBits(0x5000, 15);
  }

  lemma ShiftByHalf(c: bv16)
    ensures Shift(c) == if Low(c) then Xor(Half(c), 0xA001) else Half(c)
  {
  }

  lemma ShiftParity(c: bv16)
    ensures OddWeight(Shift(c)) <==> OddWeight(c)
  {
    hide Half, Low, Shift, Below, Xor;
    HalfBelow(c);
    NoBitAbove(Half(c), 15);
    OddBitsMore(Half(c), 15);
    MaskWeight();
    OddBitsLinear(Half(c), 0xA001, 16);
    ShiftByHalf(c);
  }

  lemma {:induction false} NoOddBits(n: nat)
    ensures !OddBits(0, n)
  {
    if n > 0 {
      assert Half(0) == 0;
      NoOddBits(n - 1);
    }
  }

  lemma BitParity(c: bv16, b: bool)
    ensures OddWeight(Xor(c, Bit(b))) <==> OddWeight(c) != b
  {
    OddBitsLinear(c, Bit(b), 16);
    NoOddBits(15);
    NoOddBits(16);
    assert Half(1) == 0;
    hide Xor;
  }

  /** An odd number of the bits are set. */
  predicate OddCount(s: seq<bool>)
    decreases |s|
  {
    s != [] && s[0] != OddCount(s[1..])
  }

  /** The register's parity is that of its start and its input together. */
  lemma {:induction false} StreamParity(c: bv16, s: seq<bool>)
    ensures OddWeight(Stream(c, s)) <==> OddWeight(c) != OddCount(s)
    decreases |s|
  {
    hide OddWeight, Shift, Xor, Bit;
    if s != [] {
      var x := Xor(c, Bit(s[0]));
      BitParity(c, s[0]);
      ShiftParity(x);
      StreamParity(Shift(x), s[1..]);
    }
  }

  /** An odd number of differences never leaves the register at zero. */
  lemma OddSeen(s: seq<bool>)
    requires OddCount(s)
    ensures !Zero(Stream(0, s))
  {
    StreamParity(0, s);
    NoOddBits(16);
    hide Stream, OddCount;
  }
}
