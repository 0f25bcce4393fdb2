/** Raw frames typed by an operator: bytes and checksum placeholders, after tokenising. */
module ModbusRaw {
  import opened Bytes
  import opened ModbusCrc
  import opened ModbusRtu

  datatype Part = Value(b: byte) | CrcLow | CrcHigh

  datatype RawError = EmptyRequest | IncompleteCrc | NoPayload | CrcNotAtTail

  /** The bytes of parts that hold no placeholder. */
  function Values(parts: seq<Part>): (r: seq<byte>)
    requires forall i :: 0 <= i < |parts| ==> parts[i].Value?
  {
    seq(|parts|, i requires 0 <= i < |parts| => parts[i].b)
  }

  predicate Plain(parts: seq<Part>) {
    forall i :: 0 <= i < |parts| ==> parts[i].Value?
  }

  /** Plain bytes followed by exactly one low and one high placeholder, in either order. */
  predicate WithCrcTail(parts: seq<Part>) {
    && |parts| >= 3
    && Plain(parts[..|parts| - 2])
    && parts[|parts| - 2..] in {[CrcLow, CrcHigh], [CrcHigh, CrcLow]}
  }

  function Fill(p: Part, crc: bv16): byte {
    match p
    case Value(b) => b
    case CrcLow => LowByte(crc)
    case CrcHigh => HighByte(crc)
  }

  /** The part of `parseRawModbusRTUBytes` after the tokens are read. A frame results exactly for
      plain bytes and for bytes with a complete checksum tail; the tail's bytes are then the
      checksum of what precedes them, in the order the placeholders ask for. */
  method FillPlaceholders(parts: seq<Part>) returns (r: Result<seq<byte>, RawError>)
    ensures r.Ok? <==> (parts != [] && Plain(parts)) || WithCrcTail(parts)
    ensures parts != [] && Plain(parts) ==> r == Ok(Values(parts))
    ensures WithCrcTail(parts) ==>
              var payload := Values(parts[..|parts| - 2]);
              r == Ok(payload + [Fill(parts[|parts| - 2], Crc(payload)), Fill(parts[|parts| - 1], Crc(payload))])
    ensures parts == [] ==> r == Err(EmptyRequest)
    ensures parts != [] && !Plain(parts) && (Holes(parts) != 2 || CrcLow !in parts || CrcHigh !in parts) ==>
              r == Err(IncompleteCrc)
    ensures Holes(parts) == 2 && CrcLow in parts && CrcHigh in parts && !parts[0].Value? ==> r == Err(NoPayload)
    ensures Holes(parts) == 2 && CrcLow in parts && CrcHigh in parts && parts[0].Value? && !WithCrcTail(parts) ==>
              r == Err(CrcNotAtTail)
  {
    hide Crc, LowByte, HighByte, Holes;
    if WithCrcTail(parts) {
      TailCounted(parts);
    }
    if parts == [] {
      return Err(EmptyRequest);
    }
    var firstCrc, fields, hasLow, hasHigh := Scan(parts);
    if fields > 0 {
      if fields != 2 || !hasLow || !hasHigh {
        return Err(IncompleteCrc);
      }
      if firstCrc <= 0 {
        return Err(NoPayload);
      }
      var i := firstCrc;
      while i < |parts|
        invariant firstCrc <= i <= |parts|
        invariant forall j :: firstCrc <= j < i ==> !parts[j].Value?
      {
        if parts[i].Value? {
          return Err(CrcNotAtTail);
        }
        i := i + 1;
      }
      TailIsLast(parts, firstCrc);
      var payload := Values(parts[..firstCrc]);
      var crc := Crc16Modbus(payload);
      var frame := seq(|parts|, i requires 0 <= i < |parts| => Fill(parts[i], crc));
      assert frame == payload + [Fill(parts[firstCrc], crc), Fill(parts[firstCrc + 1], crc)];
      r := Ok(frame);
    } else {
      r := Ok(Values(parts));
    }
  }

  /** The number of placeholders. */
  function Holes(parts: seq<Part>): nat {
    if parts == [] then 0
    else Holes(parts[..|parts| - 1]) + if parts[|parts| - 1].Value? then 0 else 1
  }

  lemma {:induction false} HolesAfter(parts: seq<Part>, first: nat)
    requires first <= |parts| && Plain(parts[..first])
    requires forall j :: first <= j < |parts| ==> !parts[j].Value?
    ensures Holes(parts) == |parts| - first
  {
    if parts != [] {
      var n := |parts| - 1;
      if n < first {
        assert parts[..first][n] == parts[n];
        assert parts[..n][..n] == parts[..first][..n];
        HolesAfter(parts[..n], n);
      } else {
        assert parts[..n][..first] == parts[..first];
        HolesAfter(parts[..n], first);
      }
    }
  }

  lemma TailCounted(parts: seq<Part>)
    requires WithCrcTail(parts)
    ensures Holes(parts) == 2 && CrcLow in parts && CrcHigh in parts
  {
    var n := |parts|;
    assert parts[n - 2..] == [parts[n - 2], parts[n - 1]];
    HolesAfter(parts, n - 2);
  }

  lemma TailIsLast(parts: seq<Part>, first: nat)
    requires 0 < first < |parts| && Plain(parts[..first]) && Holes(parts) == 2
    requires forall j :: first <= j < |parts| ==> !parts[j].Value?
    requires CrcLow in parts && CrcHigh in parts
    ensures first == |parts| - 2 && WithCrcTail(parts)
  {
    HolesAfter(parts, first);
    var n := |parts|;
    assert forall i :: 0 <= i < first ==> parts[i] == parts[..first][i];
    assert parts[n - 2..] == [parts[n - 2], parts[n - 1]];
  }

  /** The counting loop. */
  method Scan(parts: seq<Part>) returns (firstCrc: int, fields: nat, hasLow: bool, hasHigh: bool)
    ensures fields == Holes(parts)
    ensures fields == 0 <==> firstCrc == -1
    ensures firstCrc == -1 ==> Plain(parts)
    ensures firstCrc != -1 ==>
              0 <= firstCrc < |parts| && !parts[firstCrc].Value? && Plain(parts[..firstCrc])
    ensures hasLow == (CrcLow in parts) && hasHigh == (CrcHigh in parts)
  {
    firstCrc, fields, hasLow, hasHigh := -1, 0, false, false;
    for i := 0 to |parts|
      invariant fields == Holes(parts[..i])
      invariant fields == 0 <==> firstCrc == -1
      invariant firstCrc == -1 ==> Plain(parts[..i])
      invariant firstCrc != -1 ==> 0 <= firstCrc < i && !parts[firstCrc].Value? && Plain(parts[..firstCrc])
      invariant hasLow == (CrcLow in parts[..i]) && hasHigh == (CrcHigh in parts[..i])
    {
      assert parts[..i + 1] == parts[..i] + [parts[i]];
      if !parts[i].Value? {
        fields := fields + 1;
        if firstCrc == -1 {
          firstCrc := i;
        }
        hasLow := hasLow || parts[i].CrcLow?;
        hasHigh := hasHigh || parts[i].CrcHigh?;
      }
    }
    assert parts[..|parts|] == parts;
  }

  /** Placeholders in the order low, high make a frame that passes the checksum test. */
  lemma LowThenHighSealed(parts: seq<Part>)
    requires WithCrcTail(parts) && parts[|parts| - 2] == CrcLow
    ensures var payload := Values(parts[..|parts| - 2]);
            var frame := payload + [Fill(parts[|parts| - 2], Crc(payload)), Fill(parts[|parts| - 1], Crc(payload))];
            frame == Sealed(payload) && Zero(Crc(frame))
  {
    hide Crc, LowByte, HighByte, Zero;
    var n := |parts|;
    assert parts[n - 2..] == [parts[n - 2], parts[n - 1]];
    SealedPasses(Values(parts[..n - 2]));
  }
}
