/** UUID version 7 as libs/uuid_utils.py packs it (section 5.7 of RFC 9562). */
module UuidV7 {
  import opened Bits
  import opened Bytes
  import opened NumberTheory
  import opened Wrappers

  type Random = r: Bytes | |r| == 10 witness Zeros(10)

  type Uuid = u: Bytes | |u| == 16 witness Zeros(16)

  datatype Error = TimestampOutOfRange | NotVersion7

  /** The fields, laid out as the standard draws them. */
  function Layout(timestamp: nat, random: Random): (u: Uuid) {
    var a := OctetsToInt(random[..2]) % 0x1000;
    IntToOctets(timestamp, 6) + IntToOctets(0x7000 + a, 2) + [0x80 + random[2] % 0x40] + random[3..]
  }

  /** struct.pack for an unsigned 64-bit integer. */
  predicate Packable(timestamp: int) {
    0 <= timestamp < 0x1_0000_0000_0000_0000
  }

  lemma PowerValues()
    ensures Pow(2, 6) == 0x40 && Pow(2, 12) == 0x1000 && Pow(256, 2) == 0x1_0000
    ensures Pow(256, 6) == 0x1_0000_0000_0000 && Pow(256, 8) == 0x1_0000_0000_0000_0000
  {
    assert Pow(2, 6) == 2 * Pow(2, 5) == 4 * Pow(2, 4) == 8 * Pow(2, 3) == 16 * Pow(2, 2) == 64 * Pow(2, 0);
    PowAdd(2, 6, 6);
    assert Pow(256, 2) == 256 * Pow(256, 1) == 256 * 256 * Pow(256, 0);
    PowAdd(256, 2, 2);
    PowAdd(256, 4, 2);
    PowAdd(256, 4, 4);
  }

  /** Timestamps are refused exactly if eight octets do not hold them. */
  lemma PackableFitsEightOctets(timestamp: int)
    ensures Packable(timestamp) <==> 0 <= timestamp < Pow(256, 8)
  {
    PowerValues();
  }

  lemma {:induction false} OrCommutes(a: nat, b: nat)
    ensures BitOr(a, b) == BitOr(b, a)
    decreases a + b
  {
    if a == 0 && b == 0 {
    } else {
      OrCommutes(a / 2, b / 2);
    }
  }

  lemma MaskRandA(x: nat)
    ensures BitOr(BitAnd(x, 0x0FFF), 0x7000) == 0x7000 + x % 0x1000
  {
    assert Pow(2, 12) == 0x1000 by { PowerValues(); }
    AndMask(x, 12);
    OrCommutes(x % 0x1000, 7 * 0x1000);
    OrDisjoint(7, x % 0x1000, 12);
  }

  lemma MaskVariant(x: nat)
    ensures BitOr(BitAnd(x, 0x3F), 0x80) == 0x80 + x % 0x40
  {
    assert Pow(2, 6) == 0x40 by { PowerValues(); }
    AndMask(x, 6);
    OrCommutes(x % 0x40, 2 * 0x40);
    OrDisjoint(2, x % 0x40, 6);
  }

  lemma {:induction false} LastOctets(x: nat, j: nat, k: nat)
    ensures IntToOctets(x, j + k)[j..] == IntToOctets(x, k)
  {
    if k == 0 {
    } else {
      LastOctets(x / 256, j, k - 1);
      assert IntToOctets(x, j + k) == IntToOctets(x / 256, j + k - 1) + [x % 256];
    }
  }

  /** Assignment to a slice by octets of the same number. */
  method WriteSlice(a: array<Byte>, at: nat, s: Bytes)
    requires at + |s| <= a.Length
    modifies a
    ensures a[..] == old(a[..at]) + s + old(a[at + |s|..])
  {
    for i := 0 to |s|
      invariant a[..at] == old(a[..at]) && a[at + |s|..] == old(a[at + |s|..])
      invariant a[at..at + i] == s[..i]
    {
      a[at + i] := s[i];
    }
    assert a[..] == a[..at] + a[at..at + |s|] + a[at + |s|..];
  }

  lemma ReplaceFirst(head: Bytes, random: Random, b: Byte)
    requires |head| == 8
    ensures (head + random[2..10])[8 := b] == head + [b] + random[3..]
  {
    assert random[2..10] == [random[2]] + random[3..];
  }

  /** The code: sixteen octets written in place, field by field, then the variant bits. */
  method CreateUuidV7Bytes(timestamp: int, random: Random) returns (r: Result<Uuid, Error>)
    ensures r == if Packable(timestamp) then Ok(Layout(timestamp, random)) else Err(TimestampOutOfRange)
  {
    var octets := new Byte[16](_ => 0);
    if !Packable(timestamp) {
      return Err(TimestampOutOfRange);
    }
    var packed := IntToOctets(timestamp, 8)[2..8];
    assert packed == IntToOctets(timestamp, 6) by {
      LastOctets(timestamp, 2, 6);
    }
    WriteSlice(octets, 0, packed);
    assert octets[..6] == packed;
    assert random[0..2] == random[..2];
    var randA := OctetsToInt(random[0..2]);
    MaskRandA(randA);
    randA := BitOr(BitAnd(randA, 0x0FFF), 0x7000);
    var fieldA := IntToOctets(randA, 2);
    WriteSlice(octets, 6, fieldA);
    assert octets[..8] == packed + fieldA;
    WriteSlice(octets, 8, random[2..10]);
    ghost var head := packed + fieldA;
    ghost var written := octets[..];
    assert written == head + random[2..10];
    assert octets[8] == random[2] by { assert written[8] == random[2..10][0]; }
    MaskVariant(random[2]);
    octets[8] := BitOr(BitAnd(octets[8], 0x3F), 0x80);
    assert octets[..] == written[8 := 0x80 + random[2] % 0x40];
    ReplaceFirst(head, random, 0x80 + random[2] % 0x40);
    return Ok(octets[..]);
  }

  // --- Reading back ---------------------------------------------------------

  function Version(u: Uuid): nat {
    u[6] / 16
  }

  function Variant(u: Uuid): nat {
    u[8] / 64
  }

  /** A UUID of another variant has no version at all. */
  function UuidV7Timestamp(u: Uuid): Result<nat, Error> {
    if Variant(u) != 2 || Version(u) != 7 then Err(NotVersion7) else Ok(OctetsToInt([0, 0] + u[0..6]))
  }

  function Boundary(timestamp: int): Result<Uuid, Error> {
    if Packable(timestamp) then Ok(Layout(timestamp, Zeros(10))) else Err(TimestampOutOfRange)
  }

  /** The order of UUIDs is that of their 128-bit values. */
  function Value(u: Uuid): nat {
    OctetsToInt(u)
  }

  /** The tail of a layout, after its six timestamp octets. */
  function Tail(random: Random): (t: Bytes)
    ensures |t| == 10
  {
    IntToOctets(0x7000 + OctetsToInt(random[..2]) % 0x1000, 2) + [0x80 + random[2] % 0x40] + random[3..]
  }

  lemma LayoutSplits(timestamp: nat, random: Random)
    ensures Layout(timestamp, random) == IntToOctets(timestamp, 6) + Tail(random)
    ensures Layout(timestamp, random)[0..6] == IntToOctets(timestamp, 6)
    ensures Layout(timestamp, random)[6] == 0x70 + OctetsToInt(random[..2]) % 0x1000 / 256
  {
    var x := 0x7000 + OctetsToInt(random[..2]) % 0x1000;
    assert IntToOctets(x, 2) == IntToOctets(x / 256, 1) + [x % 256];
    assert IntToOctets(x / 256, 1) == IntToOctets(x / 256 / 256, 0) + [x / 256 % 256];
    assert Layout(timestamp, random) == IntToOctets(timestamp, 6) + Tail(random);
  }

  lemma OctetsToIntAppend(s: Bytes, b: Byte)
    ensures OctetsToInt(s + [b]) == OctetsToInt(s) * 256 + b
  {
    assert (s + [b])[..|s|] == s;
  }

  lemma ModByDigits(x: nat, m: nat)
    requires m > 0
    ensures x % (256 * m) == x / 256 % m * 256 + x % 256
  {
    var h := x / 256;
    var q, r := h / m, h % m;
    assert h == m * q + r;
    var y := r * 256 + x % 256;
    assert x - y == 256 * m * q;
    ResidueUnique(x, y, 256 * m);
  }

  lemma {:induction false} IntToOctetsMod(x: nat, k: nat)
    ensures Pow(256, k) > 0 && OctetsToInt(IntToOctets(x, k)) == x % Pow(256, k)
  {
    PowPositive(256, k);
    if k == 0 {
    } else {
      IntToOctetsMod(x / 256, k - 1);
      PowPositive(256, k - 1);
      ModByDigits(x, Pow(256, k - 1));
      OctetsToIntAppend(IntToOctets(x / 256, k - 1), x % 256);
    }
  }

  /** Every UUID made has version 7 and the standard's variant, keeps the timestamp modulo
      2^48 and gives it back. */
  lemma TimestampReadsBack(timestamp: nat, random: Random)
    ensures var u := Layout(timestamp, random);
            Version(u) == 7 && Variant(u) == 2 && UuidV7Timestamp(u) == Ok(timestamp % 0x1_0000_0000_0000)
  {
    LayoutSplits(timestamp, random);
    IntToOctetsMod(timestamp, 6);
    PowerValues();
    OctetsToIntConcat([0, 0], IntToOctets(timestamp, 6));
    assert [0, 0][..1] == [0] && [0][..0] == [];
  }

  lemma ValueSplits(timestamp: nat, random: Random)
    ensures Value(Layout(timestamp, random)) ==
            timestamp % 0x1_0000_0000_0000 * Pow(256, 10) + OctetsToInt(Tail(random))
    ensures OctetsToInt(Tail(random)) < Pow(256, 10)
  {
    LayoutSplits(timestamp, random);
    OctetsToIntConcat(IntToOctets(timestamp, 6), Tail(random));
    IntToOctetsMod(timestamp, 6);
    PowerValues();
    OctetsToIntBound(Tail(random));
  }

  lemma TimeOrders(s: nat, t: nat, x: Random, y: Random)
    requires s % 0x1_0000_0000_0000 < t % 0x1_0000_0000_0000
    ensures Value(Layout(s, x)) < Value(Layout(t, y))
  {
    ValueSplits(s, x);
    ValueSplits(t, y);
    var m, i, j := Pow(256, 10), s % 0x1_0000_0000_0000, t % 0x1_0000_0000_0000;
    MulMonotone(m, i + 1, j);
    assert m * (i + 1) == i * m + m;
  }

  /** One timestamp gives smaller UUIDs than another, whatever the random octets, exactly when
      it is smaller modulo 2^48; so UUIDs sort by time until the timestamp wraps. */
  lemma TimeOrdered(s: nat, t: nat)
    ensures (forall x: Random, y: Random :: Value(Layout(s, x)) < Value(Layout(t, y)))
            <==> s % 0x1_0000_0000_0000 < t % 0x1_0000_0000_0000
  {
    if s % 0x1_0000_0000_0000 < t % 0x1_0000_0000_0000 {
      forall x: Random, y: Random ensures Value(Layout(s, x)) < Value(Layout(t, y)) {
        TimeOrders(s, t, x, y);
      }
    } else {
      var zero: Random := Zeros(10);
      ValueSplits(s, zero);
      ValueSplits(t, zero);
      PowPositive(256, 10);
      MulMonotone(Pow(256, 10), t % 0x1_0000_0000_0000, s % 0x1_0000_0000_0000);
      assert Value(Layout(s, zero)) >= Value(Layout(t, zero));
    }
  }

  lemma {:induction false} ZerosAreLeast(s: Bytes)
    ensures OctetsToInt(Zeros(|s|)) == 0 <= OctetsToInt(s)
  {
    if s == [] {
    } else {
      ZerosAreLeast(s[..|s| - 1]);
      assert Zeros(|s|)[..|s| - 1] == Zeros(|s| - 1);
    }
  }

  lemma TailValue(random: Random)
    ensures OctetsToInt(Tail(random)) ==
            ((0x7000 + OctetsToInt(random[..2]) % 0x1000) * 256 + (0x80 + random[2] % 0x40)) * Pow(256, 7)
            + OctetsToInt(random[3..])
  {
    var a := 0x7000 + OctetsToInt(random[..2]) % 0x1000;
    var fieldA, variant := IntToOctets(a, 2), 0x80 + random[2] % 0x40;
    PowerValues();
    IntRoundTrip(a, 2);
    assert (fieldA + [variant])[..2] == fieldA;
    assert Tail(random) == (fieldA + [variant]) + random[3..];
    OctetsToIntConcat(fieldA + [variant], random[3..]);
  }

  lemma TailOfZeros()
    ensures OctetsToInt(Tail(Zeros(10))) == (0x7000 * 256 + 0x80) * Pow(256, 7)
  {
    TailValue(Zeros(10));
    ZerosAreLeast(Zeros(2));
    ZerosAreLeast(Zeros(7));
    assert Zeros(10)[..2] == Zeros(2) && Zeros(10)[3..] == Zeros(7);
  }

  lemma TailIsLeast(random: Random)
    ensures OctetsToInt(Tail(Zeros(10))) <= OctetsToInt(Tail(random))
  {
    TailValue(random);
    TailOfZeros();
    var least := 0x7000 * 256 + 0x80;
    var head := (0x7000 + OctetsToInt(random[..2]) % 0x1000) * 256 + (0x80 + random[2] % 0x40);
    assert least <= head;
    PowPositive(256, 7);
    MulMonotone(Pow(256, 7), least, head);
  }

  /** The boundary is the least UUID of its timestamp, and above every UUID of an earlier one. */
  lemma BoundaryIsLeast(t: nat, random: Random, s: nat, earlier: Random)
    requires Packable(t)
    ensures Boundary(t).Ok?
    ensures Value(Boundary(t).value) <= Value(Layout(t, random))
    ensures s < t < 0x1_0000_0000_0000 ==> Value(Layout(s, earlier)) < Value(Boundary(t).value)
  {
    ValueSplits(t, random);
    ValueSplits(t, Zeros(10));
    TailIsLeast(random);
    if s < t < 0x1_0000_0000_0000 {
      TimeOrders(s, t, earlier, Zeros(10));
    }
  }

  /** Only version 7 of the standard's variant is read; the timestamp is the first six octets. */
  lemma ReadExactly(u: Uuid)
    ensures match UuidV7Timestamp(u)
            case Ok(t) => 0x70 <= u[6] < 0x80 && 0x80 <= u[8] < 0xC0 && IntToOctets(t, 6) == u[..6]
            case Err(e) => e == NotVersion7 && !(0x70 <= u[6] < 0x80 && 0x80 <= u[8] < 0xC0)
  {
    OctetsToIntConcat([0, 0], u[0..6]);
    assert [0, 0][..1] == [0] && [0][..0] == [];
    OctetsRoundTrip(u[0..6]);
  }

  /** The two octets of the version and twelve random bits. */
  lemma FieldA(a: Byte, b: Byte)
    ensures IntToOctets(0x7000 + OctetsToInt([a, b]) % 0x1000, 2) == [0x70 + a % 0x10, b]
  {
    OctetsToIntOne(a);
    OctetsToIntAppend([a], b);
    assert [a, b] == [a] + [b];
    ModByDigits(a * 256 + b, 0x10);
    var x := 0x7000 + a % 0x10 * 256 + b;
    assert x / 256 == 0x70 + a % 0x10 && x % 256 == b;
    assert IntToOctets(x / 256, 1) == IntToOctets(x / 256 / 256, 0) + [x / 256 % 256];
    assert IntToOctets(x, 2) == IntToOctets(x / 256, 1) + [x % 256];
  }

  /** The 74 random bits are kept where the standard puts them. */
  lemma RandomBitsReadBack(timestamp: nat, random: Random)
    ensures var u := Layout(timestamp, random);
            && u[6] % 0x10 == random[0] % 0x10 && u[7] == random[1]
            && u[8] % 0x40 == random[2] % 0x40 && u[9..] == random[3..]
  {
    var x := 0x7000 + OctetsToInt(random[..2]) % 0x1000;
    var u, time, fieldA := Layout(timestamp, random), IntToOctets(timestamp, 6), IntToOctets(x, 2);
    FieldA(random[0], random[1]);
    assert random[..2] == [random[0], random[1]];
    assert u[6] == fieldA[0] && u[7] == fieldA[1];
    assert u[8] == 0x80 + random[2] % 0x40 && u[9..] == random[3..];
  }

  lemma SameOctets(u: Uuid, v: Uuid)
    requires u[..6] == v[..6] && u[6] == v[6] && u[7] == v[7] && u[8] == v[8] && u[9..] == v[9..]
    ensures u == v
  {
    assert forall i :: 0 <= i < 6 ==> u[i] == u[..6][i] == v[i];
    assert forall i :: 9 <= i < 16 ==> u[i] == u[9..][i - 9] == v[i];
  }

  /** So the timestamp and these bits make up the whole UUID. */
  lemma EveryVersion7IsMade(u: Uuid)
    requires UuidV7Timestamp(u).Ok?
    ensures Layout(UuidV7Timestamp(u).value, [u[6] % 0x10, u[7], u[8] % 0x40] + u[9..]) == u
  {
    ReadExactly(u);
    var t, random := UuidV7Timestamp(u).value, [u[6] % 0x10, u[7], u[8] % 0x40] + u[9..];
    var made := Layout(t, random);
    LayoutSplits(t, random);
    TimestampReadsBack(t, random);
    RandomBitsReadBack(t, random);
    assert random[3..] == u[9..];
    SameOctets(made, u);
  }
}
