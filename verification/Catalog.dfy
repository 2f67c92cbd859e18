/** The DID catalog's value codec: a typed value to the octets of a data item
    and back. Text, labels and hex are exact; scaled numbers go through
    floating point. */
module Catalog {
  import opened Bytes
  import opened Numerals
  import opened Wrappers

  datatype DataType = StringType | FloatType | EnumType | RawType

  datatype Access = Read | Write | ReadWrite

  /** bytes is 1 to 8 for a float item. */
  datatype Encoding = Encoding(bytes: int, bigEndian: bool, scale: real)

  datatype EnumValue = EnumValue(raw: int, text: string)

  datatype DataItem = DataItem(
    id: string,
    did: u16,
    dataType: DataType,
    access: Access,
    ioControl: bool,
    requiresSession: Option<string>,
    requiresSecurityLevel: Option<int>,
    length: int,
    encoding: Encoding,
    values: seq<EnumValue>)

  datatype Value = Text(text: string) | Number(number: real)

  datatype CatalogError =
    | WrongAlternative
    | WrongByteCount
    | TooLong
    | OutOfRange
    | UnknownLabel
    | NotHex

  // --- Integers as octets ---

  const UINT64_SIZE := 0x1_0000_0000_0000_0000

  /** The integer whose octets these are, least significant first. */
  function LittleEndianValue(bytes: seq<byte>): nat {
    if bytes == [] then 0 else bytes[0] + 0x100 * LittleEndianValue(bytes[1..])
  }

  function Reversed(bytes: seq<byte>): (r: seq<byte>)
    ensures |r| == |bytes|
    ensures forall i :: 0 <= i < |r| ==> r[i] == bytes[|bytes| - 1 - i]
  {
    seq(|bytes|, i requires 0 <= i < |bytes| => bytes[|bytes| - 1 - i])
  }

  /** The octets of a number in wire order, least significant first. */
  function WireOrder(bytes: seq<byte>, bigEndian: bool): (r: seq<byte>)
    ensures |r| == |bytes|
  {
    if bigEndian then Reversed(bytes) else bytes
  }

  lemma WireOrderInvolution(bytes: seq<byte>, bigEndian: bool)
    ensures WireOrder(WireOrder(bytes, bigEndian), bigEndian) == bytes
  {
  }

  function NumberOf(bytes: seq<byte>, bigEndian: bool): nat {
    LittleEndianValue(WireOrder(bytes, bigEndian))
  }

  /** Big-endian, an octet more at the end is the least significant. */
  lemma NumberOfBigEndian(bytes: seq<byte>, b: byte)
    ensures NumberOf([], true) == 0
    ensures NumberOf(bytes + [b], true) == 0x100 * NumberOf(bytes, true) + b
  {
    var r := Reversed(bytes + [b]);
    assert r == [b] + Reversed(bytes);
    assert r[1..] == Reversed(bytes);
    assert Reversed([]) == [];
  }

  /** Little-endian, one more at the start is. */
  lemma NumberOfLittleEndian(b: byte, bytes: seq<byte>)
    ensures NumberOf([], false) == 0
    ensures NumberOf([b] + bytes, false) == b + 0x100 * NumberOf(bytes, false)
  {
    assert ([b] + bytes)[1..] == bytes;
  }

  /** The shift-and-or accumulation of a 64-bit integer. */
  method BytesToUint(bytes: seq<byte>, bigEndian: bool) returns (value: nat)
    ensures value == NumberOf(bytes, bigEndian) % UINT64_SIZE
  {
    var order := WireOrder(bytes, bigEndian);
    value := 0;
    var i := |bytes|;
    assert order[i..] == [];
    while i > 0
      invariant 0 <= i <= |bytes|
      invariant value == LittleEndianValue(order[i..]) % UINT64_SIZE
    {
      i := i - 1;
      var next := if bigEndian then bytes[|bytes| - 1 - i] else bytes[i];
      assert order[i..][0] == next && order[i..][1..] == order[i + 1..];
      ShiftedIn(LittleEndianValue(order[i + 1..]), next);
      value := value * 0x100 % UINT64_SIZE + next;
    }
    assert order[0..] == order;
  }

  lemma ShiftedIn(v: nat, b: byte)
    ensures (v % UINT64_SIZE) * 0x100 % UINT64_SIZE + b == (b + 0x100 * v) % UINT64_SIZE
  {
    var part := UINT64_SIZE / 0x100;
    var q, r := v / UINT64_SIZE, v % UINT64_SIZE;
    var over, low := r / part, 0x100 * (r % part);
    Remainder(r * 0x100, over, low);
    Remainder(b + 0x100 * v, 0x100 * q + over, low + b);
  }

  lemma Remainder(x: int, q: int, r: int)
    requires x == q * UINT64_SIZE + r && 0 <= r < UINT64_SIZE
    ensures x % UINT64_SIZE == r
  {
  }

  /** A right shift by k octets. */
  function ShiftRight(v: nat, k: nat): nat {
    if k == 0 then v else ShiftRight(v / 0x100, k - 1)
  }

  function LittleEndianBytes(v: nat, n: nat): (r: seq<byte>)
    ensures |r| == n
  {
    if n == 0 then [] else [v % 0x100] + LittleEndianBytes(v / 0x100, n - 1)
  }

  lemma {:induction false} LittleEndianDigit(v: nat, n: nat, k: nat)
    requires k < n
    ensures LittleEndianBytes(v, n)[k] == ShiftRight(v, k) % 0x100
  {
    if k > 0 {
      LittleEndianDigit(v / 0x100, n - 1, k - 1);
    }
  }

  function Pow256(n: nat): (p: nat)
    ensures p >= 1
  {
    if n == 0 then 1 else 0x100 * Pow256(n - 1)
  }

  lemma {:induction false} ShiftIsQuotient(v: nat, k: nat)
    ensures ShiftRight(v, k) == v / Pow256(k)
  {
    if k > 0 {
      ShiftIsQuotient(v / 0x100, k - 1);
      QuotientOfQuotient(v, Pow256(k - 1));
    }
  }

  lemma QuotientOfQuotient(v: nat, p: nat)
    requires p >= 1
    ensures v / 0x100 / p == v / (0x100 * p)
  {
    var high := v / 0x100;
    var q := high / p;
    var r := 0x100 * (high % p) + v % 0x100;
    assert high == q * p + high % p;
    assert v == 0x100 * (q * p) + r;
    assert 0x100 * (q * p) == q * (0x100 * p);
    QuotientIs(v, 0x100 * p, q, r);
  }

  lemma QuotientIs(v: nat, d: nat, q: nat, r: nat)
    requires d >= 1 && v == q * d + r && r < d
    ensures v / d == q
  {
    var k := v / d - q;
    assert v == v / d * d + v % d;
    assert k * d == r - v % d;
    MultiplesApart(k, d);
  }

  /** Octet j of the output, by its place: the most significant comes first
      when big-endian, last when not. */
  method UintToBytes(v: nat, n: nat, bigEndian: bool) returns (out: seq<byte>)
    ensures out == WireOrder(LittleEndianBytes(v, n), bigEndian)
    ensures |out| == n
    ensures forall j :: 0 <= j < n ==> out[j] == v / Pow256(if bigEndian then n - 1 - j else j) % 0x100
  {
    var buf := new byte[n];
    for i := 0 to n
      invariant forall j :: 0 <= j < i ==> buf[j] == ShiftRight(v, if bigEndian then n - 1 - j else j) % 0x100
    {
      var shift := if bigEndian then n - 1 - i else i;
      buf[i] := ShiftRight(v, shift) % 0x100;
    }
    out := buf[..];
    forall j | 0 <= j < n
      ensures out[j] == WireOrder(LittleEndianBytes(v, n), bigEndian)[j]
    {
      LittleEndianDigit(v, n, if bigEndian then n - 1 - j else j);
    }
    forall j | 0 <= j < n
      ensures out[j] == v / Pow256(if bigEndian then n - 1 - j else j) % 0x100
    {
      ShiftIsQuotient(v, if bigEndian then n - 1 - j else j);
    }
  }

  /** Octets and numbers determine each other, within n octets. */
  lemma {:induction false} OctetsOfValue(bytes: seq<byte>)
    ensures LittleEndianBytes(LittleEndianValue(bytes), |bytes|) == bytes
    ensures LittleEndianValue(bytes) < Pow256(|bytes|)
  {
    if bytes != [] {
      OctetsOfValue(bytes[1..]);
      var v := LittleEndianValue(bytes);
      assert v / 0x100 == LittleEndianValue(bytes[1..]) && v % 0x100 == bytes[0];
      assert bytes == [bytes[0]] + bytes[1..];
    }
  }

  /** n octets keep a number modulo 256^n. */
  lemma {:induction false} ValueOfOctets(v: nat, n: nat)
    ensures LittleEndianValue(LittleEndianBytes(v, n)) == v % Pow256(n)
  {
    if n > 0 {
      ValueOfOctets(v / 0x100, n - 1);
      assert LittleEndianBytes(v, n)[1..] == LittleEndianBytes(v / 0x100, n - 1);
      RemainderByOctet(v, Pow256(n - 1));
    }
  }

  lemma RemainderByOctet(v: nat, p: nat)
    requires p >= 1
    ensures v % (0x100 * p) == v % 0x100 + 0x100 * (v / 0x100 % p)
  {
    var high := v / 0x100;
    var q, r := high / p, high % p;
    var low := v % 0x100 + 0x100 * r;
    assert v == 0x100 * (q * p + r) + v % 0x100;
    assert 0x100 * (q * p) == q * (0x100 * p);
    QuotientIsUnique(v, 0x100 * p, q, low);
  }

  lemma QuotientIsUnique(v: nat, d: nat, q: nat, r: nat)
    requires d >= 1 && v == q * d + r && r < d
    ensures v % d == r
  {
    var k := v / d - q;
    assert v == v / d * d + v % d;
    assert k * d == r - v % d;
    MultiplesApart(k, d);
  }

  lemma MultiplesApart(k: int, d: nat)
    ensures k >= 1 ==> k * d >= d
    ensures k <= -1 ==> k * d <= -(d as int)
  {
  }

  // --- Floating point ---

  /** Double arithmetic, with no assumption on how it rounds. */
  datatype Fpu = Fpu(toDouble: nat -> real, mul: (real, real) -> real, div: (real, real) -> real)

  const UNIT_ROUNDOFF: real := 1.0 / 9007199254740992.0  // 2^-53
  const EXACT_INTEGERS := 9007199254740992               // 2^53

  function Abs(x: real): real {
    if x < 0.0 then -x else x
  }

  predicate Near(computed: real, exact: real) {
    Abs(computed - exact) <= Abs(exact) * UNIT_ROUNDOFF
  }

  /** Every operation is off by a relative error of at most 2^-53, and small
      integers convert exactly: what IEEE 754 doubles give short of overflow
      and underflow. */
  ghost predicate Accurate(fpu: Fpu) {
    && (forall n: nat :: n <= EXACT_INTEGERS ==> fpu.toDouble(n) == n as real)
    && (forall n: nat :: Near(fpu.toDouble(n), n as real))
    && (forall x, y :: MultipliesNearly(fpu, x, y))
    && (forall x, y :: y != 0.0 ==> DividesNearly(fpu, x, y))
  }

  predicate MultipliesNearly(fpu: Fpu, x: real, y: real) {
    Near(fpu.mul(x, y), x * y)
  }

  predicate DividesNearly(fpu: Fpu, x: real, y: real)
    requires y != 0.0
  {
    Near(fpu.div(x, y), x / y)
  }

  function ExactFpu(): Fpu {
    Fpu(n => n as real, (x, y) => x * y, (x, y) => if y == 0.0 then 0.0 else x / y)
  }

  /** Halves are rounded away from zero. */
  function Round(x: real): int {
    if x >= 0.0 then (x + 0.5).Floor else -((0.5 - x).Floor)
  }

  lemma RoundIff(x: real, n: int)
    requires n >= 0
    ensures Round(x) == n ==> Abs(n as real - x) <= 0.5
    ensures Abs(n as real - x) < 0.5 ==> Round(x) == n
    ensures Round(x) <= n <==> x < n as real + 0.5
    ensures Round(x) >= 0 <==> x > -0.5
  {
  }

  /** The largest raw number of an n octet item. */
  function MaxRaw(n: int): nat
    requires n >= 0
  {
    if n >= 8 then UINT64_SIZE - 1 else Pow256(n) - 1
  }

  // --- The codec ---

  function BytesOf(text: string): (r: seq<byte>)
    ensures |r| == |text|
  {
    seq(|text|, i requires 0 <= i < |text| => text[i] as int % 0x100)
  }

  function TextOf(bytes: seq<byte>): (r: string)
    ensures |r| == |bytes|
  {
    seq(|bytes|, i requires 0 <= i < |bytes| => bytes[i] as char)
  }

  /** Text as the server holds it: one octet a character. */
  predicate IsOctetText(text: string) {
    forall i :: 0 <= i < |text| ==> text[i] as int < 0x100
  }

  /** An int widened to an unsigned 64-bit integer. */
  function AsUint64(raw: int): nat {
    raw % UINT64_SIZE
  }

  function LabelOfRaw(values: seq<EnumValue>, raw: nat): Option<string> {
    if values == [] then None
    else if AsUint64(values[0].raw) == raw then Some(values[0].text)
    else LabelOfRaw(values[1..], raw)
  }

  function RawOfLabel(values: seq<EnumValue>, text: string): Option<int> {
    if values == [] then None
    else if values[0].text == text then Some(values[0].raw)
    else RawOfLabel(values[1..], text)
  }

  /** A value in steps of the scale, which counts as one when it is zero. */
  function Quotient(fpu: Fpu, item: DataItem, v: real): real {
    if item.encoding.scale != 0.0 then fpu.div(v, item.encoding.scale) else v
  }

  /** The raw number a value of a float item stands for. */
  function FloatRaw(fpu: Fpu, item: DataItem, v: real): int {
    Round(Quotient(fpu, item, v))
  }

  /** The value a raw number of a float item stands for. */
  function FloatValue(fpu: Fpu, item: DataItem, raw: nat): real {
    fpu.mul(fpu.toDouble(raw), item.encoding.scale)
  }

  function Decode(fpu: Fpu, item: DataItem, bytes: seq<byte>): Result<Value, CatalogError> {
    match item.dataType
    case StringType => Ok(Text(TextOf(bytes)))
    case FloatType =>
      if |bytes| != item.encoding.bytes then Err(WrongByteCount)
      else
        Ok(Number(FloatValue(fpu, item, NumberOf(bytes, item.encoding.bigEndian) % UINT64_SIZE)))
    case EnumType =>
      var raw := NumberOf(bytes, true) % UINT64_SIZE;
      (match LabelOfRaw(item.values, raw)
       case Some(text) => Ok(Text(text))
       case None => Ok(Text(Decimal(raw))))
    case RawType => Ok(Text(HexText(bytes, Upper)))
  }

  function Encode(fpu: Fpu, item: DataItem, value: Value): Result<seq<byte>, CatalogError>
    requires item.dataType == FloatType ==> 1 <= item.encoding.bytes <= 8
  {
    match item.dataType
    case StringType =>
      if !value.Text? then Err(WrongAlternative)
      else if item.length > 0 && |value.text| > item.length then Err(TooLong)
      else Ok(BytesOf(value.text))
    case FloatType =>
      if !value.Number? then Err(WrongAlternative)
      else
        var raw := FloatRaw(fpu, item, value.number);
        if raw < 0 || raw as real > fpu.toDouble(MaxRaw(item.encoding.bytes)) then Err(OutOfRange)
        else Ok(WireOrder(LittleEndianBytes(raw, item.encoding.bytes), item.encoding.bigEndian))
    case EnumType =>
      if !value.Text? then Err(WrongAlternative)
      else (match RawOfLabel(item.values, value.text)
            case Some(raw) => Ok([raw % 0x100])
            case None => Err(UnknownLabel))
    case RawType =>
      if !value.Text? then Err(WrongAlternative)
      else (match ParsedHex(value.text)
            case Some(bytes) => Ok(bytes)
            case None => Err(NotHex))
  }
}
