/** What the catalog codec keeps: text, labels and hex exactly, and scaled
    numbers to the nearest step - through floating point as well. */
module CatalogLaws {
  import opened Bytes
  import opened Catalog
  import opened Numerals
  import opened Wrappers

  // --- Text ---

  lemma TextOfBytesOf(text: string)
    requires IsOctetText(text)
    ensures TextOf(BytesOf(text)) == text
  {
  }

  lemma BytesOfTextOf(bytes: seq<byte>)
    ensures BytesOf(TextOf(bytes)) == bytes && IsOctetText(TextOf(bytes))
  {
  }

  /** A string is accepted exactly when it fits the item, and comes back
      unchanged. */
  lemma StringSurvives(fpu: Fpu, item: DataItem, text: string)
    requires item.dataType == StringType && IsOctetText(text)
    ensures var out := Encode(fpu, item, Text(text));
      && (out.Ok? <==> item.length <= 0 || |text| <= item.length)
      && (out.Ok? ==> Decode(fpu, item, out.value) == Ok(Text(text)))
  {
    TextOfBytesOf(text);
  }

  /** Octets read as text and written again are unchanged if they fit, and
      refused if not. */
  lemma StringBytesSurvive(fpu: Fpu, item: DataItem, bytes: seq<byte>)
    requires item.dataType == StringType
    ensures Encode(fpu, item, Decode(fpu, item, bytes).value)
         == if item.length <= 0 || |bytes| <= item.length then Ok(bytes) else Err(TooLong)
  {
    BytesOfTextOf(bytes);
  }

  // --- Hex ---

  /** An accepted hex value comes back without its prefix and in upper case. */
  lemma RawSurvives(fpu: Fpu, item: DataItem, text: string)
    requires item.dataType == RawType
    ensures var out := Encode(fpu, item, Text(text));
      out.Ok? ==> Decode(fpu, item, out.value) == Ok(Text(UpperCased(StripHexPrefix(text))))
  {
    hide HexOctets, HexText, Nibble;
    if Encode(fpu, item, Text(text)).Ok? {
      UpperHexIsCanonical(StripHexPrefix(text));
    }
  }

  lemma EmptyHex()
    ensures HexText([], Upper) == "" && ParsedHex("").None?
  {
  }

  /** Octets read as hex and written again are unchanged, unless there are
      none: the empty text is refused. */
  lemma RawBytesSurvive(fpu: Fpu, item: DataItem, bytes: seq<byte>)
    requires item.dataType == RawType
    ensures Encode(fpu, item, Decode(fpu, item, bytes).value) == if bytes != [] then Ok(bytes) else Err(NotHex)
  {
    hide HexText, HexOctets, HasHexPrefix;
    HexRoundTrip(bytes, Upper);
    if bytes != [] {
      HexTextHasNoPrefix(bytes);
    } else {
      EmptyHex();
    }
  }

  // --- Labels ---

  predicate IsInt32(raw: int) {
    -0x8000_0000 <= raw < 0x8000_0000
  }

  /** No two values share a raw number; labels may repeat and be any text. */
  predicate DistinctRaws(values: seq<EnumValue>) {
    && (forall i :: 0 <= i < |values| ==> IsInt32(values[i].raw))
    && (forall i, j :: 0 <= i < j < |values| ==> values[i].raw != values[j].raw)
  }

  predicate OctetRaws(values: seq<EnumValue>) {
    forall i :: 0 <= i < |values| ==> 0 <= values[i].raw < 0x100
  }

  predicate Lists(values: seq<EnumValue>, text: string) {
    exists i :: 0 <= i < |values| && values[i].text == text
  }

  /** Exactly the listed labels are found, and with the raw number of a value
      that carries them. */
  lemma {:induction false} RawOfLabelIff(values: seq<EnumValue>, text: string)
    ensures RawOfLabel(values, text).Some? <==> Lists(values, text)
    ensures Lists(values, text) ==> EnumValue(RawOfLabel(values, text).value, text) in values
  {
    if values != [] {
      var rest := values[1..];
      assert forall i :: 0 <= i < |rest| ==> rest[i] == values[i + 1];
      RawOfLabelIff(rest, text);
      if values[0].text == text {
        assert values[0] == EnumValue(values[0].raw, text);
      } else if i :| 0 <= i < |values| && values[i].text == text {
        assert rest[i - 1].text == text;
      }
    }
  }

  /** An enum octet string shows the label of the first value whose raw number,
      as an unsigned 64-bit integer, is the big-endian number of the octets, or
      that number's numeral if there is none. */
  lemma EnumShowsFirstMatch(fpu: Fpu, item: DataItem, bytes: seq<byte>)
    requires item.dataType == EnumType
    ensures var raw := NumberOf(bytes, true) % 0x1_0000_0000_0000_0000;
      && (forall i: nat :: FirstWithRaw(item.values, raw, i) ==>
            Decode(fpu, item, bytes) == Ok(Text(item.values[i].text)))
      && ((forall i :: 0 <= i < |item.values| ==> item.values[i].raw % 0x1_0000_0000_0000_0000 != raw) ==>
            Decode(fpu, item, bytes) == Ok(Text(Decimal(raw))))
  {
    hide Decimal, NumberOf;
    FirstRawIsShown(item.values, NumberOf(bytes, true) % 0x1_0000_0000_0000_0000);
  }

  predicate FirstWithRaw(values: seq<EnumValue>, raw: nat, i: nat) {
    && i < |values| && values[i].raw % 0x1_0000_0000_0000_0000 == raw
    && forall j :: 0 <= j < i ==> values[j].raw % 0x1_0000_0000_0000_0000 != raw
  }

  lemma {:induction false} FirstRawIsShown(values: seq<EnumValue>, raw: nat)
    ensures forall i: nat :: FirstWithRaw(values, raw, i) ==> LabelOfRaw(values, raw) == Some(values[i].text)
    ensures (forall i :: 0 <= i < |values| ==> values[i].raw % 0x1_0000_0000_0000_0000 != raw) ==>
      LabelOfRaw(values, raw) == None
  {
    if values != [] {
      FirstRawIsShown(values[1..], raw);
      assert forall i | 0 < i < |values| :: values[1..][i - 1] == values[i];
      forall i: nat | FirstWithRaw(values, raw, i)
        ensures LabelOfRaw(values, raw) == Some(values[i].text)
      {
        if i > 0 {
          assert values[0].raw % 0x1_0000_0000_0000_0000 != raw;
          assert FirstWithRaw(values[1..], raw, i - 1);
        }
      }
    }
  }

  /** A label is written as the lowest octet of the first value that carries
      it. */
  lemma {:induction false} FirstLabelIsWritten(values: seq<EnumValue>, text: string, i: nat)
    requires i < |values| && values[i].text == text && forall j :: 0 <= j < i ==> values[j].text != text
    ensures RawOfLabel(values, text) == Some(values[i].raw)
  {
    if i > 0 {
      assert values[0].text != text;
      FirstLabelIsWritten(values[1..], text, i - 1);
    }
  }

  /** Text is its octets, one a character. */
  lemma TextIsItsOctets(fpu: Fpu, item: DataItem, bytes: seq<byte>)
    requires item.dataType == StringType
    ensures var text := Decode(fpu, item, bytes).value.text;
      |text| == |bytes| && forall i :: 0 <= i < |bytes| ==> text[i] as int == bytes[i]
  {
  }

  /** A float item shows its number, in its own byte order, times its scale;
      any other number of octets than its own is refused. */
  lemma FloatIsScaledNumber(fpu: Fpu, item: DataItem, bytes: seq<byte>)
    requires item.dataType == FloatType
    ensures var raw := NumberOf(bytes, item.encoding.bigEndian) % 0x1_0000_0000_0000_0000;
      Decode(fpu, item, bytes)
        == if |bytes| == item.encoding.bytes then Ok(Number(fpu.mul(fpu.toDouble(raw), item.encoding.scale)))
           else Err(WrongByteCount)
  {
    hide NumberOf;
  }

  lemma {:induction false} LabelOfRawIff(values: seq<EnumValue>, raw: nat, text: string)
    requires DistinctRaws(values) && raw < 0x100
    ensures LabelOfRaw(values, raw) == Some(text) <==> EnumValue(raw, text) in values
    ensures LabelOfRaw(values, raw) == None <==> forall other :: EnumValue(raw, other) !in values
  {
    if values != [] {
      var rest := values[1..];
      assert forall j :: 0 <= j < |rest| ==> rest[j] == values[j + 1];
      LabelOfRawIff(rest, raw, text);
      assert AsUint64(values[0].raw) == raw <==> values[0].raw == raw;
      if values[0].raw == raw {
        assert values[0] == EnumValue(raw, values[0].text);
        assert forall j :: 0 < j < |values| ==> values[j].raw != raw;
      } else {
        assert forall v: EnumValue :: v.raw == raw ==> (v in values <==> v in rest);
      }
    }
  }

  /** The octet written for a listed label. */
  function OctetOf(item: DataItem, text: string): byte {
    match RawOfLabel(item.values, text)
    case Some(raw) => raw % 0x100
    case None => 0
  }

  /** With distinct raw numbers, every listed label is accepted, and nothing
      else is. It is read back as itself exactly when its raw number fits the
      single octet written - or else when the octet that is written instead
      happens to stand for the same label, or for none and the label is that
      octet's numeral. */
  lemma LabelSurvivesIff(fpu: Fpu, item: DataItem, text: string)
    requires item.dataType == EnumType && DistinctRaws(item.values)
    ensures var out := Encode(fpu, item, Text(text));
      && (out.Ok? <==> Lists(item.values, text))
      && (out.Ok? ==>
            var octet := OctetOf(item, text);
            Decode(fpu, item, out.value) == Ok(Text(text)) <==>
              || 0 <= RawOfLabel(item.values, text).value < 0x100
              || EnumValue(octet, text) in item.values
              || ((forall other :: EnumValue(octet, other) !in item.values) && text == Decimal(octet)))
  {
    hide LabelOfRaw, RawOfLabel, Decimal, DistinctRaws, Lists;
    RawOfLabelIff(item.values, text);
    if Lists(item.values, text) {
      var octet := OctetOf(item, text);
      OneOctet(octet);
      LabelOfRawIff(item.values, octet, text);
    }
  }

  lemma OneOctet(octet: byte)
    ensures NumberOf([octet], true) == octet
  {
    assert Reversed([octet]) == [octet] && [octet][1..] == [];
    assert LittleEndianValue([octet]) == octet + 0x100 * LittleEndianValue([]);
  }

  /** Whatever the labels: with distinct raw numbers of one octet each, every
      listed label is accepted and comes back unchanged. */
  lemma LabelSurvives(fpu: Fpu, item: DataItem, text: string)
    requires item.dataType == EnumType && DistinctRaws(item.values) && OctetRaws(item.values)
    requires Lists(item.values, text)
    ensures var out := Encode(fpu, item, Text(text));
      out.Ok? && Decode(fpu, item, out.value) == Ok(Text(text))
  {
    hide LabelOfRaw, RawOfLabel, Encode, Decode, Lists;
    LabelSurvivesIff(fpu, item, text);
    RawOfLabelIff(item.values, text);
  }

  // --- Scaled numbers ---

  /** A number of at most six octets is below 2^48. */
  lemma SixOctets(n: nat)
    requires n <= 6
    ensures Pow256(n) <= 0x1_0000_0000_0000
  {
    assert Pow256(6) == 0x1_0000_0000_0000;
    if n < 6 {
      Pow256Grows(n, 6);
    }
  }

  lemma {:induction false} Pow256Grows(m: nat, n: nat)
    requires m <= n
    ensures Pow256(m) <= Pow256(n)
    decreases n
  {
    if m < n {
      Pow256Grows(m, n - 1);
    }
  }

  /** Scaling up and back down through floating point stays within half a step
      of a raw number below 2^51. */
  lemma ScalingError(raw: real, scale: real, product: real, quotient: real)
    requires 0.0 <= raw <= 2251799813685247.0 && scale != 0.0
    requires Near(product, raw * scale) && Near(quotient, product / scale)
    ensures Abs(raw - quotient) < 0.5
  {
    var u := UNIT_ROUNDOFF;
    var back := product / scale;
    assert Abs(back - raw) <= raw * u by {
      DivideError(product, raw, scale, u);
    }
    assert raw * u <= 0.25 - u;
    assert Abs(back) <= raw + 0.25;
    assert Abs(back) * u <= 0.25 - 0.75 * u;
  }

  lemma DivideError(product: real, raw: real, scale: real, u: real)
    requires scale != 0.0 && raw >= 0.0 && u >= 0.0
    requires Abs(product - raw * scale) <= Abs(raw * scale) * u
    ensures Abs(product / scale - raw) <= raw * u
  {
  }

  predicate IsFloatItem(item: DataItem) {
    item.dataType == FloatType && 1 <= item.encoding.bytes <= 8
  }

  /** Raw numbers below 2^51 - all those of items of up to six octets - survive
      floating point: whatever octets are read, in either order and whatever
      the rounding of the multiply and the divide, writing the decoded number
      back gives those octets - exactly when the scale is not zero or they are
      all zero. */
  lemma FloatSurvivesIff(fpu: Fpu, item: DataItem, bytes: seq<byte>)
    requires Accurate(fpu) && IsFloatItem(item) && |bytes| == item.encoding.bytes
    requires |bytes| <= 6 || NumberOf(bytes, item.encoding.bigEndian) < 0x8_0000_0000_0000
    ensures var raw := NumberOf(bytes, item.encoding.bigEndian);
      var value := Decode(fpu, item, bytes);
      && value.Ok?
      && (Encode(fpu, item, value.value) == Ok(bytes) <==> item.encoding.scale != 0.0 || raw == 0)
  {
    hide LittleEndianValue, LittleEndianBytes, WireOrder, FloatRaw, FloatValue, Accurate, Pow256, MaxRaw;
    var n, big := |bytes|, item.encoding.bigEndian;
    var raw := NumberOf(bytes, big);
    OctetsOfValue(WireOrder(bytes, big));
    WireOrderInvolution(bytes, big);
    if n <= 6 {
      SixOctets(n);
    }
    SmallRawsAreAccepted(fpu, n, raw);
    RawSurvivesScaling(fpu, item, raw);
    if item.encoding.scale == 0.0 {
      SmallRawsAreAccepted(fpu, n, 0);
      ValueOfOctets(0, n);
      WireOrderInvolution(LittleEndianBytes(0, n), big);
    }
  }

  lemma SmallRawsAreAccepted(fpu: Fpu, n: nat, raw: nat)
    requires Accurate(fpu) && 1 <= n <= 8 && raw < 0x8_0000_0000_0000 && raw < Pow256(n)
    ensures raw as real <= fpu.toDouble(MaxRaw(n))
    ensures raw < UINT64_SIZE
  {
    if n <= 6 {
      SixOctets(n);
      SmallIntegersConvert(fpu, MaxRaw(n));
    } else {
      LimitIsNear(fpu, n);
    }
  }

  lemma LimitIsNear(fpu: Fpu, n: nat)
    requires Accurate(fpu) && 7 <= n <= 8
    ensures fpu.toDouble(MaxRaw(n)) >= 2251799813685248.0
  {
    hide Accurate;
    assert MaxRaw(n) >= 0x1_0000_0000_0000_00 - 1 by {
      assert Pow256(7) == 0x1_0000_0000_0000_00;
    }
    ConvertIsNear(fpu, MaxRaw(n));
  }

  lemma ConvertIsNear(fpu: Fpu, n: nat)
    requires Accurate(fpu)
    ensures Near(fpu.toDouble(n), n as real)
  {
  }

  /** A raw number that its conversion to double changes is lost, even with a
      scale of one and no other rounding: above 2^53 items of seven or eight
      octets need not survive. */
  lemma RoundedRawIsLost(fpu: Fpu, item: DataItem, bytes: seq<byte>, rounded: nat)
    requires IsFloatItem(item) && |bytes| == item.encoding.bytes && item.encoding.scale == 1.0
    requires forall x :: fpu.mul(x, 1.0) == x && fpu.div(x, 1.0) == x
    requires var raw := NumberOf(bytes, item.encoding.bigEndian);
      fpu.toDouble(raw) == rounded as real && rounded != raw && rounded < Pow256(|bytes|)
    ensures Encode(fpu, item, Decode(fpu, item, bytes).value) != Ok(bytes)
  {
    hide NumberOf, Pow256, FloatRaw, FloatValue, Encode;
    var n, raw := |bytes|, NumberOf(bytes, item.encoding.bigEndian);
    NumberFits(bytes, item.encoding.bigEndian);
    RawOfRounded(fpu, item, raw, rounded);
    var v := FloatValue(fpu, item, raw);
    if Encode(fpu, item, Number(v)) == Ok(bytes) {
      WrittenNumber(fpu, item, v);
      SmallRemainder(rounded, Pow256(n));
    }
  }

  lemma NumberFits(bytes: seq<byte>, bigEndian: bool)
    requires |bytes| <= 8
    ensures NumberOf(bytes, bigEndian) < UINT64_SIZE
  {
    hide LittleEndianValue, Pow256;
    OctetsOfValue(WireOrder(bytes, bigEndian));
    Pow256Grows(|bytes|, 8);
    assert Pow256(8) == UINT64_SIZE by { EightOctets(8); }
  }

  lemma RawOfRounded(fpu: Fpu, item: DataItem, raw: nat, rounded: nat)
    requires item.encoding.scale == 1.0 && fpu.toDouble(raw) == rounded as real
    requires forall x :: fpu.mul(x, 1.0) == x && fpu.div(x, 1.0) == x
    ensures FloatRaw(fpu, item, FloatValue(fpu, item, raw)) == rounded
  {
    hide Round;
    RoundIff(rounded as real, rounded);
  }

  /** The number written for an accepted value. */
  lemma WrittenNumber(fpu: Fpu, item: DataItem, v: real)
    requires IsFloatItem(item) && Encode(fpu, item, Number(v)).Ok?
    ensures var out := Encode(fpu, item, Number(v)).value;
      && |out| == item.encoding.bytes && FloatRaw(fpu, item, v) >= 0
      && NumberOf(out, item.encoding.bigEndian) == FloatRaw(fpu, item, v) % Pow256(item.encoding.bytes)
  {
    hide LittleEndianBytes, LittleEndianValue, WireOrder, Pow256, FloatRaw;
    var n, big, raw := item.encoding.bytes, item.encoding.bigEndian, FloatRaw(fpu, item, v);
    ValueOfOctets(raw, n);
    WireOrderInvolution(LittleEndianBytes(raw, n), big);
  }

  lemma SmallIntegersConvert(fpu: Fpu, n: nat)
    requires Accurate(fpu) && n < 0x8_0000_0000_0000
    ensures fpu.toDouble(n) == n as real
  {
  }

  lemma MultiplyIsNear(fpu: Fpu, x: real, y: real)
    requires Accurate(fpu)
    ensures Near(fpu.mul(x, y), x * y)
  {
    assert MultipliesNearly(fpu, x, y);
  }

  lemma DivideIsNear(fpu: Fpu, x: real, y: real)
    requires Accurate(fpu) && y != 0.0
    ensures Near(fpu.div(x, y), x / y)
  {
    assert DividesNearly(fpu, x, y);
  }

  /** A raw number scaled up and back down, then rounded, is itself; with a
      zero scale it is zero. */
  lemma RawSurvivesScaling(fpu: Fpu, item: DataItem, raw: nat)
    requires Accurate(fpu) && raw < 0x8_0000_0000_0000
    ensures FloatRaw(fpu, item, FloatValue(fpu, item, raw)) == if item.encoding.scale != 0.0 then raw else 0
  {
    hide Round, Accurate, Near, Abs;
    var scale := item.encoding.scale;
    SmallIntegersConvert(fpu, raw);
    var product := fpu.mul(raw as real, scale);
    if scale != 0.0 {
      ScalesBack(fpu, raw as real, scale);
      RoundIff(fpu.div(product, scale), raw);
    } else {
      MultiplyIsNear(fpu, raw as real, scale);
      ZeroScale(product, raw);
      RoundsToZero();
    }
  }

  lemma RoundsToZero()
    ensures Round(0.0) == 0
  {
  }

  lemma ScalesBack(fpu: Fpu, raw: real, scale: real)
    requires Accurate(fpu) && 0.0 <= raw <= 2251799813685247.0 && scale != 0.0
    ensures Abs(raw - fpu.div(fpu.mul(raw, scale), scale)) < 0.5
  {
    hide Accurate;
    MultiplyIsNear(fpu, raw, scale);
    DivideIsNear(fpu, fpu.mul(raw, scale), scale);
    ScalingError(raw, scale, fpu.mul(raw, scale), fpu.div(fpu.mul(raw, scale), scale));
  }

  lemma ZeroScale(product: real, raw: nat)
    requires Near(product, raw as real * 0.0)
    ensures product == 0.0
  {
  }

  /** A number is accepted exactly when its quotient is within half a step of
      the raw numbers up to the limit, as far as that is converted. */
  lemma FloatAcceptsIff(fpu: Fpu, item: DataItem, v: real)
    requires IsFloatItem(item)
    ensures Encode(fpu, item, Number(v)).Ok?
       <==> -0.5 < Quotient(fpu, item, v) < fpu.toDouble(MaxRaw(item.encoding.bytes)).Floor as real + 0.5
  {
    hide LittleEndianBytes, WireOrder, Round, MaxRaw, Quotient;
    var q, limit := Quotient(fpu, item, v), fpu.toDouble(MaxRaw(item.encoding.bytes)).Floor;
    if limit >= 0 {
      RoundIff(q, limit);
    } else {
      RoundIff(q, 0);
    }
  }

  /** The limit converts exactly up to six octets, and in exact arithmetic. */
  lemma LimitConvertsExactly(fpu: Fpu, n: nat)
    requires 1 <= n <= 8 && (fpu == ExactFpu() || (Accurate(fpu) && n <= 6))
    ensures fpu.toDouble(MaxRaw(n)) == MaxRaw(n) as real
  {
    hide Accurate;
    if n <= 6 && Accurate(fpu) {
      SixOctets(n);
      SmallIntegersConvert(fpu, MaxRaw(n));
    }
  }

  /** An accepted number comes back as the value of the raw number it was
      rounded to, as far as the item's octets hold it. */
  lemma FloatComesBack(fpu: Fpu, item: DataItem, v: real)
    requires IsFloatItem(item) && Encode(fpu, item, Number(v)).Ok?
    ensures FloatRaw(fpu, item, v) >= 0
    ensures Decode(fpu, item, Encode(fpu, item, Number(v)).value)
         == Ok(Number(FloatValue(fpu, item, FloatRaw(fpu, item, v) % Pow256(item.encoding.bytes))))
  {
    hide NumberOf, Encode, Pow256, FloatRaw, FloatValue;
    WrittenNumber(fpu, item, v);
    EightOctets(item.encoding.bytes);
  }

  /** An item holds the raw numbers it accepts if its converted limit is below
      256^n. */
  lemma AcceptedRawFits(fpu: Fpu, item: DataItem, v: real)
    requires IsFloatItem(item) && Encode(fpu, item, Number(v)).Ok?
    requires fpu.toDouble(MaxRaw(item.encoding.bytes)) < Pow256(item.encoding.bytes) as real
    ensures 0 <= FloatRaw(fpu, item, v) < Pow256(item.encoding.bytes)
  {
    hide FloatRaw, LittleEndianBytes, WireOrder, MaxRaw, Pow256;
  }

  /** As it is up to six octets, and in exact arithmetic. */
  lemma LimitIsBelow(fpu: Fpu, n: nat)
    requires 1 <= n <= 8 && (fpu == ExactFpu() || (Accurate(fpu) && n <= 6))
    ensures fpu.toDouble(MaxRaw(n)) < Pow256(n) as real
  {
    hide Accurate, MaxRaw, Pow256;
    LimitConvertsExactly(fpu, n);
    EightOctets(n);
  }

  /** Where the limit is rounded up to 256^n, as doubles do for seven and eight
      octets, that number is accepted, and written as all zeros. */
  lemma LimitLetsOneThrough(fpu: Fpu, item: DataItem)
    requires IsFloatItem(item) && item.encoding.scale == 1.0
    requires var top := Pow256(item.encoding.bytes) as real;
      fpu.toDouble(MaxRaw(item.encoding.bytes)) >= top && fpu.div(top, 1.0) == top
    ensures var top := Pow256(item.encoding.bytes) as real;
      && Encode(fpu, item, Number(top)).Ok?
      && FloatRaw(fpu, item, top) == Pow256(item.encoding.bytes)
      && Decode(fpu, item, Encode(fpu, item, Number(top)).value) == Ok(Number(FloatValue(fpu, item, 0)))
  {
    hide LittleEndianBytes, WireOrder, MaxRaw, Pow256, Round;
    RoundIff(Pow256(item.encoding.bytes) as real, Pow256(item.encoding.bytes));
    FloatComesBack(fpu, item, Pow256(item.encoding.bytes) as real);
  }

  /** So an item holds everything it accepts exactly if its converted limit is
      below 256^n. */
  lemma AcceptedRawsFitIff(fpu: Fpu, item: DataItem)
    requires IsFloatItem(item) && item.encoding.scale == 1.0
    requires forall x :: fpu.div(x, 1.0) == x
    ensures (forall v :: Encode(fpu, item, Number(v)).Ok? ==> FloatRaw(fpu, item, v) < Pow256(item.encoding.bytes))
       <==> fpu.toDouble(MaxRaw(item.encoding.bytes)) < Pow256(item.encoding.bytes) as real
  {
    hide Encode, FloatRaw, MaxRaw, Pow256;
    if fpu.toDouble(MaxRaw(item.encoding.bytes)) < Pow256(item.encoding.bytes) as real {
      forall v | Encode(fpu, item, Number(v)).Ok?
        ensures FloatRaw(fpu, item, v) < Pow256(item.encoding.bytes)
      {
        AcceptedRawFits(fpu, item, v);
      }
    } else {
      LimitLetsOneThrough(fpu, item);
    }
  }

  /** Exact arithmetic is accurate. */
  lemma ExactFpuIsAccurate()
    ensures Accurate(ExactFpu())
  {
    hide MultipliesNearly, DividesNearly;
    forall x, y
      ensures MultipliesNearly(ExactFpu(), x, y) && (y != 0.0 ==> DividesNearly(ExactFpu(), x, y))
    {
      ExactIsNear(x, y);
    }
  }

  lemma ExactIsNear(x: real, y: real)
    ensures MultipliesNearly(ExactFpu(), x, y)
    ensures y != 0.0 ==> DividesNearly(ExactFpu(), x, y)
  {
  }

  /** Through floating point, in items of up to six octets, an accepted number
      comes back within six tenths of a step of itself. */
  lemma FloatComesBackClose(fpu: Fpu, item: DataItem, v: real)
    requires Accurate(fpu) && IsFloatItem(item) && item.encoding.bytes <= 6 && item.encoding.scale != 0.0
    requires Encode(fpu, item, Number(v)).Ok?
    ensures var back := Decode(fpu, item, Encode(fpu, item, Number(v)).value);
      && back.Ok? && back.value.Number?
      && Abs(back.value.number - v) <= Abs(item.encoding.scale) * 0.6
  {
    hide Accurate, Encode, Decode, Pow256, Abs, FloatRaw, FloatValue;
    var raw := FloatRaw(fpu, item, v);
    FloatComesBack(fpu, item, v);
    LimitIsBelow(fpu, item.encoding.bytes);
    AcceptedRawFits(fpu, item, v);
    SixOctets(item.encoding.bytes);
    SmallRemainder(raw, Pow256(item.encoding.bytes));
    RoundedStepError(fpu, item, v);
  }

  lemma SmallRemainder(v: nat, d: nat)
    requires v < d
    ensures v % d == v
  {
  }

  /** A number, rounded to a raw number below 2^48 and scaled up again. */
  lemma RoundedStepError(fpu: Fpu, item: DataItem, v: real)
    requires Accurate(fpu) && item.encoding.scale != 0.0 && 0 <= FloatRaw(fpu, item, v) < 0x1_0000_0000_0000
    ensures Abs(FloatValue(fpu, item, FloatRaw(fpu, item, v)) - v) <= Abs(item.encoding.scale) * 0.6
  {
    hide Accurate, Round, Abs;
    var scale := item.encoding.scale;
    var raw := FloatRaw(fpu, item, v);
    var quotient := fpu.div(v, scale);
    SmallIntegersConvert(fpu, raw);
    DivideIsNear(fpu, v, scale);
    RoundIff(quotient, raw);
    CloseQuotient(raw as real, v / scale, quotient);
    CloseProduct(fpu, raw as real, v, scale);
  }

  lemma CloseQuotient(raw: real, exact: real, computed: real)
    requires 0.0 <= raw <= 281474976710656.0
    requires Near(computed, exact) && Abs(raw - computed) <= 0.5
    ensures Abs(raw - exact) <= 0.5625
  {
    var u := UNIT_ROUNDOFF;
    assert Abs(exact) * u <= Abs(exact) * 0.25;
    assert Abs(exact) <= 562949953421312.0;
    assert Abs(exact) * u <= 0.0625;
  }

  lemma CloseProduct(fpu: Fpu, raw: real, v: real, scale: real)
    requires Accurate(fpu) && scale != 0.0 && 0.0 <= raw <= 281474976710656.0
    requires Abs(raw - v / scale) <= 0.5625
    ensures Abs(fpu.mul(raw, scale) - v) <= Abs(scale) * 0.6
  {
    hide Abs, Accurate;
    var s := Abs(scale);
    AbsNotNegative(scale);
    var steps := raw - v / scale;
    StepsApart(raw, v, scale, steps);
    TimesMonotone(Abs(steps), 0.5625, s);
    MultiplyIsNear(fpu, raw, scale);
    RoundedProduct(raw, scale, fpu.mul(raw, scale));
    Triangle(fpu.mul(raw, scale), raw * scale, v);
  }

  lemma StepsApart(raw: real, v: real, scale: real, steps: real)
    requires scale != 0.0 && steps == raw - v / scale
    ensures Abs(raw * scale - v) == Abs(steps) * Abs(scale)
  {
    assert v == v / scale * scale;
    assert raw * scale - v == steps * scale;
  }

  lemma RoundedProduct(raw: real, scale: real, product: real)
    requires 0.0 <= raw <= 281474976710656.0 && Near(product, raw * scale)
    ensures Abs(product - raw * scale) <= Abs(scale) * 0.03125
  {
    hide Abs;
    AbsNotNegative(scale);
    AbsOfProduct(raw, scale);
    assert Abs(raw) == raw by { AbsOfPositive(raw); }
    TimesMonotone(raw, 281474976710656.0, Abs(scale));
    assert Abs(raw * scale) * UNIT_ROUNDOFF <= 281474976710656.0 * Abs(scale) * UNIT_ROUNDOFF;
  }

  lemma AbsOfPositive(x: real)
    requires x >= 0.0
    ensures Abs(x) == x
  {
  }

  lemma Triangle(x: real, y: real, z: real)
    ensures Abs(x - z) <= Abs(x - y) + Abs(y - z)
  {
  }

  lemma AbsOfProduct(x: real, y: real)
    ensures Abs(x * y) == Abs(x) * Abs(y)
  {
  }

  /** In exact arithmetic an accepted number comes back within half a step of
      itself, and the value of no other raw number is nearer. */
  lemma FloatComesBackNearest(item: DataItem, v: real, other: nat)
    requires IsFloatItem(item) && item.encoding.scale != 0.0
    requires Encode(ExactFpu(), item, Number(v)).Ok?
    ensures var back := Decode(ExactFpu(), item, Encode(ExactFpu(), item, Number(v)).value);
      && back.Ok? && back.value.Number?
      && Abs(back.value.number - v) <= Abs(item.encoding.scale) / 2.0
      && Abs(back.value.number - v) <= Abs(FloatValue(ExactFpu(), item, other) - v)
  {
    hide Decode, Encode, FloatValue, FloatRaw, ExactFpu, Abs, Pow256, MaxRaw;
    ExactRawFits(item, v);
    EightOctets(item.encoding.bytes);
    FloatComesBack(ExactFpu(), item, v);
    SmallRemainder(FloatRaw(ExactFpu(), item, v), Pow256(item.encoding.bytes));
    NearestStep(item, v, other);
  }

  lemma ExactRawFits(item: DataItem, v: real)
    requires IsFloatItem(item) && Encode(ExactFpu(), item, Number(v)).Ok?
    ensures FloatRaw(ExactFpu(), item, v) <= MaxRaw(item.encoding.bytes)
    ensures FloatRaw(ExactFpu(), item, v) >= 0
  {
  }

  /** The distance from a number to raw number n, counted in steps. */
  function StepsTo(item: DataItem, v: real, n: int): real
    requires item.encoding.scale != 0.0
  {
    Abs(n as real - v / item.encoding.scale)
  }

  lemma NearestStep(item: DataItem, v: real, other: nat)
    requires item.encoding.scale != 0.0 && FloatRaw(ExactFpu(), item, v) >= 0
    ensures var back := FloatValue(ExactFpu(), item, FloatRaw(ExactFpu(), item, v));
      && Abs(back - v) <= Abs(item.encoding.scale) / 2.0
      && Abs(back - v) <= Abs(FloatValue(ExactFpu(), item, other) - v)
  {
    hide FloatValue, FloatRaw, ExactFpu, Abs, StepsTo;
    var raw := FloatRaw(ExactFpu(), item, v);
    NearestInteger(item, v, other);
    StepDistance(item, v, raw);
    StepDistance(item, v, other);
    AbsNotNegative(item.encoding.scale);
    TimesMonotone(StepsTo(item, v, raw), 0.5, Abs(item.encoding.scale));
    TimesMonotone(StepsTo(item, v, raw), StepsTo(item, v, other), Abs(item.encoding.scale));
  }

  lemma AbsNotNegative(x: real)
    ensures Abs(x) >= 0.0
  {
  }

  lemma NearestInteger(item: DataItem, v: real, other: nat)
    requires item.encoding.scale != 0.0 && FloatRaw(ExactFpu(), item, v) >= 0
    ensures var raw := FloatRaw(ExactFpu(), item, v);
      StepsTo(item, v, raw) <= 0.5 && StepsTo(item, v, raw) <= StepsTo(item, v, other)
  {
    var q := v / item.encoding.scale;
    ExactRaw(item, v);
    IntegerNearest(Round(q), q, other);
  }

  lemma ExactRaw(item: DataItem, v: real)
    requires item.encoding.scale != 0.0
    ensures FloatRaw(ExactFpu(), item, v) == Round(v / item.encoding.scale)
  {
  }

  lemma IntegerNearest(raw: int, q: real, other: nat)
    requires raw == Round(q) >= 0
    ensures Abs(raw as real - q) <= 0.5 && Abs(raw as real - q) <= Abs(other as real - q)
  {
    RoundIff(q, raw);
    if other > raw {
      assert other as real >= raw as real + 1.0;
    } else if other < raw {
      assert other as real <= raw as real - 1.0;
    }
  }

  lemma StepDistance(item: DataItem, v: real, n: nat)
    requires item.encoding.scale != 0.0
    ensures Abs(FloatValue(ExactFpu(), item, n) - v) == StepsTo(item, v, n) * Abs(item.encoding.scale)
  {
  }

  lemma TimesMonotone(x: real, y: real, s: real)
    requires x <= y && s >= 0.0
    ensures x * s <= y * s
  {
  }

  lemma EightOctets(n: nat)
    requires 1 <= n <= 8
    ensures MaxRaw(n) < Pow256(n) <= UINT64_SIZE
  {
    assert Pow256(8) == UINT64_SIZE;
    Pow256Grows(n, 8);
  }
}
