/** UDS (ISO 14229-1:2013) requests and responses, byte for byte.

    Each decoder is pinned by the exact set of responses it accepts; the DTC
    decoder is shown to lose nothing of a response. */
module UdsServices {
  import opened Bytes
  import opened Numerals
  import opened Wrappers

  const SID_READ_DATA_BY_IDENTIFIER: byte := 0x22
  const SID_WRITE_DATA_BY_IDENTIFIER: byte := 0x2E
  const SID_IO_CONTROL: byte := 0x2F
  const SID_READ_DTC_INFORMATION: byte := 0x19
  const SID_DIAGNOSTIC_SESSION_CONTROL: byte := 0x10
  const SID_TESTER_PRESENT: byte := 0x3E
  const SID_SECURITY_ACCESS: byte := 0x27
  const SUB_REPORT_DTC_BY_STATUS_MASK: byte := 0x02
  const SHORT_TERM_ADJUSTMENT: byte := 0x03
  const NEGATIVE_RESPONSE: byte := 0x7F
  const RESPONSE_PENDING: byte := 0x78

  /** The negative response code, when this is a negative response. */
  function NegativeCode(response: seq<byte>): Option<byte> {
    if |response| < 3 || response[0] != NEGATIVE_RESPONSE then None else Some(response[2])
  }

  predicate IsPending(response: seq<byte>) {
    NegativeCode(response) == Some(RESPONSE_PENDING)
  }

  // --- ReadDataByIdentifier, WriteDataByIdentifier, InputOutputControl ---

  function EncodeRead(did: u16): seq<byte> {
    [SID_READ_DATA_BY_IDENTIFIER] + BigEndian16(did)
  }

  function DecodeRead(response: seq<byte>, did: u16): Option<seq<byte>> {
    if |response| < 3 || response[0] != SID_READ_DATA_BY_IDENTIFIER + 0x40 then None
    else if ReadU16(response[1..]) != did then None
    else Some(response[3..])
  }

  function EncodeWrite(did: u16, data: seq<byte>): seq<byte> {
    [SID_WRITE_DATA_BY_IDENTIFIER] + BigEndian16(did) + data
  }

  function EncodeIoControl(did: u16, control: byte, data: seq<byte>): seq<byte> {
    [SID_IO_CONTROL] + BigEndian16(did) + [control] + data
  }

  /** The response echoes the service and the identifier; what follows is not
      looked at. */
  predicate Echoes(response: seq<byte>, sid: byte, did: u16)
    requires sid < 0xC0
  {
    |response| >= 3 && response[0] == sid + 0x40 && ReadU16(response[1..]) == did
  }

  predicate DecodeWrite(response: seq<byte>, did: u16) {
    Echoes(response, SID_WRITE_DATA_BY_IDENTIFIER, did)
  }

  predicate DecodeIoControl(response: seq<byte>, did: u16) {
    Echoes(response, SID_IO_CONTROL, did)
  }

  lemma EchoesIff(response: seq<byte>, sid: byte, did: u16)
    requires sid < 0xC0
    ensures Echoes(response, sid, did) <==> [sid + 0x40] + BigEndian16(did) <= response
  {
  }

  /** A read is answered with data exactly by echo plus data. */
  lemma DecodeReadIff(response: seq<byte>, did: u16, data: seq<byte>)
    ensures DecodeRead(response, did) == Some(data)
       <==> response == [SID_READ_DATA_BY_IDENTIFIER + 0x40] + BigEndian16(did) + data
  {
  }

  // --- Sessions and security access ---

  function SessionNameToType(name: string): Option<byte> {
    if name == "default" then Some(0x01)
    else if name == "programming" then Some(0x02)
    else if name == "extended" then Some(0x03)
    else None
  }

  function EncodeSessionControl(session: byte): seq<byte> {
    [SID_DIAGNOSTIC_SESSION_CONTROL, session]
  }

  predicate DecodeSessionControl(response: seq<byte>, session: byte) {
    |response| >= 2 && response[0] == SID_DIAGNOSTIC_SESSION_CONTROL + 0x40 && response[1] == session
  }

  function EncodeTesterPresent(): seq<byte> {
    [SID_TESTER_PRESENT, 0x00]
  }

  function EncodeRequestSeed(level: byte): seq<byte> {
    [SID_SECURITY_ACCESS, level]
  }

  function DecodeSeed(response: seq<byte>, level: byte): Option<seq<byte>> {
    if |response| < 2 || response[0] != SID_SECURITY_ACCESS + 0x40 || response[1] != level then None
    else Some(response[2..])
  }

  /** The sendKey sub-function that belongs to a requestSeed level. */
  function KeySubFunction(level: byte): byte {
    (level + 1) % 0x100
  }

  function EncodeSendKey(level: byte, key: seq<byte>): seq<byte> {
    [SID_SECURITY_ACCESS, KeySubFunction(level)] + key
  }

  predicate DecodeKeyAccepted(response: seq<byte>, level: byte) {
    |response| >= 2 && response[0] == SID_SECURITY_ACCESS + 0x40 && response[1] == KeySubFunction(level)
  }

  function Xor(a: byte, b: byte): byte {
    ((a as bv8) ^ (b as bv8)) as int
  }

  /** The demonstration key of a seed: each octet masked with 0xA5 and the level. */
  function DerivedKey(seed: seq<byte>, level: byte): (key: seq<byte>)
    ensures |key| == |seed|
  {
    if seed == [] then [] else [Xor(Xor(seed[0], 0xA5), level)] + DerivedKey(seed[1..], level)
  }

  /** The bitwise exclusive or of a seed octet, 0xA5 and the level. */
  function MaskedOctet(octet: byte, level: byte): byte {
    (octet as bv8 ^ 0xA5 ^ level as bv8) as int
  }

  /** The key that fits a seed at a level: as long, and each octet masked. */
  predicate KeyFits(seed: seq<byte>, level: byte, key: seq<byte>) {
    |key| == |seed| && forall i :: 0 <= i < |seed| ==> key[i] == MaskedOctet(seed[i], level)
  }

  lemma XorTwice(octet: byte, level: byte)
    ensures Xor(Xor(octet, 0xA5), level) == MaskedOctet(octet, level)
  {
    var masked: bv8 := octet as bv8 ^ 0xA5;
    FirstMask(octet, masked);
    SecondMask(masked, level);
  }

  lemma FirstMask(octet: byte, masked: bv8)
    requires masked == octet as bv8 ^ 0xA5
    ensures Xor(octet, 0xA5) == masked as int
  {
  }

  lemma SecondMask(masked: bv8, level: byte)
    ensures Xor(masked as int, level) == (masked ^ level as bv8) as int
  {
    hide Xor;
    OctetRoundTrip(masked);
    XorOf(masked as int, masked, level);
  }

  lemma XorOf(octet: byte, masked: bv8, level: byte)
    requires octet as bv8 == masked
    ensures Xor(octet, level) == (masked ^ level as bv8) as int
  {
  }

  lemma OctetRoundTrip(b: bv8)
    ensures (b as int) as bv8 == b
  {
  }

  /** The derived key fits, and no other does. */
  lemma {:induction false} DerivedKeyFitsIff(seed: seq<byte>, level: byte, key: seq<byte>)
    ensures KeyFits(seed, level, key) <==> key == DerivedKey(seed, level)
  {
    hide Xor, MaskedOctet;
    if |key| == |seed| > 0 {
      XorTwice(seed[0], level);
      DerivedKeyFitsIff(seed[1..], level, key[1..]);
      assert forall i | 0 < i < |seed| :: seed[1..][i - 1] == seed[i] && key[1..][i - 1] == key[i];
      assert key == [key[0]] + key[1..];
    }
  }

  method DeriveKey(seed: seq<byte>, level: byte) returns (key: seq<byte>)
    ensures key == DerivedKey(seed, level)
    ensures |key| == |seed|
    ensures forall i :: 0 <= i < |seed| ==> key[i] == (seed[i] as bv8 ^ 0xA5 ^ level as bv8) as int
  {
    hide Xor;
    key := [];
    for i := 0 to |seed|
      invariant key + DerivedKey(seed[i..], level) == DerivedKey(seed, level)
    {
      assert seed[i..][0] == seed[i] && seed[i..][1..] == seed[i + 1..];
      ghost var before := key;
      key := key + [Xor(Xor(seed[i], 0xA5), level)];
      assert before + DerivedKey(seed[i..], level) == key + DerivedKey(seed[i + 1..], level);
    }
    assert seed[|seed|..] == [];
    assert key + [] == key;
    DerivedKeyFitsIff(seed, level, key);
    assert KeyFits(seed, level, key);
  }

  // --- What is on the wire ---

  /** A response is a pending one exactly with these octets. */
  lemma PendingOctets(response: seq<byte>)
    ensures IsPending(response) <==> |response| >= 3 && response[0] == 0x7F && response[2] == 0x78
    ensures NegativeCode(response).Some? <==> |response| >= 3 && response[0] == 0x7F
    ensures NegativeCode(response).Some? ==> NegativeCode(response).value == response[2]
  {
  }

  /** The requests, octet by octet. */
  lemma RequestOctets(did: u16, control: byte, data: seq<byte>, session: byte, level: byte)
    ensures EncodeRead(did) == [0x22, did / 0x100, did % 0x100]
    ensures EncodeWrite(did, data) == [0x2E, did / 0x100, did % 0x100] + data
    ensures EncodeIoControl(did, control, data) == [0x2F, did / 0x100, did % 0x100, control] + data
    ensures EncodeSessionControl(session) == [0x10, session]
    ensures EncodeTesterPresent() == [0x3E, 0x00]
    ensures EncodeRequestSeed(level) == [0x27, level]
    ensures EncodeSendKey(level, data) == [0x27, (level + 1) % 0x100] + data
  {
  }

  /** The responses accepted, octet by octet. */
  lemma AcceptedOctets(response: seq<byte>, did: u16, session: byte, level: byte, seed: seq<byte>)
    ensures DecodeWrite(response, did) <==> [0x6E, did / 0x100, did % 0x100] <= response
    ensures DecodeIoControl(response, did) <==> [0x6F, did / 0x100, did % 0x100] <= response
    ensures DecodeRead(response, did) == Some(seed) <==> response == [0x62, did / 0x100, did % 0x100] + seed
    ensures DecodeSessionControl(response, session) <==> [0x50, session] <= response
    ensures DecodeSeed(response, level) == Some(seed) <==> response == [0x67, level] + seed
    ensures DecodeKeyAccepted(response, level) <==> [0x67, (level + 1) % 0x100] <= response
  {
    EchoesIff(response, SID_WRITE_DATA_BY_IDENTIFIER, did);
    EchoesIff(response, SID_IO_CONTROL, did);
    DecodeReadIff(response, did, seed);
    hide Echoes, ReadU16;
    assert [SID_READ_DATA_BY_IDENTIFIER + 0x40] + BigEndian16(did) == [0x62, did / 0x100, did % 0x100];
    assert [SID_WRITE_DATA_BY_IDENTIFIER + 0x40] + BigEndian16(did) == [0x6E, did / 0x100, did % 0x100];
    assert [SID_IO_CONTROL + 0x40] + BigEndian16(did) == [0x6F, did / 0x100, did % 0x100];
    PrefixOfTwo(response, 0x50, session);
    PrefixOfTwo(response, 0x67, level);
    PrefixOfTwo(response, 0x67, KeySubFunction(level));
  }

  lemma PrefixOfTwo(s: seq<byte>, a: byte, b: byte)
    ensures [a, b] <= s <==> |s| >= 2 && s[0] == a && s[1] == b
    ensures [a, b] <= s ==> s == [a, b] + s[2..]
    ensures forall rest :: s == [a, b] + rest ==> s[2..] == rest
  {
  }

  /** The session names a catalog may demand. */
  lemma SessionNames(name: string)
    ensures SessionNameToType("default") == Some(0x01)
    ensures SessionNameToType("programming") == Some(0x02)
    ensures SessionNameToType("extended") == Some(0x03)
    ensures name !in {"default", "programming", "extended"} ==> SessionNameToType(name) == None
  {
    assert "default"[0] != "programming"[0] && "default"[0] != "extended"[0] && "programming"[0] != "extended"[0];
  }

  // --- ReadDTCInformation ---

  datatype DtcEntry = DtcEntry(code: string, status: string)

  /** The SAE J2012 text of a three octet code, such as P0A0F-16. */
  function FormatDtc(b0: byte, b1: byte, b2: byte): (text: string)
    ensures |text| == 8
  {
    ["PCBU"[b0 / 0x40], HexDigit(b0 / 0x10 % 4, Upper), HexDigit(b0 % 0x10, Upper),
     HexDigit(b1 / 0x10, Upper), HexDigit(b1 % 0x10, Upper), '-',
     HexDigit(b2 / 0x10, Upper), HexDigit(b2 % 0x10, Upper)]
  }

  /** Bit k of an octet's lower half. */
  predicate Bit(b: byte, k: nat)
    requires k < 4
  {
    b / [1, 2, 4, 8][k] % 2 == 1
  }

  function DtcStatus(status: byte): string {
    if Bit(status, 3) then "confirmed"
    else if Bit(status, 2) then "pending"
    else if Bit(status, 0) then "testFailed"
    else "pending"
  }

  predicate IsDtcReport(response: seq<byte>) {
    && |response| >= 3
    && response[0] == SID_READ_DTC_INFORMATION + 0x40
    && response[1] == SUB_REPORT_DTC_BY_STATUS_MASK
  }

  /** The entry of the four octets starting at i. */
  function EntryAt(response: seq<byte>, i: nat): DtcEntry
    requires i + 4 <= |response|
  {
    DtcEntry(FormatDtc(response[i], response[i + 1], response[i + 2]), DtcStatus(response[i + 3]))
  }

  /** One entry for each whole group of four octets after the first three, in
      order; a short tail is ignored. */
  function DtcEntries(response: seq<byte>): (entries: seq<DtcEntry>)
    requires |response| >= 3
    ensures |entries| == (|response| - 3) / 4
  {
    seq((|response| - 3) / 4, k requires 0 <= k < (|response| - 3) / 4 => EntryAt(response, 3 + 4 * k))
  }

  /** Entry k is the code of the first three octets of group k, with the status
      of the fourth. */
  lemma EntriesAreGroups(response: seq<byte>)
    requires |response| >= 3
    ensures forall k :: 0 <= k < |DtcEntries(response)| ==>
      && DtcEntries(response)[k].code == FormatDtc(response[4 * k + 3], response[4 * k + 4], response[4 * k + 5])
      && DtcEntries(response)[k].status == DtcStatus(response[4 * k + 6])
  {
    hide FormatDtc, DtcStatus;
    forall k: nat | k < |DtcEntries(response)|
      ensures DtcEntries(response)[k] == EntryAt(response, 3 + 4 * k)
    {
    }
  }

  method DecodeReadDtc(response: seq<byte>) returns (entries: Option<seq<DtcEntry>>)
    ensures entries == if IsDtcReport(response) then Some(DtcEntries(response)) else None
    ensures entries.Some? ==> |entries.value| == (|response| - 3) / 4
    ensures entries.Some? ==> forall k :: 0 <= k < |entries.value| ==>
      && entries.value[k].code == FormatDtc(response[4 * k + 3], response[4 * k + 4], response[4 * k + 5])
      && entries.value[k].status == DtcStatus(response[4 * k + 6])
  {
    hide EntryAt;
    if !IsDtcReport(response) {
      return None;
    }
    var out: seq<DtcEntry> := [];
    var i := 3;
    while i + 4 <= |response|
      invariant i == 3 + 4 * |out| && i <= |response|
      invariant forall k :: 0 <= k < |out| ==> out[k] == EntryAt(response, 3 + 4 * k)
    {
      out := out + [EntryAt(response, i)];
      i := i + 4;
    }
    assert out == DtcEntries(response);
    EntriesAreGroups(response);
    return Some(out);
  }

  /** A report decodes exactly behind these octets. */
  lemma DtcReportOctets(response: seq<byte>)
    ensures IsDtcReport(response) <==> |response| >= 3 && [0x59, 0x02] <= response
  {
    PrefixOfTwo(response, 0x59, 0x02);
  }

  /** The status by its bits: confirmed (0x08) before pending (0x04) before test
      failed (0x01), and pending when none of them is set. */
  lemma DtcStatusByBits(status: byte)
    ensures DtcStatus(status) == "confirmed" <==> status / 8 % 2 == 1
    ensures DtcStatus(status) == "testFailed" <==> status / 8 % 2 == 0 && status / 4 % 2 == 0 && status % 2 == 1
    ensures DtcStatus(status) == "pending" <==> status / 8 % 2 == 0 && (status / 4 % 2 == 1 || status % 2 == 0)
  {
    assert "confirmed"[0] != "pending"[0] && "confirmed"[0] != "testFailed"[0] && "pending"[0] != "testFailed"[0];
  }

  /** The text of a code, read back: the system letter by the top two bits, then
      the digits, with a dash before the last two. */
  lemma FormatDtcReadsBack(b0: byte, b1: byte, b2: byte)
    ensures var t := FormatDtc(b0, b1, b2);
      && t[0] == (if b0 < 0x40 then 'P' else if b0 < 0x80 then 'C' else if b0 < 0xC0 then 'B' else 'U')
      && Nibble(t[1]) == Some(b0 / 0x10 % 4) && Nibble(t[2]) == Some(b0 % 0x10)
      && Nibble(t[3]) == Some(b1 / 0x10) && Nibble(t[4]) == Some(b1 % 0x10)
      && t[5] == '-'
      && Nibble(t[6]) == Some(b2 / 0x10) && Nibble(t[7]) == Some(b2 % 0x10)
  {
    hide HexDigit, Nibble;
    DigitRoundTrip(b0 / 0x10 % 4, Upper);
    DigitRoundTrip(b0 % 0x10, Upper);
    DigitRoundTrip(b1 / 0x10, Upper);
    DigitRoundTrip(b1 % 0x10, Upper);
    DigitRoundTrip(b2 / 0x10, Upper);
    DigitRoundTrip(b2 % 0x10, Upper);
  }

  lemma HexDigitInjective(a: int, b: int)
    requires 0 <= a < 16 && 0 <= b < 16
    ensures HexDigit(a, Upper) == HexDigit(b, Upper) <==> a == b
  {
  }

  /** The text determines the three octets of the code. */
  lemma FormatDtcInjective(a0: byte, a1: byte, a2: byte, b0: byte, b1: byte, b2: byte)
    requires FormatDtc(a0, a1, a2) == FormatDtc(b0, b1, b2)
    ensures a0 == b0 && a1 == b1 && a2 == b2
  {
    hide HexDigit;
    var s, t := FormatDtc(a0, a1, a2), FormatDtc(b0, b1, b2);
    assert forall i | 0 <= i < 8 :: s[i] == t[i];
    SystemLetterInjective(a0 / 0x40, b0 / 0x40);
    HexDigitInjective(a0 / 0x10 % 4, b0 / 0x10 % 4);
    FirstOctet(a0, b0);
    HexDigitInjective(a0 % 0x10, b0 % 0x10);
    HexDigitInjective(a1 / 0x10, b1 / 0x10);
    HexDigitInjective(a1 % 0x10, b1 % 0x10);
    HexDigitInjective(a2 / 0x10, b2 / 0x10);
    HexDigitInjective(a2 % 0x10, b2 % 0x10);
  }

  lemma SystemLetterInjective(m: int, n: int)
    requires 0 <= m < 4 && 0 <= n < 4
    ensures "PCBU"[m] == "PCBU"[n] <==> m == n
  {
  }

  lemma FirstOctet(a: byte, b: byte)
    ensures a / 0x40 == b / 0x40 && a / 0x10 % 4 == b / 0x10 % 4 ==> a / 0x10 == b / 0x10
  {
  }

  /** The code texts a client is shown. */
  function Texts(response: seq<byte>): (texts: seq<string>)
    requires |response| >= 3
    ensures |texts| == (|response| - 3) / 4
  {
    seq(|DtcEntries(response)|, k requires 0 <= k < |DtcEntries(response)| => DtcEntries(response)[k].code)
  }

  /** The code octets the ECU sent, group by group. */
  function CodeOctets(response: seq<byte>): (codes: seq<seq<byte>>)
    requires |response| >= 3
    ensures |codes| == (|response| - 3) / 4
  {
    seq((|response| - 3) / 4, k requires 0 <= k < (|response| - 3) / 4 => response[3 + 4 * k..6 + 4 * k])
  }

  /** DTC decoding loses no code: the list of texts and the list of octet
      groups determine each other. */
  lemma TextsDetermineCodes(r: seq<byte>, s: seq<byte>)
    requires |r| >= 3 && |s| >= 3
    ensures Texts(r) == Texts(s) <==> CodeOctets(r) == CodeOctets(s)
  {
    hide FormatDtc;
    if |Texts(r)| == |Texts(s)| {
      forall k | 0 <= k < |Texts(r)|
        ensures Texts(r)[k] == Texts(s)[k] <==> CodeOctets(r)[k] == CodeOctets(s)[k]
      {
        GroupTextsDetermineCodes(r, s, k);
      }
    }
  }

  lemma GroupTextsDetermineCodes(r: seq<byte>, s: seq<byte>, k: nat)
    requires 3 + 4 * k + 4 <= |r| && 3 + 4 * k + 4 <= |s|
    ensures EntryAt(r, 3 + 4 * k).code == EntryAt(s, 3 + 4 * k).code
       <==> r[3 + 4 * k..6 + 4 * k] == s[3 + 4 * k..6 + 4 * k]
  {
    hide FormatDtc, DtcStatus;
    var i := 3 + 4 * k;
    var g, h := r[i..i + 3], s[i..i + 3];
    assert g == [r[i], r[i + 1], r[i + 2]] && h == [s[i], s[i + 1], s[i + 2]];
    if EntryAt(r, i).code == EntryAt(s, i).code {
      FormatDtcInjective(r[i], r[i + 1], r[i + 2], s[i], s[i + 1], s[i + 2]);
    }
    if g == h {
      assert g[0] == h[0] && g[1] == h[1] && g[2] == h[2];
    }
  }
}
