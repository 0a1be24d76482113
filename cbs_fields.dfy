/**
 * The fixed header of a GSM Cell Broadcast page (3GPP TS 23.041, section 9.4):
 * the serial number and its bit fields, the message identifier and its
 * classifier, the page-parameter octet, and the reassembly arguments derived
 * from them (epan/dissectors/packet-cell_broadcast.c).
 */
module CbsFields {
  import opened Wrappers
  import opened Octets

  /** GSM_CBS_PAGE_SIZE: the span one page occupies in the reassembled message. */
  const PAGE_SIZE: nat := 88

  /** Octets before the page content: serial (2), message id (2), coding scheme (1), page parameter (1). */
  const HEADER_LEN: nat := 6

  // ---------------------------------------------------------------------------
  // Serial number

  /** The value Wireshark shows for a field with a contiguous bit mask: the masked bits shifted down. */
  function MaskedField(v: nat, lowBit: nat, width: nat): (r: nat)
    ensures r < Pow2(width)
  {
    (v / Pow2(lowBit)) % Pow2(width)
  }

  function Pow2(n: nat): (r: nat)
    ensures r >= 1
  {
    if n == 0 then 1 else 2 * Pow2(n - 1)
  }

  /** gsm_cbs.geographic_scope, mask 0xC000 (bits 15-14). */
  function GeographicScope(sn: U16): nat
  {
    MaskedField(sn, 14, 2)
  }

  /** gsm_cbs.message_code, mask 0x3FF0 (bits 13-4). */
  function MessageCode(sn: U16): nat
  {
    MaskedField(sn, 4, 10)
  }

  /** gsm_cbs.update_number, mask 0x000F (bits 3-0). */
  function UpdateNumber(sn: U16): nat
  {
    MaskedField(sn, 0, 4)
  }

  /** The three fields partition the serial number: they are bounded and recompose it. */
  lemma {:induction false} SerialFieldsPartition(sn: U16)
    ensures GeographicScope(sn) <= 3 && MessageCode(sn) <= 1023 && UpdateNumber(sn) <= 15
    ensures sn == GeographicScope(sn) * 0x4000 + MessageCode(sn) * 0x10 + UpdateNumber(sn)
    ensures GeographicScope(sn) == sn / 0x4000 && UpdateNumber(sn) == sn % 0x10
  {
    assert Pow2(2) == 4 && Pow2(4) == 16 && Pow2(10) == 1024 && Pow2(14) == 0x4000;
    var t, u := sn / 16, sn % 16;
    var g, c := t / 1024, t % 1024;
    assert sn == 16 * t + u && t == 1024 * g + c;
    assert g < 4;
    DivModUnique(sn, 0x4000, g, 16 * c + u);
    DivModUnique(g, 4, 0, g);
    assert GeographicScope(sn) == g;
    assert MessageCode(sn) == c;
    assert UpdateNumber(sn) == u;
  }

  /** The serial number with the given fields. */
  function ComposeSerial(scope: nat, code: nat, update: nat): (sn: U16)
    requires scope <= 3 && code <= 1023 && update <= 15
  {
    scope * 0x4000 + code * 0x10 + update
  }

  /** Splitting a composed serial number gives back its fields. */
  lemma {:induction false} SerialFieldsRoundTrip(scope: nat, code: nat, update: nat)
    requires scope <= 3 && code <= 1023 && update <= 15
    ensures GeographicScope(ComposeSerial(scope, code, update)) == scope
    ensures MessageCode(ComposeSerial(scope, code, update)) == code
    ensures UpdateNumber(ComposeSerial(scope, code, update)) == update
  {
    var sn := ComposeSerial(scope, code, update);
    assert Pow2(2) == 4 && Pow2(4) == 16 && Pow2(10) == 1024 && Pow2(14) == 0x4000;
    DivModUnique(sn, 0x4000, scope, code * 16 + update);
    DivModUnique(scope, 4, 0, scope);
    DivModUnique(sn, 16, scope * 1024 + code, update);
    DivModUnique(scope * 1024 + code, 1024, scope, code);
  }

  /**
   * The "Message Code" appended to the serial-number item's text, as written:
   * `(serial_number & 0x3FF) >> 4`, which keeps bits 9-4 only.
   */
  function AppendedMessageCodeAsWritten(sn: U16): (r: nat)
    ensures r <= 63
  {
    (sn % 0x400) / 0x10
  }

  /** The appended text shows only the low six bits of the ten-bit message code. */
  lemma {:induction false} AppendedCodeIsLowSixBits(sn: U16)
    ensures AppendedMessageCodeAsWritten(sn) == MessageCode(sn) % 64
  {
    assert Pow2(4) == 16 && Pow2(10) == 1024;
    var q, u := sn / 16, sn % 16;
    var a, b := q / 64, q % 64;
    assert sn == q * 16 + u;
    assert q == a * 64 + b;
    DivModUnique(q, 1024, q / 1024, q % 1024);
    DivModUnique(sn, 0x400, a, b * 16 + u);
    DivModUnique(b * 16 + u, 16, b, u);
  }

  /** Serial number 0x0400 has message code 64, but the appended text says 0. */
  lemma {:induction false} AppendedCodeDisagrees()
    ensures MessageCode(0x0400) == 64 && AppendedMessageCodeAsWritten(0x0400) == 0
  {
    assert Pow2(4) == 16 && Pow2(10) == 1024;
  }

  /** The appended "Message Code" with the field's own mask 0x3FF0: it always equals the field. */
  function AppendedMessageCode(sn: U16): (r: nat)
    ensures r == MessageCode(sn)
    ensures r <= 1023
  {
    assert Pow2(4) == 16 && Pow2(10) == 1024;
    (sn / 0x10) % 0x400
  }

  /** The appended "Update Number" (`serial_number & 0x0F`) agrees with the field. */
  function AppendedUpdateNumber(sn: U16): (r: nat)
    ensures r == UpdateNumber(sn)
  {
    assert Pow2(4) == 16;
    sn % 0x10
  }

  // ---------------------------------------------------------------------------
  // Offsets

  /** dissect_cbs_serial_number returns the offset after the field (a guint16), not its width. */
  function SerialNumberReturn(offset: U16): (r: U16)
    ensures offset < 0xFFFE ==> r == offset + 2
  {
    (offset + 2) % 0x1_0000
  }

  /** dissect_cbs_message_identifier returns the width of the field. */
  function MessageIdentifierReturn(offset: U16): U16
  {
    2
  }

  /** The caller adds the return value of dissect_cbs_serial_number to its offset. */
  function OffsetAfterSerial(offset: U16): nat
  {
    offset + SerialNumberReturn(offset)
  }

  /**
   * The caller's `offset +=` is right for the serial number only because it
   * starts at offset 0; from 0 the two calls move it to 2 and then to 4.
   */
  lemma {:induction false} HeaderOffsets(offset: U16)
    requires offset < 0xFFFE
    ensures MessageIdentifierReturn(offset) == 2
    ensures OffsetAfterSerial(0) == 2 && OffsetAfterSerial(0) + MessageIdentifierReturn(2) == 4
    ensures OffsetAfterSerial(offset) == offset + 2 <==> offset == 0
  {
  }

  // ---------------------------------------------------------------------------
  // Message identifier classifier

  /** message_id_values: the well-known identifiers, searched before the ranges (match_strval). */
  function WellKnownName(id: U16): Option<string>
  {
    match id
    case 0 => Some("Index")
    case 10 => Some("Flashes")
    case 20 => Some("Hospitals")
    case 22 => Some("Doctors")
    case 24 => Some("Pharmacy")
    case 30 => Some("Long Distance Road Reports")
    case 32 => Some("Local Road Reports")
    case 34 => Some("Taxis")
    case 40 => Some("Weather")
    case 50 => Some("Regional Services (local phone prefixes) / District (Base Station Identity)")
    case 52 => Some("Network Information")
    case 54 => Some("Operator Service")
    case 56 => Some("Directory Enquiries (national)")
    case 57 => Some("Directory Enquiries (international)")
    case 58 => Some("Customer Care (national)")
    case 59 => Some("Customer Care (international)")
    case 60 => Some("Local Date/Time Group incl. Time Zone")
    case 100 => Some("Regional Services (local phone prefixes)")
    case 101 => Some("planned for news, events, whether, traffic, TV station and News of the day")
    case 102 => Some("planned for news, events, whether, traffic, TV station and News of the day")
    case 103 => Some("planned for news, events, whether, traffic, TV station and News of the day")
    case 104 => Some("planned for news, events, whether, traffic, TV station and News of the day")
    case 105 => Some("planned for news, events, whether, traffic, TV station and News of the day")
    case 106 => Some("planned for news, events, whether, traffic, TV station and News of the day")
    case 107 => Some("planned for news, events, whether, traffic, TV station and News of the day")
    case 123 => Some("Mobile Auction")
    case 140 => Some("Handelsblatt (latest info from stock exchange)")
    case 666 => Some("PASSO Traffic Alert (brief teaser information for IVR)")
    case 1000 => Some("LCS CBS Message Identifier for E-OTD Assistance Data message")
    case 1001 => Some("LCS CBS Message Identifier for DGPS Correction Data message")
    case 1002 => Some("LCS CBS Message Identifier for GPS Ephemeris and Clock Correction Data message")
    case 1003 => Some("LCS CBS Message Identifier for GPS Almanac and Other Data message")
    case 4352 => Some("ETWS CBS Message Identifier for earthquake warning message")
    case 4353 => Some("ETWS CBS Message Identifier for tsunami warning message")
    case 4354 => Some("ETWS CBS Message Identifier for earthquake and tsunami combined warning message")
    case 4355 => Some("ETWS CBS Message Identifier for test message")
    case 4356 => Some("ETWS CBS Message Identifier for messages related to other emergency types")
    case 4370 => Some("CMAS CBS Message Identifier for CMAS Presidential Level Alerts")
    case 4371 => Some("CMAS CBS Message Identifier for CMAS Extreme Alerts with Severity of Extreme, Urgency of Immediate, and Certainty of Observed")
    case 4372 => Some("CMAS CBS Message Identifier for CMAS Extreme Alerts with Severity of Extreme, Urgency of Immediate, and Certainty of Likely")
    case 4373 => Some("CMAS CBS Message Identifier for CMAS Severe Alerts with Severity of Extreme, Urgency of Expected, and Certainty of Observed")
    case 4374 => Some("CMAS CBS Message Identifier for CMAS Severe Alerts with Severity of Extreme, Urgency of Expected, and Certainty of Likely")
    case 4375 => Some("CMAS CBS Message Identifier for CMAS Severe Alerts with Severity of Severe, Urgency of Immediate, and Certainty of Observed")
    case 4376 => Some("CMAS CBS Message Identifier for CMAS Severe Alerts with Severity of Severe, Urgency of Immediate, and Certainty of Likely")
    case 4377 => Some("CMAS CBS Message Identifier for CMAS Severe Alerts with Severity of Severe, Urgency of Expected, and Certainty of Observed")
    case 4378 => Some("CMAS CBS Message Identifier for CMAS Severe Alerts with Severity of Severe, Urgency of Expected, and Certainty of Likely")
    case 4379 => Some("CMAS CBS Message Identifier for Child Abduction Emergency (or Amber Alert)")
    case 4380 => Some("CMAS CBS Message Identifier for the Required Monthly Test")
    case 4381 => Some("CMAS CBS Message Identifier for CMAS Exercise")
    case 4382 => Some("CMAS CBS Message Identifier for operator defined use")
    case 65535 => Some("Message Identifier Reserved, and should not be used for new services")
    case _ => None
  }

  /** The fallback chain of dissect_cbs_message_identifier, checked top-down. */
  function RangeCategory(id: U16): string
  {
    if id < 1000 then "Message ID to be allocated by GSMA"
    else if id < 4096 then "Message ID intended for standardization in future versions of 3GPP TS 23.041"
    else if id < 4224 then "Message ID reserved for Cell Broadcast Data Download (unsecured) to the SIM "
    else if id < 4352 then "Message ID reserved for Cell Broadcast Data Download (secured) to the SIM "
    else if id < 4360 then "ETWS CBS Message Identifier for future extension"
    else if id < 4400 then "CMAS CBS Message Identifier for future extension"
    else if id < 6400 then "CBS Message Identifier for future PWS use"
    else if id < 40960 then "Intended for standardization in future versions of 3GPP TS 23.041"
    else if id < 43500 then "Message ID in PLMN operator specific range"
    else if id < 43530 then "Traffic Information Traffic Master UK"
    else if id < 43585 then "Traffic information Mannesmann Telecommerce"
    else if id < 45056 then "Message ID in PLMN operator specific range"
    else "Message ID intended as PLMN operator specific range in future versions of 3GPP TS 23.041"
  }

  /**
   * An independent statement of the range rule: the half-open bands as a table
   * of exclusive upper bounds, the last one covering the rest of the u16 space.
   */
  const RANGE_BANDS: seq<(int, string)> := [
    (1000, "Message ID to be allocated by GSMA"),
    (4096, "Message ID intended for standardization in future versions of 3GPP TS 23.041"),
    (4224, "Message ID reserved for Cell Broadcast Data Download (unsecured) to the SIM "),
    (4352, "Message ID reserved for Cell Broadcast Data Download (secured) to the SIM "),
    (4360, "ETWS CBS Message Identifier for future extension"),
    (4400, "CMAS CBS Message Identifier for future extension"),
    (6400, "CBS Message Identifier for future PWS use"),
    (40960, "Intended for standardization in future versions of 3GPP TS 23.041"),
    (43500, "Message ID in PLMN operator specific range"),
    (43530, "Traffic Information Traffic Master UK"),
    (43585, "Traffic information Mannesmann Telecommerce"),
    (45056, "Message ID in PLMN operator specific range"),
    (0x1_0000, "Message ID intended as PLMN operator specific range in future versions of 3GPP TS 23.041")
  ]

  /** The band of the first bound that exceeds `id`, if any. */
  function FirstBand(id: int, bands: seq<(int, string)>): Option<string>
  {
    if bands == [] then None
    else if id < bands[0].0 then Some(bands[0].1)
    else FirstBand(id, bands[1..])
  }

  /** The bands' bounds strictly increase, so every id belongs to exactly one band. */
  predicate StrictlyIncreasing(bands: seq<(int, string)>)
  {
    forall i, j :: 0 <= i < j < |bands| ==> bands[i].0 < bands[j].0
  }

  /** A band is the first whose bound exceeds `id` exactly when `id` lies between its bound and the previous one. */
  lemma {:induction false} FirstBandIsBracket(id: int, bands: seq<(int, string)>, k: nat)
    requires StrictlyIncreasing(bands)
    requires k < |bands| && id < bands[k].0 && (k == 0 || bands[k - 1].0 <= id)
    ensures FirstBand(id, bands) == Some(bands[k].1)
  {
    if k > 0 {
      assert bands[0].0 <= bands[k - 1].0;
      assert StrictlyIncreasing(bands[1..]) by {
        forall i, j | 0 <= i < j < |bands[1..]| ensures bands[1..][i].0 < bands[1..][j].0 {
          assert bands[1..][i] == bands[i + 1] && bands[1..][j] == bands[j + 1];
        }
      }
      assert bands[1..][k - 1] == bands[k];
      assert k - 1 == 0 || bands[1..][k - 2] == bands[k - 1];
      FirstBandIsBracket(id, bands[1..], k - 1);
    }
  }

  /** The if-chain is the table-driven band rule, and the bands have no gaps up to 65535. */
  lemma {:induction false} RangeChainIsBandTable(id: U16)
    ensures StrictlyIncreasing(RANGE_BANDS)
    ensures RANGE_BANDS[|RANGE_BANDS| - 1].0 == 0x1_0000
    ensures FirstBand(id, RANGE_BANDS) == Some(RangeCategory(id))
  {
    var b := RANGE_BANDS;
    assert StrictlyIncreasing(b) by {
      forall i, j | 0 <= i < j < |b| ensures b[i].0 < b[j].0 {
        assert forall k :: 0 <= k < |b| - 1 ==> b[k].0 < b[k + 1].0;
        StepsIncrease(b, i, j);
      }
    }
    var k := if id < 1000 then 0 else if id < 4096 then 1 else if id < 4224 then 2
      else if id < 4352 then 3 else if id < 4360 then 4 else if id < 4400 then 5
      else if id < 6400 then 6 else if id < 40960 then 7 else if id < 43500 then 8
      else if id < 43530 then 9 else if id < 43585 then 10 else if id < 45056 then 11 else 12;
    FirstBandIsBracket(id, b, k);
  }

  lemma {:induction false} StepsIncrease(b: seq<(int, string)>, i: nat, j: nat)
    requires forall k :: 0 <= k < |b| - 1 ==> b[k].0 < b[k + 1].0
    requires i < j < |b|
    ensures b[i].0 < b[j].0
    decreases j - i
  {
    if i + 1 < j {
      StepsIncrease(b, i + 1, j);
    }
  }

  /**
   * The classification shown for a message identifier: the exact table wins,
   * otherwise the first band whose bound exceeds the identifier. It is total:
   * no identifier falls through both, so the string is never NULL.
   */
  function ClassifyMessageId(id: U16): (r: string)
    ensures FirstBand(id, RANGE_BANDS).Some?
    ensures WellKnownName(id).Some? ==> r == WellKnownName(id).value
    ensures WellKnownName(id).None? ==> Some(r) == FirstBand(id, RANGE_BANDS)
  {
    RangeChainIsBandTable(id);
    match WellKnownName(id)
    case Some(s) => s
    case None => RangeCategory(id)
  }

  /** Whether the identifier is one of the well-known values. */
  predicate IsWellKnown(id: U16)
  {
    WellKnownName(id).Some?
  }

  /** 4352 is in the ETWS future-extension band, yet it is shown as the earthquake warning. */
  lemma {:induction false} EarthquakeExample()
    ensures FirstBand(4352, RANGE_BANDS) == Some("ETWS CBS Message Identifier for future extension")
    ensures IsWellKnown(4352)
    ensures ClassifyMessageId(4352) == "ETWS CBS Message Identifier for earthquake warning message"
  {
    EarthquakeBand();
    assert WellKnownName(4352) == Some("ETWS CBS Message Identifier for earthquake warning message");
  }

  lemma {:induction false} EarthquakeBand()
    ensures FirstBand(4352, RANGE_BANDS) == Some(RANGE_BANDS[4].1)
  {
    var b := RANGE_BANDS;
    assert FirstBand(4352, b[4..]) == Some(b[4].1);
    assert b[3..][1..] == b[4..] && b[2..][1..] == b[3..] && b[1..][1..] == b[2..];
    assert FirstBand(4352, b) == FirstBand(4352, b[4..]);
  }

  // ---------------------------------------------------------------------------
  // Page header

  /** The page-parameter octet: current page in the high nibble, total pages in the low nibble. */
  function CurrentPage(b: Byte): (r: nat)
    ensures r <= 15
  {
    b / 0x10
  }

  function TotalPages(b: Byte): (r: nat)
    ensures r <= 15
  {
    b % 0x10
  }

  /** The two nibbles carry the whole octet. */
  lemma {:induction false} PageNibblesRoundTrip(b: Byte, current: nat, total: nat)
    ensures b == CurrentPage(b) * 0x10 + TotalPages(b)
    ensures current <= 15 && total <= 15 ==>
      CurrentPage(current * 0x10 + total) == current && TotalPages(current * 0x10 + total) == total
  {
  }

  datatype PageHeader = PageHeader(
    serialNumber: U16,
    messageId: U16,
    codingScheme: Byte,
    currentPage: nat,
    totalPages: nat)

  datatype ParseError = Truncated

  /** A page split at its fixed offsets: the header fields and the content from octet 6. */
  datatype ParsedPage = ParsedPage(header: PageHeader, content: seq<Byte>)

  /**
   * The header reads of dissect_gsm_cell_broadcast: serial at 0-1, message id
   * at 2-3, coding scheme at 4, page parameter at 5, content from 6. A page
   * shorter than the header makes one of the reads throw, modelled as Truncated.
   */
  function ParsePage(p: seq<Byte>): (r: Result<ParsedPage, ParseError>)
    ensures r.Ok? <==> |p| >= HEADER_LEN
    ensures r.Ok? ==> r.value.header.currentPage <= 15 && r.value.header.totalPages <= 15
    ensures r.Ok? ==> |r.value.content| == |p| - HEADER_LEN
  {
    if |p| < HEADER_LEN then Err(Truncated)
    else
      var sn := GetNtohs(p, 0);
      var id := GetNtohs(p, OffsetAfterSerial(0));
      var dcs := p[4];
      Ok(ParsedPage(PageHeader(sn, id, dcs, CurrentPage(p[5]), TotalPages(p[5])), p[HEADER_LEN..]))
  }

  /** The octets of a page with the given header and content. */
  function EncodePage(h: PageHeader, content: seq<Byte>): (p: seq<Byte>)
    requires h.currentPage <= 15 && h.totalPages <= 15
    ensures |p| == HEADER_LEN + |content|
  {
    PutNtohs(h.serialNumber) + PutNtohs(h.messageId) + [h.codingScheme]
      + [h.currentPage * 0x10 + h.totalPages] + content
  }

  /** Parsing an encoded page gives back its header and content. */
  lemma {:induction false} PageRoundTrip(h: PageHeader, content: seq<Byte>)
    requires h.currentPage <= 15 && h.totalPages <= 15
    ensures ParsePage(EncodePage(h, content)) == Ok(ParsedPage(h, content))
  {
    var p := EncodePage(h, content);
    NtohsRoundTrip(h.serialNumber, p[0..2]);
    NtohsRoundTrip(h.messageId, p[2..4]);
    assert p[0..2] == PutNtohs(h.serialNumber);
    assert p[2..4] == PutNtohs(h.messageId);
    assert GetNtohs(p, 0) == GetNtohs(p[0..2], 0);
    assert GetNtohs(p, 2) == GetNtohs(p[2..4], 0);
    PageNibblesRoundTrip(p[5], h.currentPage, h.totalPages);
    assert p[HEADER_LEN..] == content;
  }

  // ---------------------------------------------------------------------------
  // Reassembly arguments

  /** msg_key: `(serial_number << 16) + message_id` as the guint32 it is stored in. */
  function MessageKey(sn: U16, id: U16): (k: U32)
  {
    sn * 0x1_0000 + id
  }

  /** The key splits back into serial number and message id, so distinct pairs never share a record. */
  lemma {:induction false} MessageKeySplits(sn: U16, id: U16, sn': U16, id': U16)
    ensures MessageKey(sn, id) / 0x1_0000 == sn && MessageKey(sn, id) % 0x1_0000 == id
    ensures MessageKey(sn, id) == MessageKey(sn', id') <==> sn == sn' && id == id'
  {
    var k, k' := MessageKey(sn, id), MessageKey(sn', id');
    assert k / 0x1_0000 == sn;
    assert k' / 0x1_0000 == sn';
  }

  /**
   * `(current_page - 1) * GSM_CBS_PAGE_SIZE` passed as the guint32 frag_offset:
   * a page numbered 0 wraps around to 2^32 - 88.
   */
  function SlotOffset(currentPage: nat): (r: U32)
  {
    ((currentPage - 1) * PAGE_SIZE) % 0x1_0000_0000
  }

  /** Pages 1..15 occupy disjoint consecutive 88-octet slots; page 0 wraps to the top of the range. */
  lemma {:induction false} SlotOffsetLayout(page: nat, page': nat)
    requires page <= 15 && page' <= 15
    ensures 1 <= page ==> SlotOffset(page) == (page - 1) * PAGE_SIZE && SlotOffset(page) / PAGE_SIZE + 1 == page
    ensures 1 <= page && 1 <= page' && page != page' ==>
      SlotOffset(page) + PAGE_SIZE <= SlotOffset(page') || SlotOffset(page') + PAGE_SIZE <= SlotOffset(page)
    ensures page == 0 ==> SlotOffset(page) == 0x1_0000_0000 - PAGE_SIZE
  {
  }

  /** The arguments passed to fragment_add_check for one page. */
  datatype FragmentCall = FragmentCall(key: U32, offset: U32, length: nat, morePages: bool)

  /** A single-page message needs no reassembly; any other page becomes one fragment_add_check call. */
  function ReassemblyCall(h: PageHeader): Option<FragmentCall>
  {
    if h.totalPages == 1 then None
    else Some(FragmentCall(MessageKey(h.serialNumber, h.messageId), SlotOffset(h.currentPage),
                           PAGE_SIZE, h.currentPage != h.totalPages))
  }

  /** The reassembly keying rule, stated on the header fields. */
  lemma {:induction false} ReassemblyCallRule(h: PageHeader)
    requires h.currentPage <= 15 && h.totalPages <= 15
    ensures ReassemblyCall(h).None? <==> h.totalPages == 1
    ensures ReassemblyCall(h).Some? ==>
      var c := ReassemblyCall(h).value;
      && c.key / 0x1_0000 == h.serialNumber && c.key % 0x1_0000 == h.messageId
      && c.length == PAGE_SIZE
      && (c.morePages <==> h.currentPage != h.totalPages)
      && (1 <= h.currentPage ==> c.offset == (h.currentPage - 1) * PAGE_SIZE)
  {
    MessageKeySplits(h.serialNumber, h.messageId, h.serialNumber, h.messageId);
    SlotOffsetLayout(h.currentPage, h.currentPage);
  }

  /** All pages of one message (same serial and id) are sent to the same reassembly record. */
  lemma {:induction false} PagesShareKey(h: PageHeader, h': PageHeader)
    requires ReassemblyCall(h).Some? && ReassemblyCall(h').Some?
    ensures ReassemblyCall(h).value.key == ReassemblyCall(h').value.key <==>
      h.serialNumber == h'.serialNumber && h.messageId == h'.messageId
  {
    MessageKeySplits(h.serialNumber, h.messageId, h'.serialNumber, h'.messageId);
  }
}
