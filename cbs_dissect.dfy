/**
 * The two Cell Broadcast entry points: the GSM page dissector, which decodes
 * one 88-octet page and feeds it to reassembly, and the UMTS dissector, which
 * decodes a whole message with no paging
 * (epan/dissectors/packet-cell_broadcast.c:307-409).
 */
module CbsDissect {
  import opened Wrappers
  import opened Octets
  import opened CbsFields
  import opened CbsText
  import opened CbsReassembly

  /**
   * What one GSM page yields: its header, the page buffer dissect_cbs_data
   * produced (or why there is none), and the message buffer shown for this
   * frame, if any.
   */
  datatype GsmPage = GsmPage(header: PageHeader, page: DataOutcome, message: Option<seq<Byte>>)

  /** The data-coding-scheme byte of a page, decoded into an encoding by the SMS decoder (not part of this model). */
  function PageEncoding(p: ParsedPage, dcs: Byte -> SmsEncoding): SmsEncoding
  {
    dcs(p.header.codingScheme)
  }

  /**
   * dissect_gsm_cell_broadcast for the page in `tvb` in frame `frame`;
   * `visited` says the frame was dissected before. A page shorter than its
   * header stops with an exception before any table is touched.
   */
  method DissectGsmCellBroadcast(tvb: seq<Byte>, frame: Frame, visited: bool, dcs: Byte -> SmsEncoding,
                                 conv: Converters, store: PageStore, scratch: ScratchBuffer)
    returns (r: Result<GsmPage, ParseError>)
    requires scratch.msgbuf.Length == MSGBUF_SIZE
    requires |tvb| >= HEADER_LEN ==> UnpackFits(dcs(tvb[4]), tvb[HEADER_LEN..], conv)
    modifies store, scratch.msgbuf
    ensures r.Err? <==> |tvb| < HEADER_LEN
    ensures r.Err? ==> store.State() == old(store.State()) && scratch.msgbuf[..] == old(scratch.msgbuf[..])
    ensures r.Ok? ==>
      var p := ParsePage(tvb).value;
      && r.value.header == p.header
      && r.value.page == CbsData(PageEncoding(p, dcs), p.content, conv)
      && scratch.msgbuf[..] == Scratched(old(scratch.msgbuf[..]), PageEncoding(p, dcs), p.content, conv)
    ensures r.Ok? && IsSevenBit(PageEncoding(ParsePage(tvb).value, dcs)) ==> r.value.page.Buffer?
    ensures r.Ok? && r.value.page.NoBuffer? ==> r.value.message == None && store.State() == old(store.State())
    ensures r.Ok? && r.value.page.Buffer? && r.value.header.totalPages == 1 ==>
      r.value.message == Some(r.value.page.bytes) && store.State() == old(store.State())
    ensures r.Ok? && r.value.page.Buffer? && r.value.header.totalPages != 1 ==>
      var a := AddCheck(old(store.State()), frame, visited, r.value.page.bytes, ReassemblyCall(r.value.header).value);
      store.State() == a.store && r.value.message == ProcessReassembled(frame, a.message)
  {
    var parsed := ParsePage(tvb);
    if parsed.Err? {
      return Err(parsed.error);
    }
    var p := parsed.value;
    var h := p.header;
    assert p.content == tvb[HEADER_LEN..];
    var page := scratch.DissectCbsData(PageEncoding(p, dcs), p.content, conv);
    var message: Option<seq<Byte>> := None;
    if page.Buffer? {
      if h.totalPages == 1 {
        message := Some(page.bytes);
      } else {
        ReassemblyCallRule(h);
        var added := store.FragmentAddCheck(frame, visited, page.bytes, ReassemblyCall(h).value);
        message := ProcessReassembled(frame, added);
      }
    }
    r := Ok(GsmPage(h, page, message));
  }

  // ---------------------------------------------------------------------------
  // UMTS

  /** Why the UMTS dissector produced no message contents. */
  datatype UmtsError =
    | UmtsTruncated                              // the coding-scheme octet is missing
    | NullBufferAssertion(reason: NoBufferReason) // tvb_length on the NULL buffer: a dissector assertion

  /**
   * dissect_umts_cell_broadcast_message as written: the coding scheme is
   * octet 0 and the content runs from octet 1 to the end. The buffer from
   * dissect_cbs_data is measured without a NULL check, so every path on which
   * dissect_cbs_data returns NULL ends in a dissector assertion.
   */
  function UmtsMessageAsWritten(tvb: seq<Byte>, dcs: Byte -> SmsEncoding, conv: Converters): (r: Result<seq<Byte>, UmtsError>)
    ensures |tvb| < 1 <==> r == Err(UmtsTruncated)
    ensures |tvb| >= 1 ==>
      var out := CbsData(dcs(tvb[0]), tvb[1..], conv);
      (r.Ok? <==> out.Buffer?) && (r.Ok? ==> r.value == out.bytes)
  {
    if |tvb| < 1 then Err(UmtsTruncated)
    else
      match CbsData(dcs(tvb[0]), tvb[1..], conv)
      case Buffer(bytes) => Ok(bytes)
      case NoBuffer(reason) => Err(NullBufferAssertion(reason))
  }

  /** A 7-bit message never reaches the assertion: its buffer is never NULL. */
  lemma {:induction false} UmtsSevenBitNeverAsserts(tvb: seq<Byte>, dcs: Byte -> SmsEncoding, conv: Converters)
    requires |tvb| >= 1 && IsSevenBit(dcs(tvb[0]))
    ensures UmtsMessageAsWritten(tvb, dcs, conv).Ok?
    ensures |UmtsMessageAsWritten(tvb, dcs, conv).value| == SeptetCount(conv.unpack7(tvb[1..]))
  {
  }

  /** A message in an unhandled encoding makes the as-written dissector fail its assertion. */
  lemma {:induction false} UmtsUnhandledEncodingAsserts(tvb: seq<Byte>, dcs: Byte -> SmsEncoding, conv: Converters)
    requires |tvb| >= 1 && dcs(tvb[0]).OtherEncoding?
    ensures UmtsMessageAsWritten(tvb, dcs, conv) == Err(NullBufferAssertion(UnhandledEncoding(dcs(tvb[0]).code)))
  {
  }

  /** The contents of a UMTS message: the decoded buffer, or the reason it is missing. */
  datatype UmtsContents = Contents(bytes: seq<Byte>) | NoContents(reason: NoBufferReason)

  /**
   * The UMTS dissector with the NULL buffer checked: the contents item is
   * added only for a buffer, and a missing buffer is reported with its
   * reason instead of failing.
   */
  function UmtsMessage(tvb: seq<Byte>, dcs: Byte -> SmsEncoding, conv: Converters): (r: Result<UmtsContents, UmtsError>)
    ensures r.Err? <==> |tvb| < 1
    ensures r.Err? ==> r.error == UmtsTruncated
  {
    if |tvb| < 1 then Err(UmtsTruncated)
    else
      match CbsData(dcs(tvb[0]), tvb[1..], conv)
      case Buffer(bytes) => Ok(Contents(bytes))
      case NoBuffer(reason) => Ok(NoContents(reason))
  }

  /**
   * The checked dissector agrees with the original wherever the original
   * succeeds, and turns each of its assertion failures into the reported reason.
   */
  lemma {:induction false} UmtsMessageRefinesAsWritten(tvb: seq<Byte>, dcs: Byte -> SmsEncoding, conv: Converters)
    ensures var w := UmtsMessageAsWritten(tvb, dcs, conv);
      && (w.Ok? ==> UmtsMessage(tvb, dcs, conv) == Ok(Contents(w.value)))
      && (w.Err? && w.error.NullBufferAssertion? ==> UmtsMessage(tvb, dcs, conv) == Ok(NoContents(w.error.reason)))
      && (w == Err(UmtsTruncated) <==> UmtsMessage(tvb, dcs, conv) == Err(UmtsTruncated))
  {
  }

  /**
   * The UMTS dissector on the scratch buffer: the message is decoded in a
   * single step, with no reassembly. It computes the checked contents, which
   * are the original's result wherever the original does not assert.
   */
  method DissectUmtsCellBroadcast(tvb: seq<Byte>, dcs: Byte -> SmsEncoding, conv: Converters, scratch: ScratchBuffer)
    returns (r: Result<UmtsContents, UmtsError>)
    requires scratch.msgbuf.Length == MSGBUF_SIZE
    requires |tvb| >= 1 ==> UnpackFits(dcs(tvb[0]), tvb[1..], conv)
    modifies scratch.msgbuf
    ensures r == UmtsMessage(tvb, dcs, conv)
    ensures UmtsMessageAsWritten(tvb, dcs, conv).Ok? ==> r == Ok(Contents(UmtsMessageAsWritten(tvb, dcs, conv).value))
    ensures UmtsMessageAsWritten(tvb, dcs, conv) == Err(UmtsTruncated) <==> r == Err(UmtsTruncated)
    ensures |tvb| < 1 ==> scratch.msgbuf[..] == old(scratch.msgbuf[..])
    ensures |tvb| >= 1 ==> scratch.msgbuf[..] == Scratched(old(scratch.msgbuf[..]), dcs(tvb[0]), tvb[1..], conv)
  {
    if |tvb| < 1 {
      return Err(UmtsTruncated);
    }
    var out := scratch.DissectCbsData(dcs(tvb[0]), tvb[1..], conv);
    UmtsMessageRefinesAsWritten(tvb, dcs, conv);
    match out {
      case Buffer(bytes) =>
        r := Ok(Contents(bytes));
      case NoBuffer(reason) =>
        r := Ok(NoContents(reason));
    }
  }
}
