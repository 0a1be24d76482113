/**
 * dissect_cbs_data: the page or message content as the buffer later shown
 * and reassembled, chosen by the SMS data-coding scheme
 * (epan/dissectors/packet-cell_broadcast.c:252-305).
 */
module CbsText {
  import opened Wrappers
  import opened Octets

  /** Capacity of the static `msgbuf` that the 7-bit unpacker writes into. */
  const MSGBUF_SIZE: nat := 1024

  /** The encodings the data-coding-scheme decoder reports, as far as dissect_cbs_data tells them apart. */
  datatype SmsEncoding =
    | SevenBit        // SMS_ENCODING_7BIT
    | SevenBitLang    // SMS_ENCODING_7BIT_LANG
    | EightBit        // SMS_ENCODING_8BIT
    | Ucs2            // SMS_ENCODING_UCS2
    | Ucs2Lang        // SMS_ENCODING_UCS2_LANG
    | OtherEncoding(code: Byte)

  /**
   * The character-conversion routines dissect_cbs_data calls, which are not
   * part of this model: the 7-bit unpacker (the septets it writes), the GSM to
   * UTF-8 converter, whether iconv opens a UCS-2BE to UTF-8 converter, and
   * that converter's result (None when it reports an error). `pastText(t, k)`
   * is the octet found in memory k positions past the end of the converted
   * text `t`: the 7-bit buffer is `out_len` octets long even when the UTF-8
   * text is shorter, and then reads on past it.
   */
  datatype Converters = Converters(
    unpack7: seq<Byte> -> seq<Byte>,
    gsmToUtf8: seq<Byte> -> seq<Byte>,
    iconvOpens: bool,
    ucs2ToUtf8: seq<Byte> -> Option<seq<Byte>>,
    pastText: (seq<Byte>, nat) -> Byte)

  /** Why dissect_cbs_data returned NULL (each is reported as a text item, never fatal). */
  datatype NoBufferReason =
    | ConversionFailed          // "g_convert_with_iconv FAILED"
    | IconvUnavailable          // "g_iconv_open FAILED"
    | UnhandledEncoding(code: Byte)

  /** The buffer dissect_cbs_data returns, or NULL (on the UCS-2 and unhandled paths) with the reason. */
  datatype DataOutcome = Buffer(bytes: seq<Byte>) | NoBuffer(reason: NoBufferReason)

  predicate IsSevenBit(enc: SmsEncoding)
  {
    enc.SevenBit? || enc.SevenBitLang?
  }

  predicate IsUcs2(enc: SmsEncoding)
  {
    enc.Ucs2? || enc.Ucs2Lang?
  }

  /** `out_len` is a guint8: the septet count wraps modulo 256. */
  function SeptetCount(septets: seq<Byte>): (n: nat)
    ensures n <= 255 && n <= |septets|
    ensures |septets| < 256 ==> n == |septets|
  {
    |septets| % 0x100
  }

  /**
   * The buffer for content `data` (the octets from the offset to the end):
   * 7-bit text is unpacked, converted to UTF-8 and cut to the septet count;
   * 8-bit content is the octets themselves; UCS-2 content is also the octets
   * themselves, but only when iconv converts it without error.
   */
  function CbsData(enc: SmsEncoding, data: seq<Byte>, conv: Converters): (r: DataOutcome)
    ensures enc == EightBit ==> r == Buffer(data)
    ensures IsUcs2(enc) ==> (r.Buffer? <==> conv.iconvOpens && conv.ucs2ToUtf8(data).Some?)
    ensures IsUcs2(enc) && r.Buffer? ==> r.bytes == data
    ensures enc.OtherEncoding? ==> r == NoBuffer(UnhandledEncoding(enc.code))
    ensures r.NoBuffer? <==> enc.OtherEncoding? || (IsUcs2(enc) && !(conv.iconvOpens && conv.ucs2ToUtf8(data).Some?))
    ensures IsSevenBit(enc) ==>
      var n := SeptetCount(conv.unpack7(data));
      var utf8 := conv.gsmToUtf8(conv.unpack7(data)[..n]);
      && r.Buffer? && |r.bytes| == n
      && (n <= |utf8| ==> r.bytes == utf8[..n])
      && (|utf8| < n ==> r.bytes[..|utf8|] == utf8)
  {
    match enc
    case SevenBit => SevenBitText(conv.unpack7(data), conv)
    case SevenBitLang => SevenBitText(conv.unpack7(data), conv)
    case EightBit => Buffer(data)
    case Ucs2 => Ucs2Text(data, conv)
    case Ucs2Lang => Ucs2Text(data, conv)
    case OtherEncoding(code) => NoBuffer(UnhandledEncoding(code))
  }

  /**
   * tvb_new_child_real_data(tvb, utf8_text, out_len, out_len): out_len octets
   * from the start of the UTF-8 text, never NULL. When the text is shorter
   * than out_len (an escaped GSM character becomes one UTF-8 octet from two
   * septets), the buffer runs on into the memory after the text.
   */
  function SevenBitText(septets: seq<Byte>, conv: Converters): (r: DataOutcome)
    ensures var n := SeptetCount(septets);
      var utf8 := conv.gsmToUtf8(septets[..n]);
      && r.Buffer? && |r.bytes| == n
      && (n <= |utf8| ==> r.bytes == utf8[..n])
      && (|utf8| < n ==> r.bytes[..|utf8|] == utf8)
  {
    var n := SeptetCount(septets);
    var utf8 := conv.gsmToUtf8(septets[..n]);
    Buffer(seq(n, i requires 0 <= i < n => if i < |utf8| then utf8[i] else conv.pastText(utf8, i - |utf8|)))
  }

  function Ucs2Text(data: seq<Byte>, conv: Converters): DataOutcome
  {
    if !conv.iconvOpens then NoBuffer(IconvUnavailable)
    else if conv.ucs2ToUtf8(data).None? then NoBuffer(ConversionFailed)
    else Buffer(data)
  }

  /** 256 septets wrap the count to 0, so the 7-bit buffer is empty. */
  lemma {:induction false} SevenBitCountWraps(data: seq<Byte>, conv: Converters)
    requires |conv.unpack7(data)| == 256
    ensures CbsData(SevenBit, data, conv) == Buffer([])
  {
  }

  /** The septets fit the scratch buffer whenever the 7-bit path is taken (the unpacker is given its size). */
  predicate UnpackFits(enc: SmsEncoding, data: seq<Byte>, conv: Converters)
  {
    IsSevenBit(enc) ==> |conv.unpack7(data)| <= MSGBUF_SIZE
  }

  /**
   * The scratch buffer after dissect_cbs_data: on the 7-bit path the septets
   * overwrite its head and the octet at the septet count becomes the
   * terminator; on every other path it is left as it was.
   */
  function Scratched(before: seq<Byte>, enc: SmsEncoding, data: seq<Byte>, conv: Converters): (after: seq<Byte>)
    requires |before| == MSGBUF_SIZE && UnpackFits(enc, data, conv)
    ensures |after| == MSGBUF_SIZE
    ensures !IsSevenBit(enc) ==> after == before
    ensures IsSevenBit(enc) ==>
      var septets := conv.unpack7(data);
      forall i :: 0 <= i < MSGBUF_SIZE ==>
        after[i] == if i == SeptetCount(septets) then 0 else if i < |septets| then septets[i] else before[i]
  {
    if !IsSevenBit(enc) then before
    else
      var septets := conv.unpack7(data);
      (septets + before[|septets|..])[SeptetCount(septets) := 0]
  }

  /** The static scratch buffer `msgbuf[1024]` of dissect_cbs_data. */
  class ScratchBuffer {
    const msgbuf: array<Byte>

    constructor ()
      ensures msgbuf.Length == MSGBUF_SIZE && fresh(msgbuf)
    {
      msgbuf := new Byte[MSGBUF_SIZE];
    }

    /**
     * dissect_cbs_data. On the 7-bit path the unpacker fills msgbuf with the
     * septets (it is given the buffer's size, so it writes at most 1024) and
     * the octet at `out_len` becomes the terminator; the other paths leave
     * msgbuf alone.
     */
    method DissectCbsData(enc: SmsEncoding, data: seq<Byte>, conv: Converters) returns (r: DataOutcome)
      requires msgbuf.Length == MSGBUF_SIZE
      requires UnpackFits(enc, data, conv)
      modifies msgbuf
      ensures r == CbsData(enc, data, conv)
      ensures msgbuf[..] == Scratched(old(msgbuf[..]), enc, data, conv)
    {
      match enc {
        case SevenBit =>
          r := UnpackSevenBit(data, conv);
        case SevenBitLang =>
          r := UnpackSevenBit(data, conv);
        case EightBit =>
          r := Buffer(data);
        case Ucs2 =>
          r := Ucs2Text(data, conv);
        case Ucs2Lang =>
          r := Ucs2Text(data, conv);
        case OtherEncoding(code) =>
          r := NoBuffer(UnhandledEncoding(code));
      }
      assert msgbuf[..] == Scratched(old(msgbuf[..]), enc, data, conv) by {
        var after := Scratched(old(msgbuf[..]), enc, data, conv);
        assert forall i :: 0 <= i < MSGBUF_SIZE ==> msgbuf[..][i] == after[i];
      }
    }

    /** The 7-bit case: unpack into msgbuf, terminate at out_len, convert the first out_len septets. */
    method UnpackSevenBit(data: seq<Byte>, conv: Converters) returns (r: DataOutcome)
      requires msgbuf.Length == MSGBUF_SIZE
      requires |conv.unpack7(data)| <= MSGBUF_SIZE
      modifies msgbuf
      ensures r == SevenBitText(conv.unpack7(data), conv)
      ensures
        var septets := conv.unpack7(data);
        forall i :: 0 <= i < MSGBUF_SIZE ==>
          msgbuf[i] == if i == SeptetCount(septets) then 0
                       else if i < |septets| then septets[i] else old(msgbuf[i])
    {
      var septets := conv.unpack7(data);
      forall i | 0 <= i < |septets| {
        msgbuf[i] := septets[i];
      }
      var outLen := |septets| % 0x100;
      msgbuf[outLen] := 0;
      assert msgbuf[..outLen] == septets[..outLen];
      var utf8 := conv.gsmToUtf8(msgbuf[..outLen]);
      r := Buffer(seq(outLen, i requires 0 <= i < outLen => if i < |utf8| then utf8[i] else conv.pastText(utf8, i - |utf8|)));
    }
  }
}
