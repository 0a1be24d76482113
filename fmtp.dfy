/**
 * The Flight Message Transfer Protocol (FMTP, version 2) over TCP: the
 * heuristic that claims a segment, the PDU length handed to the TCP
 * reassembler, and the names shown for a PDU
 * (epan/dissectors/packet-fmtp.c:46-155).
 */
module Fmtp {
  import opened Wrappers
  import opened Octets

  const HEADER_LEN: nat := 5         // FMTP_HEADER_LEN
  const MAX_DATA_LEN: nat := 10240   // FMTP_MAX_DATA_LEN
  const MAX_LEN: nat := HEADER_LEN + MAX_DATA_LEN

  const TYP_OPERATIONAL: Byte := 1
  const TYP_OPERATOR: Byte := 2
  const TYP_IDENTIFICATION: Byte := 3
  const TYP_SYSTEM: Byte := 4

  // ---------------------------------------------------------------------------
  // The heuristic

  /** The heuristic's answer; reading past the end of a short segment raises an exception instead. */
  datatype Verdict = Reject | Accept | Truncated

  /**
   * dissect_fmtp's checks, in order, each reading only the octets it needs:
   * version 2, reserved 0, length at most 10245, type 1 to 4.
   */
  function Heuristic(p: seq<Byte>): Verdict
  {
    if |p| < 1 then Truncated
    else if p[0] != 0x02 then Reject
    else if |p| < 2 then Truncated
    else if p[1] != 0x00 then Reject
    else if |p| < 4 then Truncated
    else if GetNtohs(p, 2) > MAX_LEN then Reject
    else if |p| < 5 then Truncated
    else if p[4] < 0x01 || p[4] > 0x04 then Reject
    else Accept
  }

  /** The four header conditions the heuristic demands. */
  predicate LooksLikeFmtp(p: seq<Byte>)
    requires |p| >= HEADER_LEN
  {
    p[0] == 0x02 && p[1] == 0x00 && GetNtohs(p, 2) <= MAX_LEN && 1 <= p[4] <= 4
  }

  /**
   * On a whole header the heuristic never raises, and it accepts exactly the
   * segments meeting all four conditions; each failed condition rejects.
   */
  lemma {:induction false} HeuristicIsConjunction(p: seq<Byte>)
    requires |p| >= HEADER_LEN
    ensures Heuristic(p) != Truncated
    ensures Heuristic(p) == Accept <==> LooksLikeFmtp(p)
    ensures p[0] != 0x02 ==> Heuristic(p) == Reject
    ensures p[1] != 0x00 ==> Heuristic(p) == Reject
    ensures GetNtohs(p, 2) > MAX_LEN ==> Heuristic(p) == Reject
    ensures p[4] < 1 || p[4] > 4 ==> Heuristic(p) == Reject
  {
  }

  /** Only the first five octets decide; a short segment is decided on what it has or raises. */
  lemma {:induction false} HeuristicReadsHeaderOnly(p: seq<Byte>, q: seq<Byte>)
    requires |p| >= HEADER_LEN && |q| >= HEADER_LEN && p[..HEADER_LEN] == q[..HEADER_LEN]
    ensures Heuristic(p) == Heuristic(q)
  {
    assert forall i :: 0 <= i < HEADER_LEN ==> p[i] == p[..HEADER_LEN][i] && q[i] == q[..HEADER_LEN][i];
  }

  /** A segment whose first octet is not version 2 is rejected however short it is. */
  lemma {:induction false} WrongVersionRejectsEarly(p: seq<Byte>)
    requires |p| >= 1 && p[0] != 0x02
    ensures Heuristic(p) == Reject
  {
  }

  // ---------------------------------------------------------------------------
  // Header and length

  /** The five header octets for a version, reserved octet, length and type. */
  function EncodeHeader(version: Byte, reserved: Byte, length: U16, typ: Byte): (h: seq<Byte>)
    ensures |h| == HEADER_LEN
  {
    [version, reserved] + PutNtohs(length) + [typ]
  }

  /** get_fmtp_message_len: the big-endian length of the PDU at `offset`, header included. */
  function GetFmtpMessageLen(p: seq<Byte>, offset: nat): (n: U16)
    requires offset + 4 <= |p|
    ensures n == (p[offset + 2] as int) * 0x100 + p[offset + 3]
  {
    GetNtohs(p, offset + 2)
  }

  /**
   * The length written into a header is the length read back, and a version 2
   * header is claimed exactly when its length and type are in range.
   */
  lemma {:induction false} HeaderRoundTrip(length: U16, typ: Byte, rest: seq<Byte>)
    ensures GetFmtpMessageLen(EncodeHeader(2, 0, length, typ) + rest, 0) == length
    ensures Heuristic(EncodeHeader(2, 0, length, typ) + rest) == Accept <==> length <= MAX_LEN && 1 <= typ <= 4
  {
    var p := EncodeHeader(2, 0, length, typ) + rest;
    assert p[2] == length / 0x100 && p[3] == length % 0x100 && p[4] == typ;
    NtohsRoundTrip(length, []);
  }

  // ---------------------------------------------------------------------------
  // Names

  /** One lower-case hexadecimal digit. */
  function HexDigit(d: nat): (c: char)
    requires d < 16
  {
    if d < 10 then ('0' as int + d) as char else ('a' as int + d - 10) as char
  }

  predicate IsHexDigit(c: char)
  {
    '0' <= c <= '9' || 'a' <= c <= 'f'
  }

  function DigitValue(c: char): (d: nat)
    requires IsHexDigit(c)
    ensures d < 16
  {
    if c <= '9' then c as int - '0' as int else c as int - 'a' as int + 10
  }

  /** `v` in hexadecimal with no leading zeros (one digit for zero). */
  function Hex(v: nat): (s: string)
    ensures |s| >= 1 && forall i :: 0 <= i < |s| ==> IsHexDigit(s[i])
    ensures v < 0x100 ==> |s| <= 2
  {
    if v < 16 then [HexDigit(v)] else Hex(v / 16) + [HexDigit(v % 16)]
  }

  /** The value of a string of hexadecimal digits. */
  function HexValue(s: string): nat
    requires forall i :: 0 <= i < |s| ==> IsHexDigit(s[i])
  {
    if s == [] then 0 else HexValue(s[..|s| - 1]) * 16 + DigitValue(s[|s| - 1])
  }

  /** `%02x`: hexadecimal, padded with a zero to at least two digits. */
  function Hex02(v: nat): (s: string)
    ensures |s| >= 2 && forall i :: 0 <= i < |s| ==> IsHexDigit(s[i])
    ensures v < 0x100 ==> |s| == 2
  {
    var h := Hex(v);
    if |h| < 2 then ['0'] + h else h
  }

  /** The digits written are the value read back. */
  lemma {:induction false} HexRoundTrip(v: nat)
    ensures HexValue(Hex(v)) == v
  {
    if v >= 16 {
      HexRoundTrip(v / 16);
      var s := Hex(v);
      assert s[..|s| - 1] == Hex(v / 16);
    }
  }

  lemma {:induction false} Hex02RoundTrip(v: nat)
    ensures HexValue(Hex02(v)) == v
  {
    HexRoundTrip(v);
    var h := Hex(v);
    if |h| < 2 {
      var s := ['0'] + h;
      assert s[..|s| - 1] == ['0'];
      assert HexValue(['0']) == HexValue([]) * 16 + 0;
    }
  }

  const UNKNOWN_PREFIX: string := "Unknown (0x"

  /** val_to_str's fallback "Unknown (0x%02x)". */
  function UnknownName(v: nat): string
  {
    UNKNOWN_PREFIX + Hex02(v) + ")"
  }

  /** The fallback text names its value: different values never share it. */
  lemma {:induction false} UnknownNameInjective(v: nat, w: nat)
    requires UnknownName(v) == UnknownName(w)
    ensures v == w
  {
    var s := UnknownName(v);
    assert s[|UNKNOWN_PREFIX|..|s| - 1] == Hex02(v);
    assert UnknownName(w)[|UNKNOWN_PREFIX|..|UnknownName(w)| - 1] == Hex02(w);
    Hex02RoundTrip(v);
    Hex02RoundTrip(w);
  }

  /** packet_type_names, with the fallback for every other type. */
  function TypeName(t: Byte): string
  {
    match t
    case 1 => "Operational message"
    case 2 => "Operator message"
    case 3 => "Identification message"
    case 4 => "System message"
    case _ => UnknownName(t)
  }

  /** The four types have their own names, and every other type has a distinct fallback. */
  lemma {:induction false} TypeNamesDistinct(t: Byte, t': Byte)
    ensures TypeName(t)[0] == 'U' <==> !(1 <= t <= 4)
    ensures TypeName(t) == TypeName(t') ==> t == t'
  {
    if TypeName(t) == TypeName(t') && !(1 <= t <= 4) && !(1 <= t' <= 4) {
      UnknownNameInjective(t, t');
    }
  }

  /** system_message_names, with the fallback for every other value. */
  function SystemMessageName(v: U16): string
  {
    match v
    case 0x3031 => "Startup"
    case 0x3030 => "Shutdown"
    case 0x3033 => "Heartbeat"
    case _ => UnknownName(v)
  }

  /** Only the three system messages are named; any other value shows its own hexadecimal fallback. */
  lemma {:induction false} SystemNamesDistinct(v: U16, v': U16)
    ensures SystemMessageName(v)[0] == 'U' <==> v !in {0x3030, 0x3031, 0x3033}
    ensures SystemMessageName(v) == SystemMessageName(v') ==> v == v'
  {
    if SystemMessageName(v) == SystemMessageName(v') && v !in {0x3030, 0x3031, 0x3033} && v' !in {0x3030, 0x3031, 0x3033} {
      UnknownNameInjective(v, v');
    }
  }

  // ---------------------------------------------------------------------------
  // One PDU

  /**
   * A PDU as handed over by the TCP reassembler: at least a header long, and
   * exactly as long as its length field says.
   */
  predicate WholePdu(pdu: seq<Byte>)
  {
    |pdu| >= HEADER_LEN && GetNtohs(pdu, 2) == |pdu|
  }

  /** tvb_get_ephemeral_string at offset 5 for packet_len - 5 octets: the payload after the header. */
  function PayloadText(pdu: seq<Byte>): (t: seq<Byte>)
    requires WholePdu(pdu)
    ensures |t| == GetFmtpMessageLen(pdu, 0) - HEADER_LEN
    ensures forall i :: 0 <= i < |t| ==> t[i] == pdu[HEADER_LEN + i]
  {
    pdu[HEADER_LEN..GetNtohs(pdu, 2)]
  }

  /** What a `%s` of a NUL-terminated copy shows: the octets before the first NUL. */
  function CString(s: seq<Byte>): (r: seq<Byte>)
    ensures r <= s && 0 !in r
    ensures |r| < |s| ==> s[|r|] == 0
  {
    if s == [] || s[0] == 0 then [] else [s[0]] + CString(s[1..])
  }

  function AsText(s: seq<Byte>): string
  {
    seq(|s|, i requires 0 <= i < |s| => s[i] as char)
  }

  /** The Info column of a PDU, or an exception when a System PDU has no system-message word. */
  function InfoColumn(pdu: seq<Byte>): (r: Result<string, Verdict>)
    requires WholePdu(pdu)
    ensures r.Err? <==> pdu[4] == TYP_SYSTEM && |pdu| < HEADER_LEN + 2
  {
    var t := pdu[4];
    if t == TYP_IDENTIFICATION then
      Ok(TypeName(t) + " (" + AsText(CString(PayloadText(pdu))) + ")")
    else if t == TYP_SYSTEM then
      if |pdu| < HEADER_LEN + 2 then Err(Truncated)
      else Ok(TypeName(t) + " (" + SystemMessageName(GetNtohs(pdu, HEADER_LEN)) + ")")
    else
      Ok(TypeName(t))
  }

  /** The text appended to the protocol item: the type name, then the payload text for Identification and System PDUs. */
  function ItemText(pdu: seq<Byte>): (r: string)
    requires WholePdu(pdu)
    ensures ", " + TypeName(pdu[4]) <= r
    ensures |r| > 2 + |TypeName(pdu[4])| <==> pdu[4] == TYP_IDENTIFICATION || pdu[4] == TYP_SYSTEM
  {
    var t := pdu[4];
    if t == TYP_IDENTIFICATION || t == TYP_SYSTEM then
      ", " + TypeName(t) + " (" + AsText(CString(PayloadText(pdu))) + ")"
    else
      ", " + TypeName(t)
  }

  /**
   * The protocol item repeats the Info column after ", " for every PDU but a
   * System one. A System PDU's item shows its payload as text, as the Info
   * column of an Identification PDU with the same payload would, where its
   * own Info column names the system message; the item text never raises.
   */
  lemma {:induction false} ItemTextMatchesInfo(pdu: seq<Byte>)
    requires WholePdu(pdu)
    ensures pdu[4] != TYP_SYSTEM ==> InfoColumn(pdu).Ok? && ItemText(pdu) == ", " + InfoColumn(pdu).value
    ensures pdu[4] == TYP_SYSTEM ==>
      var ident := pdu[4 := TYP_IDENTIFICATION];
      && WholePdu(ident)
      && ItemText(pdu)[2 + |TypeName(TYP_SYSTEM)|..] == InfoColumn(ident).value[|TypeName(TYP_IDENTIFICATION)|..]
  {
    var t := pdu[4];
    if t == TYP_SYSTEM {
      SystemItemText(pdu);
    } else if t == TYP_IDENTIFICATION {
      IdentificationItemText(pdu);
    } else {
      assert ItemText(pdu) == ", " + TypeName(t);
    }
  }

  /** An Identification PDU's item text is ", " and its Info column. */
  lemma {:induction false} IdentificationItemText(pdu: seq<Byte>)
    requires WholePdu(pdu) && pdu[4] == TYP_IDENTIFICATION
    ensures InfoColumn(pdu).Ok? && ItemText(pdu) == ", " + InfoColumn(pdu).value
  {
    var name, x := TypeName(TYP_IDENTIFICATION), AsText(CString(PayloadText(pdu)));
    assert ItemText(pdu) == ", " + name + " (" + x + ")";
    assert InfoColumn(pdu) == Ok(name + " (" + x + ")");
    ConcatAssoc(", ", name, " (", x, ")");
  }

  /** A System PDU's item text ends as the Info column of the same PDU typed Identification. */
  lemma {:induction false} SystemItemText(pdu: seq<Byte>)
    requires WholePdu(pdu) && pdu[4] == TYP_SYSTEM
    ensures var ident := pdu[4 := TYP_IDENTIFICATION];
      && WholePdu(ident)
      && ItemText(pdu)[2 + |TypeName(TYP_SYSTEM)|..] == InfoColumn(ident).value[|TypeName(TYP_IDENTIFICATION)|..]
  {
    var ident := pdu[4 := TYP_IDENTIFICATION];
    assert GetNtohs(ident, 2) == GetNtohs(pdu, 2);
    assert PayloadText(ident) == PayloadText(pdu);
    var x := " (" + AsText(CString(PayloadText(pdu))) + ")";
    var sys, id := TypeName(TYP_SYSTEM), TypeName(TYP_IDENTIFICATION);
    assert ItemText(pdu) == ", " + sys + x;
    assert InfoColumn(ident).value == id + x;
    ConcatTail(", " + sys, x);
    ConcatTail(id, x);
  }

  lemma {:induction false} ConcatTail(a: string, x: string)
    ensures (a + x)[|a|..] == x
  {
  }

  lemma {:induction false} ConcatAssoc(a: string, b: string, c: string, d: string, e: string)
    ensures a + b + c + d + e == a + (b + c + d + e)
  {
  }

  /**
   * The shown payload of an Identification or System PDU is the octets
   * from offset 5 up to the first NUL, never past the length field's end.
   */
  lemma {:induction false} PayloadShownUpToNul(pdu: seq<Byte>)
    requires WholePdu(pdu)
    ensures var shown := CString(PayloadText(pdu));
      && |shown| <= GetFmtpMessageLen(pdu, 0) - HEADER_LEN
      && (forall i :: 0 <= i < |shown| ==> shown[i] == pdu[HEADER_LEN + i] && shown[i] != 0)
      && (HEADER_LEN + |shown| < |pdu| ==> pdu[HEADER_LEN + |shown|] == 0)
  {
    var t := PayloadText(pdu);
    var shown := CString(t);
    forall i | 0 <= i < |shown| ensures shown[i] == pdu[HEADER_LEN + i] && shown[i] != 0 {
      assert shown[i] == t[i];
      assert shown[i] in shown;
    }
  }
}
