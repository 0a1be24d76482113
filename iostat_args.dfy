/**
 * The argument of tshark's `-z io,stat,<interval>[,<filter>,...]`: the
 * interval and its decimal precision, the comma-separated column filters, and
 * each column's `FUNC(field)` prefix with its field-type checks
 * (ui/cli/tap-iostat.c:40-66, 1109-1363).
 */
module IostatArgs {
  import opened Wrappers
  import opened Octets

  /** The statistic a column computes (CALC_TYPE_*). */
  datatype CalcType = Frames | Bytes | FramesAndBytes | Count | Sum | Min | Max | Avg | Load

  /** calc_type_table, in its order: the first name that prefixes a filter and is followed by '(' decides. */
  const CALC_TABLE: seq<(string, CalcType)> := [
    ("FRAMES", Frames),
    ("BYTES", Bytes),
    ("FRAMES BYTES", FramesAndBytes),
    ("COUNT", Count),
    ("SUM", Sum),
    ("MIN", Min),
    ("MAX", Max),
    ("AVG", Avg),
    ("LOAD", Load)
  ]

  /**
   * A registered field's type, grouped as the statistics treat it:
   * FT_UINT8..FT_UINT32, FT_UINT64, FT_INT8..FT_INT32, FT_INT64,
   * FT_FLOAT and FT_DOUBLE, FT_RELATIVE_TIME, and every other type.
   */
  datatype FieldType = Unsigned | Unsigned64 | Signed | Signed64 | Floating | RelativeTime | NonIntegral

  /** The field registry as far as it matters here: field names and their types. */
  type Registry = map<string, FieldType>

  // ---------------------------------------------------------------------------
  // Interval and precision

  const G_MAXINT32: nat := 0x7FFF_FFFF

  function Pow10(n: nat): (r: nat)
    ensures r >= 1
  {
    if n == 0 then 1 else 10 * Pow10(n - 1)
  }

  /**
   * The interval argument: 0 (the whole capture), or the interval in
   * microseconds as `(gint64)(interval_float * 1000000.0 + 0.5)` gives it.
   */
  datatype IntervalArg = EntireCapture | Micros(rounded: I64)

  /** The number of trailing decimal zeros of `v`, counting at most `cap`. */
  function TrailingZeros(v: nat, cap: nat): (z: nat)
    ensures z <= cap
  {
    if cap == 0 || v % 10 != 0 then 0 else 1 + TrailingZeros(v / 10, cap - 1)
  }

  /** The decimal precision of an interval in microseconds: six places less its trailing zeros. */
  function Precision(v: nat): (p: nat)
    ensures p <= 6
  {
    6 - TrailingZeros(v, 6)
  }

  lemma {:induction false} MulAssoc(x: int, y: int, z: int)
    ensures x * (z * y) == (x * y) * z
  {
  }

  lemma {:induction false} Pow10Add(a: nat, b: nat)
    ensures Pow10(a + b) == Pow10(a) * Pow10(b)
  {
    if a > 0 {
      Pow10Add(a - 1, b);
    }
  }

  lemma {:induction false} Pow10Seven()
    ensures Pow10(7) == 10000000
  {
    assert Pow10(1) == 10;
    assert Pow10(2) == 100;
    assert Pow10(3) == 1000;
    assert Pow10(4) == 10000;
    assert Pow10(5) == 100000;
    assert Pow10(6) == 1000000;
  }

  /** Multiplying by ten shifts divisibility by one power of ten. */
  lemma {:induction false} ModOfTens(w: nat, z: nat)
    ensures (10 * w) % Pow10(z + 1) == 10 * (w % Pow10(z))
  {
    var P := Pow10(z);
    var q, r := w / P, w % P;
    assert w == q * P + r;
    assert Pow10(z + 1) == 10 * P;
    assert 10 * w == q * (10 * P) + 10 * r;
    DivModUnique(10 * w, 10 * P, q, 10 * r);
  }

  /** A multiple of 10^a is a multiple of every smaller power of ten. */
  lemma {:induction false} DividesDown(v: nat, a: nat, b: nat)
    requires b <= a && v % Pow10(a) == 0
    ensures v % Pow10(b) == 0
  {
    Pow10Add(b, a - b);
    var A, B, C := Pow10(a), Pow10(b), Pow10(a - b);
    var k := v / A;
    assert v == k * A;
    MulAssoc(k, C, B);
    assert v == (k * C) * B;
    DivModUnique(v, B, k * C, 0);
  }

  /** `v` ends in `TrailingZeros(v, cap)` zeros, and in no more when the count stays below the cap. */
  lemma {:induction false} TrailingZerosMeaning(v: nat, cap: nat)
    ensures v % Pow10(TrailingZeros(v, cap)) == 0
    ensures TrailingZeros(v, cap) < cap ==> v % Pow10(TrailingZeros(v, cap) + 1) != 0
  {
    if cap > 0 && v % 10 == 0 {
      TrailingZerosMeaning(v / 10, cap - 1);
      var z := TrailingZeros(v / 10, cap - 1);
      assert v == 10 * (v / 10);
      ModOfTens(v / 10, z);
      ModOfTens(v / 10, z + 1);
    } else if v % 10 != 0 && cap > 0 {
      assert Pow10(1) == 10;
    }
  }

  /** The precision is exact: the interval is a multiple of 10^(6-p) and, for p > 0, not of 10^(7-p). */
  lemma {:induction false} PrecisionMeaning(v: nat)
    ensures v % Pow10(6 - Precision(v)) == 0
    ensures Precision(v) > 0 ==> v % Pow10(7 - Precision(v)) != 0
  {
    TrailingZerosMeaning(v, 6);
  }

  /** Those two facts pin the precision down: no other value has them. */
  lemma {:induction false} PrecisionUnique(v: nat, p: nat)
    requires p <= 6 && v % Pow10(6 - p) == 0 && (p > 0 ==> v % Pow10(7 - p) != 0)
    ensures p == Precision(v)
  {
    PrecisionMeaning(v);
    var P := Precision(v);
    if p < P {
      DividesDown(v, 6 - p, 7 - P);
    } else if p > P {
      DividesDown(v, 6 - P, 7 - p);
    }
  }

  /** The precision loop of iostat_init: strip a power of ten from 6 for every trailing zero, stopping at 10^6. */
  method IntervalPrecision(interval: U64) returns (prec: nat)
    ensures prec == Precision(interval)
    ensures prec <= 6 && interval % Pow10(6 - prec) == 0
    ensures prec > 0 ==> interval % Pow10(7 - prec) != 0
  {
    prec := 6;
    var i := 10;
    Pow10Seven();
    while i < 10000000
      invariant 0 <= prec <= 6 && i == Pow10(7 - prec)
      invariant interval % Pow10(6 - prec) == 0
      decreases prec
    {
      if interval % i > 0 {
        break;
      }
      prec := prec - 1;
      i := i * 10;
    }
    PrecisionUnique(interval, prec);
  }

  datatype IntervalError = IntervalTooSmall

  /**
   * The interval setting of iostat_init as written: the rounded microseconds
   * are stored in a guint64 and only then compared with 1, so a negative
   * interval wraps to a huge one and is accepted.
   */
  function IntervalAsWritten(arg: IntervalArg): (r: Result<(U64, nat), IntervalError>)
    ensures arg.EntireCapture? ==> r == Ok((G_MAXINT32, 0))
    ensures arg.Micros? ==> (r.Ok? <==> ToU64(arg.rounded) >= 1)
  {
    match arg
    case EntireCapture => Ok((G_MAXINT32, 0))
    case Micros(us) =>
      var iv := ToU64(us);
      if iv < 1 then Err(IntervalTooSmall) else Ok((iv, Precision(iv)))
  }

  /**
   * An interval of minus one second is accepted, as about 584542 years:
   * `(gint64)(-1.0 * 1000000.0 + 0.5)` truncates -999999.5 toward zero to
   * -999999, which the guint64 stores as 2^64 - 999999.
   */
  lemma {:induction false} NegativeIntervalAccepted()
    ensures IntervalAsWritten(Micros(-999999)).Ok?
    ensures IntervalAsWritten(Micros(-999999)).value.0 == 0x1_0000_0000_0000_0000 - 999999
  {
  }

  /** The interval setting with the intended check: the signed interval must be at least one microsecond. */
  function Interval(arg: IntervalArg): (r: Result<(U64, nat), IntervalError>)
    ensures arg.EntireCapture? ==> r == Ok((G_MAXINT32, 0))
    ensures arg.Micros? ==> (r.Ok? <==> arg.rounded >= 1)
    ensures r.Ok? ==> r.value.0 >= 1 && r.value.1 <= 6
    ensures r.Ok? && arg.Micros? ==> r.value.0 == arg.rounded && r.value.1 == Precision(arg.rounded)
  {
    match arg
    case EntireCapture => Ok((G_MAXINT32, 0))
    case Micros(us) => if us < 1 then Err(IntervalTooSmall) else Ok((us, Precision(us)))
  }

  /** The two agree on every interval except the negative ones, which only the intended check refuses. */
  lemma {:induction false} IntervalFixAgrees(arg: IntervalArg)
    ensures arg.EntireCapture? || arg.rounded >= 0 ==> Interval(arg) == IntervalAsWritten(arg)
    ensures arg.Micros? && arg.rounded < 0 ==> Interval(arg).Err? && IntervalAsWritten(arg).Ok?
  {
  }

  // ---------------------------------------------------------------------------
  // Splitting the filters

  /** strchr: the first position of `c` in `s` at or after `from`. */
  function IndexOf(s: string, from: nat, c: char): (r: Option<nat>)
    requires from <= |s|
    ensures r.Some? ==> from <= r.value < |s| && s[r.value] == c
    decreases |s| - from
  {
    if from == |s| then None
    else if s[from] == c then Some(from)
    else IndexOf(s, from + 1, c)
  }

  /** strchr finds the first occurrence: there is none before the position found, and none at all when it finds nothing. */
  lemma {:induction false} IndexOfNoEarlier(s: string, from: nat, c: char)
    requires from <= |s|
    ensures IndexOf(s, from, c).Some? ==> c !in s[from..IndexOf(s, from, c).value]
    ensures IndexOf(s, from, c).None? ==> c !in s[from..]
    decreases |s| - from
  {
    if from < |s| && s[from] != c {
      IndexOfNoEarlier(s, from + 1, c);
      var r := IndexOf(s, from + 1, c);
      assert s[from..] == [s[from]] + s[from + 1..];
      assert r.Some? ==> s[from..r.value] == [s[from]] + s[from + 1..r.value];
    }
  }

  function CountCommas(s: string): nat
  {
    if s == [] then 0 else (if s[0] == ',' then 1 else 0) + CountCommas(s[1..])
  }

  /** num_cols: one column, plus one per comma when the filter text is not empty. */
  function NumCols(filters: Option<string>): nat
  {
    if filters.Some? && |filters.value| > 0 then 1 + CountCommas(filters.value) else 1
  }

  lemma {:induction false} CountCommasSplit(s: string, k: nat)
    requires k <= |s|
    ensures CountCommas(s) == CountCommas(s[..k]) + CountCommas(s[k..])
  {
    if k > 0 {
      assert s[1..][..k - 1] == s[1..k];
      assert s[1..][k - 1..] == s[k..];
      CountCommasSplit(s[1..], k - 1);
      assert s[..k][1..] == s[1..k];
    } else {
      assert s[..0] == [];
    }
  }

  lemma {:induction false} NoCommaNoCount(s: string)
    requires ',' !in s
    ensures CountCommas(s) == 0
  {
    if s != [] {
      assert s[1..] == s[1..];
      assert forall x :: x in s[1..] ==> x in s;
      NoCommaNoCount(s[1..]);
    }
  }

  /** The text from `from` is the piece before the next comma, the comma, and the text after it. */
  lemma {:induction false} CommaStep(s: string, from: nat, p: nat)
    requires from <= p < |s| && s[p] == ',' && ',' !in s[from..p]
    ensures s[from..] == s[from..p] + "," + s[p + 1..]
    ensures CountCommas(s[from..]) == 1 + CountCommas(s[p + 1..])
  {
    var t := s[from..];
    assert t[..p - from] == s[from..p];
    assert t[p - from..] == [','] + s[p + 1..] by {
      assert t[p - from..] == s[p..];
      assert s[p..] == [s[p]] + s[p + 1..];
    }
    assert t == t[..p - from] + t[p - from..];
    CountCommasSplit(t, p - from);
    NoCommaNoCount(s[from..p]);
  }

  /** num_cols as iostat_init computes it: one column, plus what the comma-counting loop finds. */
  method CountColumns(filters: Option<string>) returns (n: nat)
    ensures n == NumCols(filters)
  {
    n := 1;
    if filters.Some? && |filters.value| > 0 {
      var commas := CountCommasLoop(filters.value);
      n := n + commas;
    }
  }

  /** The comma-counting loop: one strchr after another. */
  method CountCommasLoop(s: string) returns (n: nat)
    ensures n == CountCommas(s)
  {
    n := 0;
    var from := 0;
    var pos := IndexOf(s, 0, ',');
    assert s[0..] == s;
    while pos.Some?
      invariant 0 <= from <= |s| && pos == IndexOf(s, from, ',')
      invariant n + CountCommas(s[from..]) == CountCommas(s)
      decreases |s| - from
    {
      IndexOfNoEarlier(s, from, ',');
      CommaStep(s, from, pos.value);
      n := n + 1;
      from := pos.value + 1;
      pos := IndexOf(s, from, ',');
    }
    IndexOfNoEarlier(s, from, ',');
    NoCommaNoCount(s[from..]);
  }

  /** The text between commas, in order (the last piece runs to the end). */
  function RawPieces(s: string, from: nat): (r: seq<string>)
    requires from <= |s|
    ensures |r| >= 1
    decreases |s| - from
  {
    match IndexOf(s, from, ',')
    case None => [s[from..]]
    case Some(p) => [s[from..p]] + RawPieces(s, p + 1)
  }

  function Join(pieces: seq<string>): string
  {
    if |pieces| <= 1 then (if pieces == [] then "" else pieces[0]) else pieces[0] + "," + Join(pieces[1..])
  }

  /** Splitting at the commas loses nothing: there is one piece per comma plus one, and joining gives the text back. */
  lemma {:induction false} RawPiecesRoundTrip(s: string, from: nat)
    requires from <= |s|
    ensures |RawPieces(s, from)| == 1 + CountCommas(s[from..])
    ensures Join(RawPieces(s, from)) == s[from..]
    ensures forall i :: 0 <= i < |RawPieces(s, from)| ==> ',' !in RawPieces(s, from)[i]
    decreases |s| - from
  {
    match IndexOf(s, from, ',')
    case None =>
      IndexOfNoEarlier(s, from, ',');
      NoCommaNoCount(s[from..]);
    case Some(p) =>
      RawPiecesRoundTrip(s, p + 1);
      RawPiecesStep(s, from, p, p + 1);
  }

  /** One comma more: the piece before it joins the pieces after it. */
  lemma {:induction false} RawPiecesStep(s: string, from: nat, p: nat, q: nat)
    requires from <= |s| && IndexOf(s, from, ',') == Some(p) && q == p + 1
    requires |RawPieces(s, q)| == 1 + CountCommas(s[q..])
    requires Join(RawPieces(s, q)) == s[q..]
    requires forall i :: 0 <= i < |RawPieces(s, q)| ==> ',' !in RawPieces(s, q)[i]
    ensures |RawPieces(s, from)| == 1 + CountCommas(s[from..])
    ensures Join(RawPieces(s, from)) == s[from..]
    ensures forall i :: 0 <= i < |RawPieces(s, from)| ==> ',' !in RawPieces(s, from)[i]
  {
    IndexOfNoEarlier(s, from, ',');
    CommaStep(s, from, p);
    var rest := RawPieces(s, q);
    var all := RawPieces(s, from);
    assert all == [s[from..p]] + rest;
    assert all[1..] == rest;
    assert Join(all) == s[from..p] + "," + Join(rest);
    forall i | 0 <= i < |all|
      ensures ',' !in all[i]
    {
      if i > 0 {
        assert all[i] == rest[i - 1];
      }
    }
  }

  /** g_ascii_isspace. */
  predicate IsSpace(c: char)
  {
    c == ' ' || c == '\t' || c == '\n' || c == '\r' || c == '\U{B}' || c == '\U{C}'
  }

  /** The number of white-space characters `s` starts with. */
  function LeadingSpaces(s: string): (k: nat)
    ensures k <= |s|
  {
    if s == [] || !IsSpace(s[0]) then 0 else 1 + LeadingSpaces(s[1..])
  }

  /** The number of white-space characters `s` ends with. */
  function TrailingSpaces(s: string): (k: nat)
    ensures k <= |s|
  {
    if s == [] || !IsSpace(s[|s| - 1]) then 0 else 1 + TrailingSpaces(s[..|s| - 1])
  }

  /** LeadingSpaces counts the longest run of white space at the front. */
  lemma {:induction false} LeadingSpacesRun(s: string)
    ensures forall i :: 0 <= i < LeadingSpaces(s) ==> IsSpace(s[i])
    ensures LeadingSpaces(s) < |s| ==> !IsSpace(s[LeadingSpaces(s)])
  {
    if s != [] && IsSpace(s[0]) {
      LeadingSpacesRun(s[1..]);
    }
  }

  /** TrailingSpaces counts the longest run of white space at the back. */
  lemma {:induction false} TrailingSpacesRun(s: string)
    ensures forall i :: |s| - TrailingSpaces(s) <= i < |s| ==> IsSpace(s[i])
    ensures TrailingSpaces(s) < |s| ==> !IsSpace(s[|s| - TrailingSpaces(s) - 1])
  {
    if s != [] && IsSpace(s[|s| - 1]) {
      TrailingSpacesRun(s[..|s| - 1]);
    }
  }

  /** g_strstrip: the text without its leading and trailing white space. */
  function Strip(s: string): (r: string)
    ensures |r| <= |s|
  {
    var t := s[LeadingSpaces(s)..];
    t[..|t| - TrailingSpaces(t)]
  }

  /**
   * Strip keeps one contiguous part of the text: what it drops in front and
   * behind is white space, and what it keeps neither starts nor ends with it.
   */
  lemma {:induction false} StripTrims(s: string)
    ensures var r, a := Strip(s), LeadingSpaces(s);
      && a + |r| <= |s| && r == s[a..a + |r|]
      && (forall i :: 0 <= i < a ==> IsSpace(s[i]))
      && (forall i :: a + |r| <= i < |s| ==> IsSpace(s[i]))
      && (r == [] || (!IsSpace(r[0]) && !IsSpace(r[|r| - 1])))
  {
    var a := LeadingSpaces(s);
    var t := s[a..];
    LeadingSpacesRun(s);
    TrailingSpacesRun(t);
    var r := Strip(s);
    assert r == t[..|t| - TrailingSpaces(t)];
    assert forall i :: a + |r| <= i < |s| ==> s[i] == t[i - a];
    if r != [] {
      assert r[0] == s[a];
      assert r[|r| - 1] == t[|t| - TrailingSpaces(t) - 1];
    }
  }

  /**
   * The filter a piece is registered with: an empty piece gives none; the
   * last piece gives none when it strips to nothing; any other piece is
   * stripped and kept even when nothing remains.
   */
  function PieceFilter(piece: string, last: bool): Option<string>
  {
    if piece == [] then None
    else if last && Strip(piece) == [] then None
    else Some(Strip(piece))
  }

  /** The filters of the pieces from `from` on, the last piece marked as last. */
  function FiltersFrom(s: string, from: nat): (r: seq<Option<string>>)
    requires from <= |s|
    decreases |s| - from
  {
    match IndexOf(s, from, ',')
    case None => [PieceFilter(s[from..], true)]
    case Some(p) => [PieceFilter(s[from..p], false)] + FiltersFrom(s, p + 1)
  }

  /** The filter of every column, in column order. */
  function ColumnFilters(filters: Option<string>): (r: seq<Option<string>>)
  {
    if filters.None? || filters.value == [] then [None] else FiltersFrom(filters.value, 0)
  }

  /** Each column's filter is its comma-separated piece, stripped as PieceFilter says. */
  lemma {:induction false} FiltersArePieces(s: string, from: nat)
    requires from <= |s|
    ensures var pieces := RawPieces(s, from);
      && |FiltersFrom(s, from)| == |pieces|
      && forall i :: 0 <= i < |pieces| ==> FiltersFrom(s, from)[i] == PieceFilter(pieces[i], i == |pieces| - 1)
    decreases |s| - from
  {
    match IndexOf(s, from, ',')
    case None =>
    case Some(p) =>
      FiltersArePieces(s, p + 1);
  }

  /** The split loop registers exactly num_cols columns, so every column of the items array is set up. */
  lemma {:induction false} ColumnsMatchCount(filters: Option<string>)
    ensures |ColumnFilters(filters)| == NumCols(filters)
  {
    if filters.Some? && filters.value != [] {
      RawPiecesRoundTrip(filters.value, 0);
      FiltersArePieces(filters.value, 0);
      assert filters.value[0..] == filters.value;
    }
  }

  /** The splitting do-while loop of iostat_init. */
  method SplitFilters(filters: Option<string>) returns (cols: seq<Option<string>>)
    ensures cols == ColumnFilters(filters)
  {
    if filters.None? || filters.value == [] {
      return [None];
    }
    cols := SplitText(filters.value);
  }

  /** The loop itself: one strchr after another, each piece's filter appended in turn. */
  method SplitText(s: string) returns (cols: seq<Option<string>>)
    ensures cols == FiltersFrom(s, 0)
  {
    ghost var all := Split(s, 0, []);
    cols := [];
    var from := 0;
    var pos := IndexOf(s, 0, ',');
    while pos.Some?
      invariant 0 <= from <= |s| && pos == IndexOf(s, from, ',')
      invariant Split(s, from, cols) == all
      decreases |s| - from
    {
      cols, from, pos := AddPiece(s, from, pos.value, cols, all);
    }
    cols := AddLastPiece(s, from, cols, all);
    SplitIsFilters(s, 0, []);
  }

  /** The piece before the comma at `p` (none when it is empty), stripped; then the search for the next comma. */
  method AddPiece(s: string, from: nat, p: nat, cols: seq<Option<string>>, ghost all: seq<Option<string>>)
    returns (cols': seq<Option<string>>, from': nat, pos': Option<nat>)
    requires from <= |s| && IndexOf(s, from, ',') == Some(p) && Split(s, from, cols) == all
    ensures from < from' <= |s| && pos' == IndexOf(s, from', ',')
    ensures Split(s, from', cols') == all
  {
    SplitNext(s, from, cols, p);
    cols' := cols + [PieceFilter(s[from..p], false)];
    from' := p + 1;
    pos' := IndexOf(s, from', ',');
  }

  /** The last piece (none when it strips to nothing). */
  method AddLastPiece(s: string, from: nat, cols: seq<Option<string>>, ghost all: seq<Option<string>>)
    returns (cols': seq<Option<string>>)
    requires from <= |s| && IndexOf(s, from, ',') == None && Split(s, from, cols) == all
    ensures cols' == all
  {
    SplitLast(s, from, cols);
    cols' := cols + [PieceFilter(s[from..], true)];
  }

  /** The split loop's state after the comma search from `from`, with `cols` collected so far. */
  function Split(s: string, from: nat, cols: seq<Option<string>>): seq<Option<string>>
    requires from <= |s|
    decreases |s| - from
  {
    match IndexOf(s, from, ',')
    case None => cols + [PieceFilter(s[from..], true)]
    case Some(p) => Split(s, p + 1, cols + [PieceFilter(s[from..p], false)])
  }

  /** Running the loop from any state finishes the column list with the filters of the remaining pieces. */
  lemma {:induction false} SplitIsFilters(s: string, from: nat, cols: seq<Option<string>>)
    requires from <= |s|
    ensures Split(s, from, cols) == cols + FiltersFrom(s, from)
    decreases |s| - from
  {
    var i := IndexOf(s, from, ',');
    if i.Some? {
      var p := i.value;
      var piece := [PieceFilter(s[from..p], false)];
      SplitNext(s, from, cols, p);
      SplitIsFilters(s, p + 1, cols + piece);
      AppendAssoc(cols, piece, FiltersFrom(s, p + 1));
    }
  }

  /** One round of the loop, in both definitions: the piece before the comma at `p`. */
  lemma {:induction false} SplitNext(s: string, from: nat, cols: seq<Option<string>>, p: nat)
    requires from <= |s| && IndexOf(s, from, ',') == Some(p)
    ensures Split(s, from, cols) == Split(s, p + 1, cols + [PieceFilter(s[from..p], false)])
    ensures FiltersFrom(s, from) == [PieceFilter(s[from..p], false)] + FiltersFrom(s, p + 1)
  {
  }

  /** The last round of the loop: no comma is left, and the rest of the text is the last piece. */
  lemma {:induction false} SplitLast(s: string, from: nat, cols: seq<Option<string>>)
    requires from <= |s| && IndexOf(s, from, ',') == None
    ensures Split(s, from, cols) == cols + [PieceFilter(s[from..], true)]
  {
  }

  lemma {:induction false} AppendAssoc<T>(a: seq<T>, b: seq<T>, c: seq<T>)
    ensures a + (b + c) == (a + b) + c
  {
  }

  // ---------------------------------------------------------------------------
  // The FUNC(field) prefix of one column

  /** A column of the table: its statistic, its field (with the field's type) and the filter its tap listens with. */
  datatype ColumnSpec = ColumnSpec(stat: CalcType, field: Option<(string, FieldType)>, tapFilter: Option<string>)

  /** The exit(10) reasons of register_io_tap. */
  datatype TapError =
    | MissingCloseParen
    | FieldNotAllowed(func: string)
    | FieldNameMissing(func: string)
    | NoSuchField(field: string)
    | FloatUnsupported(field: string, func: string)
    | RelTimeUnsupported(field: string, func: string)
    | NotIntegral(field: string, func: string)

  /** Where the table scan stopped: the statistic, the filter, the field looked up, and the entry it broke at. */
  datatype Scan = Scan(stat: CalcType, tapFilter: Option<string>, field: Option<(string, FieldType)>, entry: nat)

  predicate NeedsNoField(c: CalcType)
  {
    c == Frames || c == Bytes
  }

  predicate StartsWith(s: string, prefix: string)
  {
    |prefix| <= |s| && s[..|prefix|] == prefix
  }

  /**
   * The loop over calc_type_table from entry `j`. A name that prefixes the
   * filter sets the statistic; followed by '(' it also ends the loop, taking
   * the text up to the first ')' as the field and the rest as the filter. An
   * entry that does not match while the statistic is FRAMES or BYTES empties
   * the filter.
   */
  function ScanTable(filter: Option<string>, j: nat, stat: CalcType, flt: Option<string>, registry: Registry): (r: Result<Scan, TapError>)
    requires j <= |CALC_TABLE|
    ensures r.Ok? ==> r.value.entry < |CALC_TABLE| || r.value.field.None?
    decreases |CALC_TABLE| - j
  {
    if j == |CALC_TABLE| then Ok(Scan(stat, flt, None, j))
    else
      var name := CALC_TABLE[j].0;
      var ct := CALC_TABLE[j].1;
      if filter.Some? && StartsWith(filter.value, name) then
        var f := filter.value;
        if |f| > |name| && f[|name|] == '(' then
          var p := |name| + 1;
          match IndexOf(f, p, ')')
          case None => Err(MissingCloseParen)
          case Some(q) =>
            if NeedsNoField(ct) && q != p then Err(FieldNotAllowed(name))
            else if !NeedsNoField(ct) && q == p then Err(FieldNameMissing(name))
            else if NeedsNoField(ct) then Ok(Scan(ct, Some(f[q + 1..]), None, j))
            else if f[p..q] !in registry then Err(NoSuchField(f[p..q]))
            else Ok(Scan(ct, Some(f[q + 1..]), Some((f[p..q], registry[f[p..q]])), j))
        else
          ScanTable(filter, j + 1, ct, flt, registry)
      else
        ScanTable(filter, j + 1, stat, if NeedsNoField(stat) then Some("") else flt, registry)
  }

  /** The field-type check: which statistics a field of each type supports. */
  function CheckFieldType(stat: CalcType, field: string, ft: FieldType, func: string): (r: Option<TapError>)
  {
    if stat == Bytes || stat == Frames || stat == FramesAndBytes then None
    else
      match ft
      case Floating => if stat in {Sum, Count, Max, Min, Avg} then None else Some(FloatUnsupported(field, func))
      case RelativeTime => if stat in {Sum, Count, Max, Min, Avg, Load} then None else Some(RelTimeUnsupported(field, func))
      case NonIntegral => if stat == Count then None else Some(NotIntegral(field, func))
      case _ => None
  }

  /** register_io_tap for one column filter (NULL as None). */
  function RegisterIoTap(filter: Option<string>, registry: Registry): (r: Result<ColumnSpec, TapError>)
  {
    match ScanTable(filter, 0, FramesAndBytes, filter, registry)
    case Err(e) => Err(e)
    case Ok(scan) =>
      if scan.field.Some? && CheckFieldType(scan.stat, scan.field.value.0, scan.field.value.1, CALC_TABLE[scan.entry].0).Some? then
        Err(CheckFieldType(scan.stat, scan.field.value.0, scan.field.value.1, CALC_TABLE[scan.entry].0).value)
      else Ok(ColumnSpec(scan.stat, scan.field, scan.tapFilter))
  }

  /** register_io_tap: the table loop, then the type check of the field it found. */
  method ParseColumn(filter: Option<string>, registry: Registry) returns (r: Result<ColumnSpec, TapError>)
    ensures r == RegisterIoTap(filter, registry)
  {
    var scan := ScanLoop(filter, registry);
    if scan.Err? {
      return Err(scan.error);
    }
    var sc := scan.value;
    if sc.field.Some? {
      var e := CheckFieldType(sc.stat, sc.field.value.0, sc.field.value.1, CALC_TABLE[sc.entry].0);
      if e.Some? {
        return Err(e.value);
      }
    }
    r := Ok(ColumnSpec(sc.stat, sc.field, sc.tapFilter));
  }

  /** The loop over calc_type_table in register_io_tap; it breaks at the first entry called as `name(`. */
  method ScanLoop(filter: Option<string>, registry: Registry) returns (r: Result<Scan, TapError>)
    ensures r == ScanTable(filter, 0, FramesAndBytes, filter, registry)
  {
    ghost var all := ScanTable(filter, 0, FramesAndBytes, filter, registry);
    var stat := FramesAndBytes;
    var flt := filter;
    var j := 0;
    while j < |CALC_TABLE| && !CallAt(filter, j)
      invariant 0 <= j <= |CALC_TABLE|
      invariant ScanTable(filter, j, stat, flt, registry) == all
    {
      stat, flt := PassEntry(filter, j, stat, flt, registry, all);
      j := j + 1;
    }
    r := EndScan(filter, j, stat, flt, registry, all);
  }

  /** After the loop: the call found, or the end of the table with the statistic and filter as they stand. */
  method EndScan(filter: Option<string>, j: nat, stat: CalcType, flt: Option<string>, registry: Registry,
                 ghost all: Result<Scan, TapError>)
    returns (r: Result<Scan, TapError>)
    requires j <= |CALC_TABLE| && (j < |CALC_TABLE| ==> CallAt(filter, j))
    requires ScanTable(filter, j, stat, flt, registry) == all
    ensures r == all
  {
    if j < |CALC_TABLE| {
      r := ScanCall(filter.value, j, registry);
    } else {
      r := Ok(Scan(stat, flt, None, j));
    }
  }

  /** An entry not called as `name(`: a matching name sets the statistic, a FRAMES or BYTES statistic empties the filter. */
  method PassEntry(filter: Option<string>, j: nat, stat: CalcType, flt: Option<string>, registry: Registry,
                   ghost all: Result<Scan, TapError>)
    returns (stat': CalcType, flt': Option<string>)
    requires j < |CALC_TABLE| && !CallAt(filter, j) && ScanTable(filter, j, stat, flt, registry) == all
    ensures ScanTable(filter, j + 1, stat', flt', registry) == all
  {
    ScanPasses(filter, j, stat, flt, registry);
    stat', flt' := stat, flt;
    if filter.Some? && StartsWith(filter.value, CALC_TABLE[j].0) {
      stat' := CALC_TABLE[j].1;
    } else if NeedsNoField(stat) {
      flt' := Some("");
    }
  }

  /** The filter starts with entry j's name followed by '('. */
  predicate CallAt(filter: Option<string>, j: nat)
    requires j < |CALC_TABLE|
  {
    filter.Some? && StartsWith(filter.value, CALC_TABLE[j].0)
    && |filter.value| > |CALC_TABLE[j].0| && filter.value[|CALC_TABLE[j].0|] == '('
  }

  /** Entry j's name followed by '(': the field up to the first ')', checked against the entry, and the rest as filter. */
  method ScanCall(f: string, j: nat, registry: Registry) returns (r: Result<Scan, TapError>)
    requires j < |CALC_TABLE| && StartsWith(f, CALC_TABLE[j].0)
    requires |f| > |CALC_TABLE[j].0| && f[|CALC_TABLE[j].0|] == '('
    ensures forall stat, flt :: r == ScanTable(Some(f), j, stat, flt, registry)
  {
    var name := CALC_TABLE[j].0;
    var stat := CALC_TABLE[j].1;
    var p := |name| + 1;
    var paren := IndexOf(f, p, ')');
    if paren.None? {
      return Err(MissingCloseParen);
    }
    var q := paren.value;
    if NeedsNoField(stat) {
      if q != p {
        return Err(FieldNotAllowed(name));
      }
      return Ok(Scan(stat, Some(f[q + 1..]), None, j));
    }
    if q == p {
      return Err(FieldNameMissing(name));
    }
    if f[p..q] !in registry {
      return Err(NoSuchField(f[p..q]));
    }
    r := Ok(Scan(stat, Some(f[q + 1..]), Some((f[p..q], registry[f[p..q]])), j));
  }

  // ---------------------------------------------------------------------------
  // Properties of the column syntax

  /** No filter: the column counts frames and bytes of every frame. */
  lemma {:induction false} DefaultIsFramesAndBytes(registry: Registry)
    ensures RegisterIoTap(None, registry) == Ok(ColumnSpec(FramesAndBytes, None, None))
  {
    var s := ScanTable(None, 0, FramesAndBytes, None, registry);
  }

  /** The type rules of the field check, for a statistic that takes a field. */
  lemma {:induction false} FieldTypeRules(stat: CalcType, field: string, ft: FieldType, func: string)
    requires !(stat == Frames || stat == Bytes || stat == FramesAndBytes)
    ensures ft in {Unsigned, Unsigned64, Signed, Signed64} ==> CheckFieldType(stat, field, ft, func).None?
    ensures ft == Floating ==> (CheckFieldType(stat, field, ft, func).None? <==> stat in {Sum, Count, Max, Min, Avg})
    ensures ft == RelativeTime ==> (CheckFieldType(stat, field, ft, func).None? <==> stat in {Sum, Count, Max, Min, Avg, Load})
    ensures ft == NonIntegral ==> (CheckFieldType(stat, field, ft, func).None? <==> stat == Count)
  {
  }

  /** The table's names: no '(' in any, and first characters that tell apart all but FRAMES/FRAMES BYTES and MIN/MAX. */
  lemma {:induction false} TableNames(k: nat, j: nat)
    requires k < j < |CALC_TABLE|
    ensures |CALC_TABLE[k].0| >= 3 && |CALC_TABLE[j].0| >= 3 && '(' !in CALC_TABLE[k].0 && '(' !in CALC_TABLE[j].0
    ensures CALC_TABLE[k].0[0] == CALC_TABLE[j].0[0] ==> (k == 0 && j == 2) || (k == 5 && j == 6)
    ensures k == 0 && j == 2 ==> CALC_TABLE[j].0[6] == ' '
    ensures k == 5 && j == 6 ==> CALC_TABLE[k].0[1] != CALC_TABLE[j].0[1]
  {
  }

  /** No table name followed by '(' starts another entry's call `name(`: FRAMES meets a space in FRAMES BYTES. */
  lemma {:induction false} CallPrefixes(j: nat, k: nat, rest: string)
    requires k < j < |CALC_TABLE|
    ensures !CallAt(Some(CALC_TABLE[j].0 + "(" + rest), k)
  {
    var n, m := CALC_TABLE[j].0, CALC_TABLE[k].0;
    var s := n + "(" + rest;
    TableNames(k, j);
    assert s[0] == n[0] && s[1] == n[1];
    if |m| <= |s| && m[0] != n[0] {
      assert s[..|m|][0] != m[0];
    } else if |m| <= |s| && k == 5 {
      assert s[..|m|][1] != m[1];
    } else if |m| <= |s| {
      assert s[|m|] == n[6] == ' ';
    }
  }

  /**
   * Scanning a filter that begins with entry j's name and '(' reaches entry j
   * with the scan still going, and there the statistic and filter gathered
   * so far no longer matter: the result is that of the scan from entry j in
   * any state.
   */
  lemma {:induction false} ScanReachesCall(j: nat, rest: string, k: nat, stat: CalcType, flt: Option<string>,
                                           stat': CalcType, flt': Option<string>, registry: Registry)
    requires k <= j < |CALC_TABLE|
    ensures ScanTable(Some(CALC_TABLE[j].0 + "(" + rest), k, stat, flt, registry)
         == ScanTable(Some(CALC_TABLE[j].0 + "(" + rest), j, stat', flt', registry)
    decreases j - k
  {
    var name := CALC_TABLE[j].0;
    var s := name + "(" + rest;
    if k == j {
      assert s[..|name|] == name && s[|name|] == '(';
    } else {
      CallPrefixes(j, k, rest);
      ScanPasses(Some(s), k, stat, flt, registry);
      var next := Passed(Some(s), k, stat, flt);
      ScanReachesCall(j, rest, k + 1, next.0, next.1, stat', flt', registry);
    }
  }

  /** The statistic and filter after entry k when it is not called: a matching name sets the statistic, any other empties the filter of FRAMES and BYTES. */
  function Passed(filter: Option<string>, k: nat, stat: CalcType, flt: Option<string>): (CalcType, Option<string>)
    requires k < |CALC_TABLE|
  {
    if filter.Some? && StartsWith(filter.value, CALC_TABLE[k].0) then (CALC_TABLE[k].1, flt)
    else (stat, if NeedsNoField(stat) then Some("") else flt)
  }

  /** An entry whose name is not followed by '(' in the filter passes the scan on to the next entry. */
  lemma {:induction false} ScanPasses(filter: Option<string>, k: nat, stat: CalcType, flt: Option<string>, registry: Registry)
    requires k < |CALC_TABLE| && !CallAt(filter, k)
    ensures var next := Passed(filter, k, stat, flt);
      ScanTable(filter, k, stat, flt, registry) == ScanTable(filter, k + 1, next.0, next.1, registry)
  {
  }

  /**
   * The call syntax `NAME(field)rest`, field without ')', read back: FRAMES
   * and BYTES take no field, every other statistic needs one that is
   * registered and of a supported type, and the text after ')' becomes the
   * column's filter.
   */
  lemma {:induction false} CallSyntax(j: nat, field: string, rest: string, registry: Registry)
    requires j < |CALC_TABLE| && ')' !in field
    ensures var name := CALC_TABLE[j].0;
      var ct := CALC_TABLE[j].1;
      var r := RegisterIoTap(Some(name + "(" + field + ")" + rest), registry);
      && (NeedsNoField(ct) && field == "" ==> r == Ok(ColumnSpec(ct, None, Some(rest))))
      && (NeedsNoField(ct) && field != "" ==> r == Err(FieldNotAllowed(name)))
      && (!NeedsNoField(ct) && field == "" ==> r == Err(FieldNameMissing(name)))
      && (!NeedsNoField(ct) && field != "" && field !in registry ==> r == Err(NoSuchField(field)))
      && (!NeedsNoField(ct) && field != "" && field in registry ==>
            var check := CheckFieldType(ct, field, registry[field], name);
            r == if check.Some? then Err(check.value) else Ok(ColumnSpec(ct, Some((field, registry[field])), Some(rest))))
  {
    CallScan(j, field, rest, registry);
  }

  /** The scan stops at the entry called, with the field between the parentheses and the rest as filter. */
  lemma {:induction false} CallScan(j: nat, field: string, rest: string, registry: Registry)
    requires j < |CALC_TABLE| && ')' !in field
    ensures var name := CALC_TABLE[j].0;
      var ct := CALC_TABLE[j].1;
      var f := Some(name + "(" + field + ")" + rest);
      ScanTable(f, 0, FramesAndBytes, f, registry)
        == if NeedsNoField(ct) && field != "" then Err(FieldNotAllowed(name))
           else if !NeedsNoField(ct) && field == "" then Err(FieldNameMissing(name))
           else if NeedsNoField(ct) then Ok(Scan(ct, Some(rest), None, j))
           else if field !in registry then Err(NoSuchField(field))
           else Ok(Scan(ct, Some(rest), Some((field, registry[field])), j))
  {
    var name := CALC_TABLE[j].0;
    var f := name + "(" + field + ")" + rest;
    assert f == name + "(" + (field + ")" + rest);
    ScanReachesCall(j, field + ")" + rest, 0, FramesAndBytes, Some(f), FramesAndBytes, Some(f), registry);
    CallText(name, field, rest);
  }

  /** strchr finds the first occurrence: the one with no earlier occurrence from `from` on. */
  lemma {:induction false} IndexOfFirst(s: string, from: nat, c: char, q: nat)
    requires from <= q < |s| && s[q] == c && forall i :: from <= i < q ==> s[i] != c
    ensures IndexOf(s, from, c) == Some(q)
    decreases q - from
  {
    if from < q {
      IndexOfFirst(s, from + 1, c, q);
    }
  }

  /** The pieces of `name(field)rest` the table loop cuts out. */
  lemma {:induction false} CallText(name: string, field: string, rest: string)
    requires ')' !in field
    ensures var f := name + "(" + field + ")" + rest;
      var p := |name| + 1;
      var q := p + |field|;
      && StartsWith(f, name) && |f| > |name| && f[|name|] == '('
      && IndexOf(f, p, ')') == Some(q) && f[p..q] == field && f[q + 1..] == rest
  {
    var f := name + "(" + field + ")" + rest;
    var p := |name| + 1;
    var q := p + |field|;
    assert f[..|name|] == name;
    assert f[p..q] == field;
    assert f[q + 1..] == rest;
    assert f[q] == ')';
    assert forall i :: p <= i < q ==> f[i] == field[i - p];
    IndexOfFirst(f, p, ')', q);
  }

  /** `NAME(` with no ')' after it is refused. */
  lemma {:induction false} MissingParenRefused(j: nat, rest: string, registry: Registry)
    requires j < |CALC_TABLE| && ')' !in rest
    ensures RegisterIoTap(Some(CALC_TABLE[j].0 + "(" + rest), registry) == Err(MissingCloseParen)
  {
    var name := CALC_TABLE[j].0;
    var f := name + "(" + rest;
    ScanReachesCall(j, rest, 0, FramesAndBytes, Some(f), FramesAndBytes, Some(f), registry);
    assert f[..|name|] == name && f[|name|] == '(';
    assert f[|name| + 1..] == rest;
  }

  // ---------------------------------------------------------------------------
  // iostat_init

  /** The table's configuration once every column registered. */
  datatype Config = Config(interval: U64, precision: nat, columns: seq<ColumnSpec>)

  datatype InitError = BadInterval | BadColumn(column: nat, error: TapError)

  /** Registering the columns in order, given each column's outcome; the first refused column ends the program. */
  function RegisterAll(results: seq<Result<ColumnSpec, TapError>>, from: nat): (r: Result<seq<ColumnSpec>, InitError>)
    requires from <= |results|
    ensures r.Ok? ==> |r.value| == |results| - from
    ensures r.Ok? ==> forall i :: from <= i < |results| ==> results[i] == Ok(r.value[i - from])
    ensures r.Err? ==> r.error.BadColumn? && from <= r.error.column < |results|
                       && results[r.error.column] == Err(r.error.error)
                       && forall i :: from <= i < r.error.column ==> results[i].Ok?
    decreases |results| - from
  {
    if from == |results| then Ok([])
    else
      match results[from]
      case Err(e) => Err(BadColumn(from, e))
      case Ok(col) =>
        match RegisterAll(results, from + 1)
        case Err(e) => Err(e)
        case Ok(cols) => Ok([col] + cols)
  }

  /** register_io_tap on every column's filter. */
  function RegisterEach(filters: seq<Option<string>>, registry: Registry): (r: seq<Result<ColumnSpec, TapError>>)
    ensures |r| == |filters|
  {
    seq(|filters|, i requires 0 <= i < |filters| => RegisterIoTap(filters[i], registry))
  }

  /**
   * iostat_init with the intended interval check: the interval, then one
   * column per comma-separated filter, each registered in turn.
   */
  function IostatInit(arg: IntervalArg, filters: Option<string>, registry: Registry): (r: Result<Config, InitError>)
    ensures r.Ok? ==> r.value.interval >= 1 && r.value.precision <= 6
    ensures r.Ok? ==> Interval(arg) == Ok((r.value.interval, r.value.precision))
    ensures r.Ok? ==> |r.value.columns| == NumCols(filters)
    ensures r.Ok? ==> |r.value.columns| == |ColumnFilters(filters)| && forall i :: 0 <= i < |r.value.columns| ==>
      RegisterIoTap(ColumnFilters(filters)[i], registry) == Ok(r.value.columns[i])
    ensures Interval(arg).Err? <==> r == Err(BadInterval)
    ensures Interval(arg).Ok? ==>
      (r.Ok? <==> forall i :: 0 <= i < |ColumnFilters(filters)| ==> RegisterIoTap(ColumnFilters(filters)[i], registry).Ok?)
    ensures r.Err? && r.error.BadColumn? ==>
      && r.error.column < |ColumnFilters(filters)|
      && RegisterIoTap(ColumnFilters(filters)[r.error.column], registry) == Err(r.error.error)
      && forall i :: 0 <= i < r.error.column ==> RegisterIoTap(ColumnFilters(filters)[i], registry).Ok?
  {
    ColumnsMatchCount(filters);
    var results := RegisterEach(ColumnFilters(filters), registry);
    assert forall i :: 0 <= i < |results| ==> results[i] == RegisterIoTap(ColumnFilters(filters)[i], registry);
    match Interval(arg)
    case Err(_) => Err(BadInterval)
    case Ok(iv) =>
      match RegisterAll(results, 0)
      case Err(e) => Err(e)
      case Ok(cols) =>
        assert forall i :: 0 <= i < |results| ==> results[i] == Ok(cols[i - 0]);
        Ok(Config(iv.0, iv.1, cols))
  }
}
