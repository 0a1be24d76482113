/**
 * iostat_packet: the per-frame accumulator of tshark's io,stat table
 * (ui/cli/tap-iostat.c:96-494). Every column keeps a list of interval
 * buckets that grows as frames arrive; the frame's bucket is updated
 * according to the column's statistic, and the column's running maxima
 * (used to size the printed columns) are raised.
 */
module IostatTap {
  import opened Wrappers
  import opened Octets
  import opened IostatArgs

  // ---------------------------------------------------------------------------
  // Buckets and field values

  /** One io_stat_item_t: the bucket's start (microseconds since the capture start) and its integer accumulators. */
  datatype Bucket = Bucket(time: U64, frames: U32, num: U32, counter: U64)

  /** A bucket appended by the growth loop: every accumulator zero. */
  function Empty(time: U64): Bucket
  {
    Bucket(time, 0, 0, 0)
  }

  function Last(l: seq<Bucket>): Bucket
    requires |l| >= 1
  {
    l[|l| - 1]
  }

  /**
   * The buckets of a column lie back to back from time 0: bucket k starts
   * at k * interval (the first one is the column's main item).
   */
  predicate Laid(l: seq<Bucket>, interval: nat)
  {
    |l| >= 1 && forall k :: 0 <= k < |l| ==> l[k].time == k * interval
  }

  /**
   * One occurrence of the column's field in the frame, as the fvalue_get_*
   * accessors deliver it: an integer, a relative time (seconds and
   * nanoseconds), or a floating-point value, whose accumulation is not part
   * of this model.
   */
  datatype FieldValue = Int(v: int) | Time(secs: int, nsecs: int) | Real

  /** The value is of the shape the field's type delivers. */
  predicate Fits(ft: FieldType, x: FieldValue)
  {
    match ft
    case Unsigned => x.Int? && 0 <= x.v < 0x1_0000_0000                 // fvalue_get_uinteger: guint32
    case Unsigned64 => x.Int? && 0 <= x.v < 0x1_0000_0000_0000_0000               // fvalue_get_integer64: guint64
    case Signed64 => x.Int? && 0 <= x.v < 0x1_0000_0000_0000_0000                 // the same guint64, read as gint64
    case Signed => x.Int? && -0x8000_0000 <= x.v < 0x8000_0000       // fvalue_get_sinteger: gint32
    case RelativeTime => x.Time? && -0x8000_0000_0000_0000 <= x.secs < 0x8000_0000_0000_0000
                         && -0x8000_0000 <= x.nsecs < 0x8000_0000
    case Floating => x.Real?
    case NonIntegral => true
  }

  predicate AllFit(ft: FieldType, vals: seq<FieldValue>)
  {
    forall i :: 0 <= i < |vals| ==> Fits(ft, vals[i])
  }

  /** Field types whose values go into the integer counter. */
  predicate Accumulates(ft: FieldType)
  {
    ft != Floating && ft != NonIntegral
  }


  /** The guint64 `val` the accumulator computes from one value. */
  function Widened(ft: FieldType, x: FieldValue): U64
    requires Accumulates(ft) && Fits(ft, x)
  {
    match ft
    case Signed => ToU64(x.v)
    case RelativeTime => ToU64(x.secs * 1000000000 + x.nsecs)
    case Unsigned => x.v
    case Unsigned64 => x.v
    case Signed64 => x.v
  }

  function Widen(ft: FieldType, vals: seq<FieldValue>): (ws: seq<U64>)
    requires Accumulates(ft) && AllFit(ft, vals)
    ensures |ws| == |vals|
  {
    seq(|vals|, i requires 0 <= i < |vals| => Widened(ft, vals[i]))
  }

  /**
   * The order MIN and MAX compare in: `(gint32)` for 32-bit signed fields,
   * `(gint64)` for 64-bit signed ones, the unsigned word for the rest.
   */
  function Key(ft: FieldType, v: U64): int
  {
    match ft
    case Signed => AsInt32(v)
    case Signed64 => AsInt64(v)
    case _ => v
  }

  /** What a value stands for: the signed or unsigned integer, or the time in nanoseconds. */
  function Value(ft: FieldType, x: FieldValue): int
    requires Accumulates(ft) && Fits(ft, x)
  {
    match ft
    case Signed64 => AsInt64(x.v)
    case RelativeTime => x.secs * 1000000000 + x.nsecs
    case Unsigned => x.v
    case Unsigned64 => x.v
    case Signed => x.v
  }

  /** For signed fields the comparison order is the order of the values themselves. */
  lemma {:induction false} SignedOrderIsValueOrder(ft: FieldType, x: FieldValue)
    requires (ft == Signed || ft == Signed64) && Fits(ft, x)
    ensures Key(ft, Widened(ft, x)) == Value(ft, x)
  {
    if ft == Signed {
      Int32ThroughU64(x.v);
    }
  }

  // ---------------------------------------------------------------------------
  // Modular arithmetic

  lemma {:induction false} ModShift(x: int, n: int)
    ensures (x + n * 0x1_0000_0000_0000_0000) % 0x1_0000_0000_0000_0000 == x % 0x1_0000_0000_0000_0000
  {
    var q, r := x / 0x1_0000_0000_0000_0000, x % 0x1_0000_0000_0000_0000;
    assert x + n * 0x1_0000_0000_0000_0000 == (q + n) * 0x1_0000_0000_0000_0000 + r;
    DivModUnique(x + n * 0x1_0000_0000_0000_0000, 0x1_0000_0000_0000_0000, q + n, r);
  }

  /** Sums of values congruent modulo 2^64 are congruent. */
  lemma {:induction false} ModAddCongruent(a: int, a': int, b: int, b': int)
    requires (a - a') % 0x1_0000_0000_0000_0000 == 0 && (b - b') % 0x1_0000_0000_0000_0000 == 0
    ensures (a + b) % 0x1_0000_0000_0000_0000 == (a' + b') % 0x1_0000_0000_0000_0000
  {
    var k, l := (a - a') / 0x1_0000_0000_0000_0000, (b - b') / 0x1_0000_0000_0000_0000;
    assert a - a' == k * 0x1_0000_0000_0000_0000;
    assert b - b' == l * 0x1_0000_0000_0000_0000;
    assert a + b == (a' + b') + (k + l) * 0x1_0000_0000_0000_0000;
    ModShift(a' + b', k + l);
  }

  lemma {:induction false} ModOfMod(a: int)
    ensures (a % 0x1_0000_0000_0000_0000 - a) % 0x1_0000_0000_0000_0000 == 0
  {
    var q := a / 0x1_0000_0000_0000_0000;
    assert a % 0x1_0000_0000_0000_0000 - a == (-q) * 0x1_0000_0000_0000_0000;
    DivModUnique(a % 0x1_0000_0000_0000_0000 - a, 0x1_0000_0000_0000_0000, -q, 0);
  }

  lemma {:induction false} WidenedIsValue(ft: FieldType, x: FieldValue)
    requires Accumulates(ft) && Fits(ft, x)
    ensures (Widened(ft, x) - Value(ft, x)) % 0x1_0000_0000_0000_0000 == 0
  {
    match ft {
      case Signed => ModOfMod(x.v);
      case RelativeTime => ModOfMod(x.secs * 1000000000 + x.nsecs);
      case Signed64 =>
        var r := AsInt64(x.v);
        assert (r - x.v) % 0x1_0000_0000_0000_0000 == 0;
        assert x.v - r == -(r - x.v);
        DivModUnique(x.v - r, 0x1_0000_0000_0000_0000, -((r - x.v) / 0x1_0000_0000_0000_0000), 0);
      case _ =>
    }
  }

  // ---------------------------------------------------------------------------
  // SUM, MIN, MAX over the values of one frame

  /** The SUM (and AVG) counter after adding the values in order, each addition wrapping. */
  function Summed(c: U64, ws: seq<U64>): U64
    decreases |ws|
  {
    if |ws| == 0 then c else AddU64(Summed(c, ws[..|ws| - 1]), ws[|ws| - 1])
  }

  function ValueSum(ft: FieldType, vals: seq<FieldValue>): int
    requires Accumulates(ft) && AllFit(ft, vals)
    decreases |vals|
  {
    if |vals| == 0 then 0 else ValueSum(ft, vals[..|vals| - 1]) + Value(ft, vals[|vals| - 1])
  }

  /** The SUM counter is the old counter plus the sum of the values, modulo 2^64. */
  lemma {:induction false} SumCounter(ft: FieldType, c: U64, vals: seq<FieldValue>)
    requires Accumulates(ft) && AllFit(ft, vals)
    ensures Summed(c, Widen(ft, vals)) == (c + ValueSum(ft, vals)) % 0x1_0000_0000_0000_0000
    decreases |vals|
  {
    if |vals| > 0 {
      SumCounter(ft, c, vals[..|vals| - 1]);
      SumStep(ft, c, vals);
    }
  }

  /** One value more: the wrapped addition of its widened word keeps the counter congruent to the sum. */
  lemma {:induction false} SumStep(ft: FieldType, c: U64, vals: seq<FieldValue>)
    requires Accumulates(ft) && AllFit(ft, vals) && |vals| > 0
    requires Summed(c, Widen(ft, vals[..|vals| - 1])) == (c + ValueSum(ft, vals[..|vals| - 1])) % 0x1_0000_0000_0000_0000
    ensures Summed(c, Widen(ft, vals)) == (c + ValueSum(ft, vals)) % 0x1_0000_0000_0000_0000
  {
    var n := |vals| - 1;
    var ws := Widen(ft, vals);
    assert Widen(ft, vals[..n]) == ws[..n];
    var s := Summed(c, ws[..n]);
    WidenedIsValue(ft, vals[n]);
    SumArith(s, c + ValueSum(ft, vals[..n]), ws[n], Value(ft, vals[n]));
    assert Summed(c, ws) == AddU64(s, ws[n]);
    assert ValueSum(ft, vals) == ValueSum(ft, vals[..n]) + Value(ft, vals[n]);
  }

  lemma {:induction false} SumArith(s: int, base: int, w: int, v: int)
    requires s == base % 0x1_0000_0000_0000_0000 && (w - v) % 0x1_0000_0000_0000_0000 == 0
    ensures (s + w) % 0x1_0000_0000_0000_0000 == (base + v) % 0x1_0000_0000_0000_0000
  {
    ModOfMod(base);
    ModAddCongruent(s, base, w, v);
  }

  /**
   * The MIN counter after the values in order: on the bucket's first frame
   * the first value replaces the counter outright; after it, a value smaller
   * in the field's order replaces it.
   */
  function MinFold(ft: FieldType, c: U64, first: bool, ws: seq<U64>): U64
    decreases |ws|
  {
    if |ws| == 0 then c
    else
      var m := MinFold(ft, c, first, ws[..|ws| - 1]);
      if (first && |ws| == 1) || Key(ft, ws[|ws| - 1]) < Key(ft, m) then ws[|ws| - 1] else m
  }

  /**
   * MIN is a minimum: no value is below it, it is below the old counter unless
   * this frame starts the bucket, and it is one of the values or the old counter.
   */
  lemma {:induction false} MinFoldIsMinimum(ft: FieldType, c: U64, first: bool, ws: seq<U64>)
    ensures forall i :: 0 <= i < |ws| ==> Key(ft, MinFold(ft, c, first, ws)) <= Key(ft, ws[i])
    ensures !first ==> Key(ft, MinFold(ft, c, first, ws)) <= Key(ft, c)
    ensures MinFold(ft, c, first, ws) == c || MinFold(ft, c, first, ws) in ws
    ensures first && |ws| > 0 ==> MinFold(ft, c, first, ws) in ws
    decreases |ws|
  {
    if |ws| > 0 {
      var n := |ws| - 1;
      MinFoldIsMinimum(ft, c, first, ws[..n]);
      assert forall i :: 0 <= i < n ==> ws[..n][i] == ws[i];
      assert ws == ws[..n] + [ws[n]];
    }
  }

  /** The MAX counter after the values in order: a value larger in the field's order replaces it. */
  function MaxFold(ft: FieldType, c: U64, ws: seq<U64>): U64
    decreases |ws|
  {
    if |ws| == 0 then c
    else
      var m := MaxFold(ft, c, ws[..|ws| - 1]);
      if Key(ft, ws[|ws| - 1]) > Key(ft, m) then ws[|ws| - 1] else m
  }

  /** MAX is a maximum: no value and not the old counter is above it, and it is one of them. */
  lemma {:induction false} MaxFoldIsMaximum(ft: FieldType, c: U64, ws: seq<U64>)
    ensures forall i :: 0 <= i < |ws| ==> Key(ft, MaxFold(ft, c, ws)) >= Key(ft, ws[i])
    ensures Key(ft, MaxFold(ft, c, ws)) >= Key(ft, c)
    ensures MaxFold(ft, c, ws) == c || MaxFold(ft, c, ws) in ws
    decreases |ws|
  {
    if |ws| > 0 {
      var n := |ws| - 1;
      MaxFoldIsMaximum(ft, c, ws[..n]);
      assert forall i :: 0 <= i < n ==> ws[..n][i] == ws[i];
      assert ws == ws[..n] + [ws[n]];
    }
  }

  /**
   * When the bucket's first frame carries no value, the MIN counter of an
   * unsigned field keeps its initial 0 for the rest of the bucket: no later
   * value is below it.
   */
  lemma {:induction false} MinStaysAtZero(ft: FieldType, ws: seq<U64>)
    requires ft == Unsigned || ft == Unsigned64 || ft == RelativeTime
    ensures MinFold(ft, 0, false, ws) == 0
  {
    MinFoldIsMinimum(ft, 0, false, ws);
  }

  /** The SUM loop over the frame's values. */
  method SumValues(c: U64, ws: seq<U64>) returns (r: U64)
    ensures r == Summed(c, ws)
  {
    r := c;
    for i := 0 to |ws|
      invariant r == Summed(c, ws[..i])
    {
      assert ws[..i + 1][..i] == ws[..i];
      r := AddU64(r, ws[i]);
    }
    assert ws[..|ws|] == ws;
  }

  /** The MIN loop: `(frames == 1 && i == 0) || val < counter` replaces the counter. */
  method MinValues(ft: FieldType, c: U64, first: bool, ws: seq<U64>) returns (r: U64)
    ensures r == MinFold(ft, c, first, ws)
  {
    r := c;
    for i := 0 to |ws|
      invariant r == MinFold(ft, c, first, ws[..i])
    {
      assert ws[..i + 1][..i] == ws[..i];
      if (first && i == 0) || Key(ft, ws[i]) < Key(ft, r) {
        r := ws[i];
      }
    }
    assert ws[..|ws|] == ws;
  }

  /** The MAX loop: `val > counter` replaces the counter. */
  method MaxValues(ft: FieldType, c: U64, ws: seq<U64>) returns (r: U64)
    ensures r == MaxFold(ft, c, ws)
  {
    r := c;
    for i := 0 to |ws|
      invariant r == MaxFold(ft, c, ws[..i])
    {
      assert ws[..i + 1][..i] == ws[..i];
      if Key(ft, ws[i]) > Key(ft, r) {
        r := ws[i];
      }
    }
    assert ws[..|ws|] == ws;
  }

  // ---------------------------------------------------------------------------
  // LOAD

  /** C integer division, which truncates toward zero. */
  function CDiv(a: int, b: int): int
    requires b > 0
  {
    if a >= 0 then a / b else -((-a) / b)
  }

  /** The microseconds of one relative-time value, as LOAD converts it. */
  function LoadMicros(x: FieldValue): U64
    requires x.Time?
  {
    ToU64(x.secs * 1000000 + CDiv(x.nsecs, 1000))
  }

  /** The bucket before `p` in the list's `prev` links: the main item's `prev` is the last bucket. */
  function Prev(p: nat, n: nat): nat
    requires p < n
  {
    if p == 0 then n - 1 else p - 1
  }

  function AddToCounter(l: seq<Bucket>, p: nat, d: int): (r: seq<Bucket>)
    requires p < |l|
    ensures |r| == |l|
  {
    l[p := l[p].(counter := AddU64(l[p].counter, d))]
  }

  /** Only counters differ between two bucket lists of the same length. */
  predicate SameButCounters(l: seq<Bucket>, l': seq<Bucket>)
  {
    |l| == |l'| && forall i :: 0 <= i < |l| ==> l'[i] == l[i].(counter := l'[i].counter)
  }

  /**
   * The walk that spreads the rest of a LOAD value over earlier buckets: from
   * bucket `p` backwards through the `prev` links, each bucket gets a full
   * interval, and a remainder below one interval goes to the bucket reached.
   */
  function Spread(l: seq<Bucket>, p: nat, v: U64, interval: nat): (r: seq<Bucket>)
    requires p < |l| && interval >= 1
    ensures SameButCounters(l, r)
    decreases v
  {
    if v == 0 then l
    else if v < interval then AddToCounter(l, p, v)
    else Spread(AddToCounter(l, p, interval), Prev(p, |l|), v - interval, interval)
  }

  /**
   * One LOAD value: the part within the current interval, `(int)(val %
   * interval)`, goes to the frame's bucket (the last), and the rest is spread
   * backwards from the bucket before it.
   */
  function LoadOne(l: seq<Bucket>, val: U64, interval: nat): (r: seq<Bucket>)
    requires |l| >= 1 && interval >= 1
    ensures SameButCounters(l, r)
  {
    SplitLoad(l, ToU64(AsInt32(val % interval)), val, interval)
  }

  /** `tival` to the last bucket, `val - tival` (on guint64) spread from the bucket before it. */
  function SplitLoad(l: seq<Bucket>, tival: U64, val: U64, interval: nat): (r: seq<Bucket>)
    requires |l| >= 1 && interval >= 1
    ensures SameButCounters(l, r)
  {
    var n := |l| - 1;
    Spread(AddToCounter(l, n, tival), Prev(n, |l|), (val - tival) % 0x1_0000_0000_0000_0000, interval)
  }

  function Loaded(l: seq<Bucket>, vs: seq<U64>, interval: nat): (r: seq<Bucket>)
    requires |l| >= 1 && interval >= 1
    ensures SameButCounters(l, r)
    decreases |vs|
  {
    if |vs| == 0 then l else LoadOne(Loaded(l, vs[..|vs| - 1], interval), vs[|vs| - 1], interval)
  }

  /** The sum of a column's counters. */
  function Total(l: seq<Bucket>): int
  {
    if |l| == 0 then 0 else l[0].counter + Total(l[1..])
  }

  lemma {:induction false} TotalReplace(l: seq<Bucket>, p: nat, b: Bucket)
    requires p < |l|
    ensures Total(l[p := b]) == Total(l) - l[p].counter + b.counter
  {
    if p > 0 {
      assert l[p := b][1..] == l[1..][p - 1 := b];
      TotalReplace(l[1..], p - 1, b);
    }
  }

  lemma {:induction false} AddToCounterTotal(l: seq<Bucket>, p: nat, d: int)
    requires p < |l|
    ensures Total(AddToCounter(l, p, d)) % 0x1_0000_0000_0000_0000 == (Total(l) + d) % 0x1_0000_0000_0000_0000
  {
    var c := l[p].counter;
    TotalReplace(l, p, l[p].(counter := AddU64(c, d)));
    ModOfMod(c + d);
    ModAddCongruent(Total(l) - c, Total(l) - c, AddU64(c, d), c + d);
  }

  /** The walk hands out exactly the value it is given, modulo 2^64. */
  lemma {:induction false} SpreadConserves(l: seq<Bucket>, p: nat, v: U64, interval: nat)
    requires p < |l| && interval >= 1
    ensures Total(Spread(l, p, v, interval)) % 0x1_0000_0000_0000_0000 == (Total(l) + v) % 0x1_0000_0000_0000_0000
    decreases v
  {
    if v == 0 {
    } else if v < interval {
      AddToCounterTotal(l, p, v);
    } else {
      var l1 := AddToCounter(l, p, interval);
      var r := Spread(l1, Prev(p, |l|), v - interval, interval);
      assert Spread(l, p, v, interval) == r;
      SpreadConserves(l1, Prev(p, |l|), v - interval, interval);
      AddToCounterTotal(l, p, interval);
      AddMod(Total(r), Total(l1), Total(l) + interval, v - interval);
      assert Total(l) + interval + (v - interval) == Total(l) + v;
    }
  }

  /** The part spread from the bucket before the last adds itself, modulo 2^64, to what the last bucket got. */
  lemma {:induction false} SplitLoadSpreads(l: seq<Bucket>, t: U64, val: U64, interval: nat)
    requires |l| >= 1 && interval >= 1
    ensures Total(SplitLoad(l, t, val, interval)) % 0x1_0000_0000_0000_0000
         == (Total(AddToCounter(l, |l| - 1, t)) + (val - t) % 0x1_0000_0000_0000_0000) % 0x1_0000_0000_0000_0000
  {
    var n := |l| - 1;
    SpreadConserves(AddToCounter(l, n, t), Prev(n, |l|), (val - t) % 0x1_0000_0000_0000_0000, interval);
  }

  /** However the value is split, what the last bucket gets and what is spread add up to it, modulo 2^64. */
  lemma {:induction false} SplitLoadConserves(l: seq<Bucket>, t: U64, val: U64, interval: nat)
    requires |l| >= 1 && interval >= 1
    ensures Total(SplitLoad(l, t, val, interval)) % 0x1_0000_0000_0000_0000 == (Total(l) + val) % 0x1_0000_0000_0000_0000
  {
    SplitLoadSpreads(l, t, val, interval);
    AddToCounterTotal(l, |l| - 1, t);
    SplitArith(Total(SplitLoad(l, t, val, interval)), Total(AddToCounter(l, |l| - 1, t)), Total(l), t, val);
  }

  lemma {:induction false} SplitArith(x: int, a: int, total: int, t: U64, val: U64)
    requires x % 0x1_0000_0000_0000_0000 == (a + (val - t) % 0x1_0000_0000_0000_0000) % 0x1_0000_0000_0000_0000
    requires a % 0x1_0000_0000_0000_0000 == (total + t) % 0x1_0000_0000_0000_0000
    ensures x % 0x1_0000_0000_0000_0000 == (total + val) % 0x1_0000_0000_0000_0000
  {
    var rest := (val - t) % 0x1_0000_0000_0000_0000;
    ModSame(a, total + t);
    ModOfMod(val - t);
    ModAddCongruent(a, total + t, rest, val - t);
    assert (total + t) + (val - t) == total + val;
  }

  /** A LOAD value adds exactly itself, modulo 2^64, to the column's counters. */
  lemma {:induction false} LoadOneConserves(l: seq<Bucket>, val: U64, interval: nat)
    requires |l| >= 1 && interval >= 1
    ensures Total(LoadOne(l, val, interval)) % 0x1_0000_0000_0000_0000 == (Total(l) + val) % 0x1_0000_0000_0000_0000
  {
    SplitLoadConserves(l, ToU64(AsInt32(val % interval)), val, interval);
  }

  function VSum(vs: seq<U64>): int
    decreases |vs|
  {
    if |vs| == 0 then 0 else VSum(vs[..|vs| - 1]) + vs[|vs| - 1]
  }

  /** LOAD distributes the frame's values over the buckets without losing or inventing any, modulo 2^64. */
  lemma {:induction false} LoadConserves(l: seq<Bucket>, vs: seq<U64>, interval: nat)
    requires |l| >= 1 && interval >= 1
    ensures Total(Loaded(l, vs, interval)) % 0x1_0000_0000_0000_0000 == (Total(l) + VSum(vs)) % 0x1_0000_0000_0000_0000
    decreases |vs|
  {
    if |vs| > 0 {
      LoadConserves(l, vs[..|vs| - 1], interval);
      LoadStep(l, vs, interval);
    }
  }

  /** One more LOAD value keeps the column's total in step with the values' sum. */
  lemma {:induction false} LoadStep(l: seq<Bucket>, vs: seq<U64>, interval: nat)
    requires |l| >= 1 && interval >= 1 && |vs| > 0
    requires Total(Loaded(l, vs[..|vs| - 1], interval)) % 0x1_0000_0000_0000_0000
          == (Total(l) + VSum(vs[..|vs| - 1])) % 0x1_0000_0000_0000_0000
    ensures Total(Loaded(l, vs, interval)) % 0x1_0000_0000_0000_0000 == (Total(l) + VSum(vs)) % 0x1_0000_0000_0000_0000
  {
    var n := |vs| - 1;
    var l1 := Loaded(l, vs[..n], interval);
    assert Loaded(l, vs, interval) == LoadOne(l1, vs[n], interval);
    LoadOneConserves(l1, vs[n], interval);
    AddMod(Total(LoadOne(l1, vs[n], interval)), Total(l1), Total(l) + VSum(vs[..n]), vs[n]);
  }

  /** Adding to two numbers equal modulo 2^64 keeps them equal. */
  lemma {:induction false} AddMod(x: int, a: int, b: int, d: int)
    requires x % 0x1_0000_0000_0000_0000 == (a + d) % 0x1_0000_0000_0000_0000
    requires a % 0x1_0000_0000_0000_0000 == b % 0x1_0000_0000_0000_0000
    ensures x % 0x1_0000_0000_0000_0000 == (b + d) % 0x1_0000_0000_0000_0000
  {
    ModSame(a, b);
    ModAddCongruent(a, b, d, d);
  }

  lemma {:induction false} ModSame(a: int, b: int)
    requires a % 0x1_0000_0000_0000_0000 == b % 0x1_0000_0000_0000_0000
    ensures (a - b) % 0x1_0000_0000_0000_0000 == 0
  {
    var q, q' := a / 0x1_0000_0000_0000_0000, b / 0x1_0000_0000_0000_0000;
    assert a - b == (q - q') * 0x1_0000_0000_0000_0000;
    DivModUnique(a - b, 0x1_0000_0000_0000_0000, q - q', 0);
  }

  /** The backward walk for one LOAD value. */
  method SpreadLoad(l: seq<Bucket>, p: nat, v: U64, interval: nat) returns (r: seq<Bucket>)
    requires p < |l| && interval >= 1
    ensures r == Spread(l, p, v, interval)
  {
    r := l;
    var pit: nat, val: U64 := p, v;
    while val > 0
      invariant pit < |r| && |r| == |l|
      invariant Spread(r, pit, val, interval) == Spread(l, p, v, interval)
      decreases val
    {
      if val < interval {
        r := AddToCounter(r, pit, val);
        return;
      }
      r := AddToCounter(r, pit, interval);
      val := val - interval;
      pit := Prev(pit, |r|);
    }
  }

  /** The LOAD loop over the frame's values. */
  method LoadValues(l: seq<Bucket>, vs: seq<U64>, interval: nat) returns (r: seq<Bucket>)
    requires |l| >= 1 && interval >= 1
    ensures r == Loaded(l, vs, interval)
  {
    r := l;
    for i := 0 to |vs|
      invariant r == Loaded(l, vs[..i], interval)
    {
      LoadedSnoc(l, vs, i, interval);
      r := LoadValue(r, vs[i], interval);
    }
    assert vs[..|vs|] == vs;
  }

  lemma {:induction false} LoadedSnoc(l: seq<Bucket>, vs: seq<U64>, i: nat, interval: nat)
    requires |l| >= 1 && interval >= 1 && i < |vs|
    ensures Loaded(l, vs[..i + 1], interval) == LoadOne(Loaded(l, vs[..i], interval), vs[i], interval)
  {
    assert vs[..i + 1][..i] == vs[..i];
  }

  /** One LOAD value: the part within the frame's bucket stays there, the rest is spread backwards. */
  method LoadValue(l: seq<Bucket>, v: U64, interval: nat) returns (r: seq<Bucket>)
    requires |l| >= 1 && interval >= 1
    ensures r == LoadOne(l, v, interval)
  {
    var n := |l| - 1;
    var tival := AsInt32(v % interval);
    var r1 := AddToCounter(l, n, ToU64(tival));
    r := SpreadLoad(r1, Prev(n, |l|), (v - ToU64(tival)) % 0x1_0000_0000_0000_0000, interval);
  }

  // ---------------------------------------------------------------------------
  // One frame in one column

  /** The statistics that count frames and bytes and read no field. */
  predicate Counting(stat: CalcType)
  {
    stat == Frames || stat == Bytes || stat == FramesAndBytes
  }

  /**
   * What iostat_packet demands of a column: a statistic over a field has a
   * field, and SUM, MIN, MAX and AVG are not over a non-integral one (their
   * `default` branches cannot be reached). register_io_tap leaves this behind
   * for every column it accepts that counts frames or bytes or has a field
   * (RegisteredIsTapped); a bare table name such as `COUNT` is accepted with
   * no field and is not Tapped (BareNameNotTapped).
   */
  predicate Tapped(col: ColumnSpec)
  {
    && (!Counting(col.stat) ==> col.field.Some?)
    && (col.stat in {Sum, Min, Max, Avg} ==> col.field.value.1 != NonIntegral)
  }

  /** Every column register_io_tap accepts that counts, or that names a field, is one iostat_packet can take. */
  lemma {:induction false} RegisteredIsTapped(filter: Option<string>, registry: Registry)
    requires RegisterIoTap(filter, registry).Ok?
    requires Counting(RegisterIoTap(filter, registry).value.stat) || RegisterIoTap(filter, registry).value.field.Some?
    ensures Tapped(RegisterIoTap(filter, registry).value)
  {
    var scan := ScanTable(filter, 0, FramesAndBytes, filter, registry).value;
    if scan.field.Some? {
      assert CheckFieldType(scan.stat, scan.field.value.0, scan.field.value.1, CALC_TABLE[scan.entry].0).None?;
    }
  }

  /** The filter `COUNT` with no parentheses is accepted as a COUNT column with no field, kept as its own filter. */
  lemma {:induction false} BareNameNotTapped(registry: Registry)
    ensures RegisterIoTap(Some("COUNT"), registry) == Ok(ColumnSpec(Count, None, Some("COUNT")))
    ensures !Tapped(RegisterIoTap(Some("COUNT"), registry).value)
  {
    var f := Some("COUNT");
    assert "COUNT"[0] == 'C';
    forall k | 0 <= k < |CALC_TABLE| && k != 3
      ensures !StartsWith("COUNT", CALC_TABLE[k].0)
    {
      assert CALC_TABLE[k].0[0] != 'C';
    }
    assert StartsWith("COUNT", CALC_TABLE[3].0);
    ScanPasses(f, 0, FramesAndBytes, f, registry);
    ScanPasses(f, 1, FramesAndBytes, f, registry);
    ScanPasses(f, 2, FramesAndBytes, f, registry);
    ScanPasses(f, 3, FramesAndBytes, f, registry);
    ScanPasses(f, 4, Count, f, registry);
    ScanPasses(f, 5, Count, f, registry);
    ScanPasses(f, 6, Count, f, registry);
    ScanPasses(f, 7, Count, f, registry);
    ScanPasses(f, 8, Count, f, registry);
    assert ScanTable(f, 0, FramesAndBytes, f, registry) == Ok(Scan(Count, f, None, 9));
  }

  /** The field values handed to the column have the shape of the column's field type. */
  predicate FitsColumn(col: ColumnSpec, gp: Option<seq<FieldValue>>)
  {
    col.field.Some? && gp.Some? ==> AllFit(col.field.value.1, gp.value)
  }

  /** Why iostat_packet terminates the program: LOAD over a field that is not a relative time. */
  datatype PacketError = LoadNeedsRelativeTime

  /** The frame's own count, `it->frames++`, on a guint32. */
  function Tick(l: seq<Bucket>): (r: seq<Bucket>)
    requires |l| >= 1
    ensures |r| == |l|
  {
    l[|l| - 1 := Last(l).(frames := (Last(l).frames + 1) % 0x1_0000_0000)]
  }

  /** Two bucket lists of the same length agree on every bucket's start and frame count. */
  predicate KeepsFrames(l: seq<Bucket>, l': seq<Bucket>)
  {
    |l| == |l'| && forall i :: 0 <= i < |l| ==> l'[i].time == l[i].time && l'[i].frames == l[i].frames
  }

  /** The frame's count goes to its own bucket, the last: every bucket keeps its start. */
  lemma {:induction false} TickLaid(l: seq<Bucket>, interval: nat)
    requires Laid(l, interval)
    ensures Laid(Tick(l), interval)
    ensures forall i :: 0 <= i < |l| - 1 ==> Tick(l)[i] == l[i]
    ensures Last(Tick(l)).frames == (Last(l).frames + 1) % 0x1_0000_0000
  {
  }

  /** Buckets that keep their starts stay laid out. */
  lemma {:induction false} KeepsFramesLaid(l: seq<Bucket>, l': seq<Bucket>, interval: nat)
    requires Laid(l, interval) && KeepsFrames(l, l')
    ensures Laid(l', interval)
  {
  }

  /** The counter update of the frame's bucket (the last), by the column's statistic. */
  function Tally(col: ColumnSpec, l: seq<Bucket>, interval: nat, pktLen: U32, gp: Option<seq<FieldValue>>)
    : (r: Result<seq<Bucket>, PacketError>)
    requires |l| >= 1 && interval >= 1 && Tapped(col) && FitsColumn(col, gp)
    ensures r.Ok? ==> KeepsFrames(l, r.value)
    ensures r.Ok? && col.stat != Avg ==> SameButCounters(l, r.value)
    ensures r.Err? <==> col.stat == Load && gp.Some? && col.field.value.1 != RelativeTime
  {
    var n := |l| - 1;
    var b := l[n];
    match col.stat
    case Frames => Ok(AddToCounter(l, n, pktLen))
    case Bytes => Ok(AddToCounter(l, n, pktLen))
    case FramesAndBytes => Ok(AddToCounter(l, n, pktLen))
    case Count => if gp.None? then Ok(l) else Ok(AddToCounter(l, n, |gp.value|))
    case Sum =>
      var ft := col.field.value.1;
      if gp.None? || ft == Floating then Ok(l)
      else Ok(l[n := b.(counter := Summed(b.counter, Widen(ft, gp.value)))])
    case Min =>
      var ft := col.field.value.1;
      if gp.None? || ft == Floating then Ok(l)
      else Ok(l[n := b.(counter := MinFold(ft, b.counter, b.frames == 1, Widen(ft, gp.value)))])
    case Max =>
      var ft := col.field.value.1;
      if gp.None? || ft == Floating then Ok(l)
      else Ok(l[n := b.(counter := MaxFold(ft, b.counter, Widen(ft, gp.value)))])
    case Avg =>
      var ft := col.field.value.1;
      if gp.None? then Ok(l)
      else
        var num := (b.num + |gp.value|) % 0x1_0000_0000;
        if ft == Floating then Ok(l[n := b.(num := num)])
        else Ok(l[n := b.(num := num, counter := Summed(b.counter, Widen(ft, gp.value)))])
    case Load =>
      var ft := col.field.value.1;
      if gp.None? then Ok(l)
      else if ft != RelativeTime then Err(LoadNeedsRelativeTime)
      else Ok(Loaded(l, seq(|gp.value|, i requires 0 <= i < |gp.value| => LoadMicros(gp.value[i])), interval))
  }

  /**
   * FRAMES, BYTES and FRAMES BYTES add the frame length to the frame's bucket
   * and COUNT the number of occurrences of its field, wrapping on guint64;
   * every other bucket is left as it was.
   */
  lemma {:induction false} CountingAdds(col: ColumnSpec, l: seq<Bucket>, interval: nat, pktLen: U32, gp: Option<seq<FieldValue>>)
    requires |l| >= 1 && interval >= 1 && Tapped(col) && FitsColumn(col, gp)
    requires col.stat in {Frames, Bytes, FramesAndBytes, Count}
    ensures var r := Tally(col, l, interval, pktLen, gp);
      var add := if col.stat != Count then pktLen else if gp.Some? then |gp.value| else 0;
      && r.Ok? && |r.value| == |l|
      && Last(r.value).counter == (Last(l).counter + add) % 0x1_0000_0000_0000_0000
      && forall i :: 0 <= i < |l| - 1 ==> r.value[i] == l[i]
  {
  }

  /** Division on guint64 by a positive divisor. */
  function Quotient(a: U64, d: int): (q: U64)
    requires d >= 1
    ensures q * d <= a < (q + 1) * d
  {
    var q := a / d;
    assert a == q * d + a % d;
    QuotientBelow(a, d, q);
    q
  }

  lemma {:induction false} QuotientBelow(a: nat, d: int, q: int)
    requires d >= 1 && a == q * d + a % d
    ensures 0 <= q <= a
  {
    MulBounds(q, d);
  }

  lemma {:induction false} MulBounds(q: int, d: int)
    requires d >= 1
    ensures q >= 0 ==> q <= q * d
    ensures q < 0 ==> q * d <= -d
  {
    if q >= 1 {
      MulAtLeast(d, q);
    } else if q < 0 {
      MulAtLeast(-q, d);
    }
  }

  /**
   * The value a column's width is sized by, after the frame: the counter,
   * or for AVG the counter over the sample size (rounded to whole seconds for
   * relative times); nothing for AVG without samples and for floating-point
   * columns, whose rounding is not part of this model.
   */
  function Shown(col: ColumnSpec, b: Bucket): Option<U64>
  {
    var floating := col.field.Some? && col.field.value.1 == Floating;
    match col.stat
    case Sum => if floating then None else Some(b.counter)
    case Min => if floating then None else Some(b.counter)
    case Max => if floating then None else Some(b.counter)
    case Avg =>
      if b.num == 0 || floating then None
      else if col.field.Some? && col.field.value.1 == RelativeTime then
        Some(Quotient(AddU64(Quotient(b.counter, b.num), 500000000), 1000000000))
      else Some(Quotient(b.counter, b.num))
    case _ => Some(b.counter)
  }

  /**
   * The running maxima of the column after the frame's bucket `b`: max_vals
   * becomes the least value that is at least its old value and the shown
   * value; max_frame likewise with the bucket's frame count, for FRAMES and
   * FRAMES BYTES only.
   */
  function MaxUpdate(col: ColumnSpec, b: Bucket, maxVal: U64, maxFrame: U32): (r: (U64, U32))
    ensures r.0 >= maxVal && r.1 >= maxFrame
    ensures Shown(col, b).Some? ==> r.0 >= Shown(col, b).value
    ensures r.0 == maxVal || Some(r.0) == Shown(col, b)
    ensures col.stat in {Frames, FramesAndBytes} ==> r.1 >= b.frames && (r.1 == maxFrame || r.1 == b.frames)
    ensures col.stat !in {Frames, FramesAndBytes} ==> r.1 == maxFrame
  {
    var mv := match Shown(col, b)
      case Some(v) => if v > maxVal then v else maxVal
      case None => maxVal;
    var mf := if col.stat in {Frames, FramesAndBytes} && b.frames > maxFrame then b.frames else maxFrame;
    (mv, mf)
  }

  /** A column's state: its buckets and its two running maxima. */
  datatype ColumnState = ColumnState(buckets: seq<Bucket>, maxVal: U64, maxFrame: U32)

  /** What the frame did: nothing (it lies before the last bucket), counted, or LOAD refused. */
  datatype Verdict = Ignored | Counted | LoadRefused

  datatype Outcome = Outcome(verdict: Verdict, state: ColumnState)

  /**
   * The bucket-growth loop: while the frame lies at or after the end of the
   * last bucket, append an empty bucket starting where the last one ends.
   */
  function Grown(l: seq<Bucket>, rt: U64, interval: nat): (g: seq<Bucket>)
    requires |l| >= 1 && interval >= 1 && Last(l).time <= rt && rt + interval < 0x1_0000_0000_0000_0000
    ensures |g| >= |l| && g[..|l|] == l
    ensures Last(g).time <= rt < Last(g).time + interval
    decreases rt - Last(l).time
  {
    if rt >= Last(l).time + interval then Grown(l + [Empty(Last(l).time + interval)], rt, interval)
    else l
  }

  /** The grown list stays laid out from 0, and the frame lands in bucket number rt / interval. */
  lemma {:induction false} GrownLands(l: seq<Bucket>, rt: U64, interval: nat)
    requires Laid(l, interval) && interval >= 1 && Last(l).time <= rt && rt + interval < 0x1_0000_0000_0000_0000
    ensures Laid(Grown(l, rt, interval), interval)
    ensures |Grown(l, rt, interval)| == rt / interval + 1
    ensures forall k :: |l| <= k < |Grown(l, rt, interval)| ==> Grown(l, rt, interval)[k] == Empty(Grown(l, rt, interval)[k].time)
    decreases rt - Last(l).time
  {
    var n := |l| - 1;
    assert Last(l).time == n * interval;
    if rt >= Last(l).time + interval {
      var l' := l + [Empty(Last(l).time + interval)];
      assert n * interval + interval == (n + 1) * interval;
      assert Laid(l', interval);
      assert Grown(l, rt, interval) == Grown(l', rt, interval);
      GrownLands(l', rt, interval);
      var g := Grown(l', rt, interval);
      assert g[..|l'|] == l';
      assert g[|l|] == l'[|l|];
    } else {
      assert Grown(l, rt, interval) == l;
      DivModUnique(rt, interval, n, rt - n * interval);
    }
  }

  /** iostat_packet for one column, on its state before the frame; `rt` is the frame's time in microseconds. */
  function Step(col: ColumnSpec, interval: nat, s: ColumnState, rt: U64, pktLen: U32, gp: Option<seq<FieldValue>>)
    : (r: Outcome)
    requires interval >= 1 && Laid(s.buckets, interval) && rt + interval < 0x1_0000_0000_0000_0000
    requires Tapped(col) && FitsColumn(col, gp)
  {
    if rt < Last(s.buckets).time then Outcome(Ignored, s)
    else
      var g := Tick(Grown(s.buckets, rt, interval));
      match Tally(col, g, interval, pktLen, gp)
      case Err(_) => Outcome(LoadRefused, s.(buckets := g))
      case Ok(t) =>
        var m := MaxUpdate(col, Last(t), s.maxVal, s.maxFrame);
        Outcome(Counted, ColumnState(t, m.0, m.1))
  }

  /**
   * A frame in the past changes nothing; any other frame lands in bucket
   * rt / interval, keeps the buckets laid out from 0, and raises the maxima
   * only (the frame count of its bucket goes up by one, wrapping on guint32).
   */
  lemma {:induction false} StepLands(col: ColumnSpec, interval: nat, s: ColumnState, rt: U64, pktLen: U32, gp: Option<seq<FieldValue>>)
    requires interval >= 1 && Laid(s.buckets, interval) && rt + interval < 0x1_0000_0000_0000_0000
    requires Tapped(col) && FitsColumn(col, gp)
    ensures var r := Step(col, interval, s, rt, pktLen, gp);
      && (r.verdict == Ignored <==> rt < Last(s.buckets).time)
      && (r.verdict == Ignored ==> r.state == s)
      && (r.verdict != Ignored ==>
            && Laid(r.state.buckets, interval)
            && |r.state.buckets| == rt / interval + 1
            && r.state.maxVal >= s.maxVal && r.state.maxFrame >= s.maxFrame
            && var k := |r.state.buckets| - 1;
               var before := if k < |s.buckets| then s.buckets[k].frames else 0;
               r.state.buckets[k].frames == (before + 1) % 0x1_0000_0000)
  {
    if rt >= Last(s.buckets).time {
      var g0 := Grown(s.buckets, rt, interval);
      GrownLands(s.buckets, rt, interval);
      TickLaid(g0, interval);
      var g := Tick(g0);
      var t := Tally(col, g, interval, pktLen, gp);
      if t.Ok? {
        KeepsFramesLaid(g, t.value, interval);
        assert t.value[|g| - 1].frames == g[|g| - 1].frames;
      }
    }
  }

  /** Every other bucket keeps its frame count: only the frame's own bucket counts it. */
  lemma {:induction false} OnlyOwnBucketCounts(col: ColumnSpec, interval: nat, s: ColumnState, rt: U64, pktLen: U32, gp: Option<seq<FieldValue>>)
    requires interval >= 1 && Laid(s.buckets, interval) && rt + interval < 0x1_0000_0000_0000_0000
    requires Tapped(col) && FitsColumn(col, gp)
    ensures var r := Step(col, interval, s, rt, pktLen, gp);
      r.verdict != Ignored ==>
        forall i :: 0 <= i < |r.state.buckets| - 1 ==>
          r.state.buckets[i].frames == if i < |s.buckets| then s.buckets[i].frames else 0
  {
    if rt >= Last(s.buckets).time {
      var g0 := Grown(s.buckets, rt, interval);
      GrownLands(s.buckets, rt, interval);
      var g := Tick(g0);
      assert forall i :: 0 <= i < |s.buckets| ==> g0[i] == s.buckets[i];
    }
  }

  // ---------------------------------------------------------------------------
  // The table

  /** The frame as iostat_packet reads it: relative and absolute time stamps and the frame length. */
  datatype FrameInfo = FrameInfo(relSecs: int, relNsecs: int, absSecs: int, pktLen: U32)

  /** The frame's microseconds since the first frame, rounded to the nearest, before the guint64 cast. */
  function SignedArrival(f: FrameInfo): int
  {
    f.relSecs * 1000000 + CDiv(f.relNsecs + 500, 1000)
  }

  /** `relative_time`: the same on a guint64, where a frame before the first frame wraps. */
  function ArrivalTime(f: FrameInfo): (r: U64)
    ensures 0 <= SignedArrival(f) < 0x1_0000_0000_0000_0000 ==> r == SignedArrival(f)
  {
    ToU64(SignedArrival(f))
  }

  /** The test of the growth loop as written: `rt >= it->time + interval` on guint64. */
  predicate GrowTestAsWritten(time: U64, rt: U64, interval: U64)
  {
    rt >= AddU64(time, interval)
  }

  /**
   * A frame 1.5 microseconds before the first frame (rel_ts 0 s, -1500 ns)
   * gets relative_time 2^64 - 1. It passes the test for frames in the past
   * whatever the last bucket's start, and the growth test holds for every
   * bucket start, so the loop never ends.
   */
  lemma {:induction false} EarlyFrameGrowsForever(absSecs: int, pktLen: U32, time: U64, interval: U64)
    ensures var f := FrameInfo(0, -1500, absSecs, pktLen);
      && SignedArrival(f) == -1
      && ArrivalTime(f) == 0xFFFF_FFFF_FFFF_FFFF
      && !(ArrivalTime(f) < time)
      && GrowTestAsWritten(time, ArrivalTime(f), interval)
  {
    var f := FrameInfo(0, -1500, absSecs, pktLen);
    assert CDiv(-1000, 1000) == -1;
  }

  /**
   * iostat_packet for one column with frames before the first frame ignored,
   * as the test for frames in the past intends, and, likewise, a frame so
   * late that its bucket's end does not fit a guint64.
   */
  function StepChecked(col: ColumnSpec, interval: nat, s: ColumnState, f: FrameInfo, gp: Option<seq<FieldValue>>)
    : (r: Outcome)
    requires interval >= 1 && Laid(s.buckets, interval)
    requires Tapped(col) && FitsColumn(col, gp)
    ensures SignedArrival(f) < 0 ==> r == Outcome(Ignored, s)
    ensures 0 <= SignedArrival(f) && SignedArrival(f) + interval < 0x1_0000_0000_0000_0000 ==>
      r == Step(col, interval, s, ArrivalTime(f), f.pktLen, gp)
  {
    var t := SignedArrival(f);
    if t < 0 || t + interval >= 0x1_0000_0000_0000_0000 then Outcome(Ignored, s)
    else Step(col, interval, s, t, f.pktLen, gp)
  }

  /** With the check, every frame before the first is ignored, and every other one lands as StepLands says. */
  lemma {:induction false} StepCheckedLands(col: ColumnSpec, interval: nat, s: ColumnState, f: FrameInfo, gp: Option<seq<FieldValue>>)
    requires interval >= 1 && Laid(s.buckets, interval)
    requires Tapped(col) && FitsColumn(col, gp)
    ensures var r := StepChecked(col, interval, s, f, gp);
      && (r.verdict == Ignored <==>
            SignedArrival(f) < 0 || SignedArrival(f) + interval >= 0x1_0000_0000_0000_0000 || SignedArrival(f) < Last(s.buckets).time)
      && (r.verdict == Ignored ==> r.state == s)
      && (r.verdict != Ignored ==> Laid(r.state.buckets, interval) && |r.state.buckets| == SignedArrival(f) / interval + 1)
  {
    var t := SignedArrival(f);
    if 0 <= t && t + interval < 0x1_0000_0000_0000_0000 {
      StepLands(col, interval, s, t, f.pktLen, gp);
    }
  }

  /** The io_stat_t the taps share: the interval, each column's bucket list, and the column maxima. */
  class IoStat {
    const interval: U64
    const precision: nat
    const columns: seq<ColumnSpec>
    var startTime: int
    var items: seq<seq<Bucket>>
    const maxVals: array<U64>
    const maxFrame: array<U32>

    predicate Valid()
      reads this, maxVals, maxFrame
    {
      && interval >= 1
      && |items| == |columns| == maxVals.Length == maxFrame.Length
      && forall c :: 0 <= c < |items| ==> Laid(items[c], interval)
    }

    function Column(c: nat): ColumnState
      requires c < |items| && c < maxVals.Length && c < maxFrame.Length
      reads this, maxVals, maxFrame
    {
      ColumnState(items[c], maxVals[c], maxFrame[c])
    }

    /** The table iostat_init sets up: one main bucket at time 0 per column, start time and maxima zero. */
    constructor (config: Config)
      requires config.interval >= 1
      ensures Valid()
      ensures interval == config.interval && precision == config.precision && columns == config.columns
      ensures startTime == 0 && items == seq(|config.columns|, _ => [Empty(0)])
      ensures maxVals[..] == seq(|config.columns|, _ => 0) && maxFrame[..] == seq(|config.columns|, _ => 0)
      ensures fresh(maxVals) && fresh(maxFrame)
    {
      interval := config.interval;
      precision := config.precision;
      columns := config.columns;
      startTime := 0;
      items := seq(|config.columns|, _ => [Empty(0)]);
      maxVals := new U64[|config.columns|](_ => 0);
      maxFrame := new U32[|config.columns|](_ => 0);
    }

    /** iostat_packet for column `col`; `gp` is the column field's occurrences in the frame, None when it has none. */
    method Packet(col: nat, frame: FrameInfo, gp: Option<seq<FieldValue>>) returns (verdict: Verdict)
      requires Valid() && col < |columns|
      requires Tapped(columns[col]) && FitsColumn(columns[col], gp)
      modifies this, maxVals, maxFrame
      ensures Valid()
      ensures startTime == if old(startTime) == 0 then frame.absSecs - frame.relSecs else old(startTime)
      ensures var r := StepChecked(columns[col], interval, old(Column(col)), frame, gp);
        && verdict == r.verdict
        && items == old(items)[col := r.state.buckets]
        && maxVals[..] == old(maxVals[..])[col := r.state.maxVal]
        && maxFrame[..] == old(maxFrame[..])[col := r.state.maxFrame]
    {
      var t := SignedArrival(frame);
      if startTime == 0 {
        startTime := frame.absSecs - frame.relSecs;
      }
      var s := Column(col);
      if t < 0 || t + interval >= 0x1_0000_0000_0000_0000 {
        assert items[col := s.buckets] == items;
        assert maxVals[..][col := s.maxVal] == maxVals[..] && maxFrame[..][col := s.maxFrame] == maxFrame[..];
        return Ignored;
      }
      var rt: U64 := t;
      var r := StepColumn(columns[col], interval, s, rt, frame.pktLen, gp);
      StepLands(columns[col], interval, s, rt, frame.pktLen, gp);
      items := items[col := r.state.buckets];
      maxVals[col] := r.state.maxVal;
      maxFrame[col] := r.state.maxFrame;
      verdict := r.verdict;
    }
  }

  /** The growth loop of iostat_packet, on the column's list. */
  method GrowBuckets(l: seq<Bucket>, rt: U64, interval: nat) returns (g: seq<Bucket>)
    requires |l| >= 1 && interval >= 1 && Last(l).time <= rt && rt + interval < 0x1_0000_0000_0000_0000
    ensures g == Grown(l, rt, interval)
  {
    g := l;
    while rt >= Last(g).time + interval
      invariant |g| >= 1 && Last(g).time <= rt
      invariant Grown(g, rt, interval) == Grown(l, rt, interval)
      decreases rt - Last(g).time
    {
      g := g + [Empty(Last(g).time + interval)];
    }
  }

  /** The switch on the statistic in iostat_packet, with its loops over the field values. */
  method Accumulate(col: ColumnSpec, l: seq<Bucket>, interval: nat, pktLen: U32, gp: Option<seq<FieldValue>>)
    returns (r: Result<seq<Bucket>, PacketError>)
    requires |l| >= 1 && interval >= 1 && Tapped(col) && FitsColumn(col, gp)
    ensures r == Tally(col, l, interval, pktLen, gp)
  {
    var n := |l| - 1;
    var b := l[n];
    if Counting(col.stat) {
      return Ok(AddToCounter(l, n, pktLen));
    }
    if gp.None? {
      return Ok(l);
    }
    var vals := gp.value;
    var ft := col.field.value.1;
    match col.stat {
      case Count =>
        r := Ok(AddToCounter(l, n, |vals|));
      case Sum =>
        if ft == Floating {
          return Ok(l);
        }
        var c := SumValues(b.counter, Widen(ft, vals));
        r := Ok(l[n := b.(counter := c)]);
      case Min =>
        if ft == Floating {
          return Ok(l);
        }
        var c := MinValues(ft, b.counter, b.frames == 1, Widen(ft, vals));
        r := Ok(l[n := b.(counter := c)]);
      case Max =>
        if ft == Floating {
          return Ok(l);
        }
        var c := MaxValues(ft, b.counter, Widen(ft, vals));
        r := Ok(l[n := b.(counter := c)]);
      case Avg =>
        var num := (b.num + |vals|) % 0x1_0000_0000;
        if ft == Floating {
          return Ok(l[n := b.(num := num)]);
        }
        var c := SumValues(b.counter, Widen(ft, vals));
        r := Ok(l[n := b.(num := num, counter := c)]);
      case Load =>
        if ft != RelativeTime {
          return Err(LoadNeedsRelativeTime);
        }
        var loaded := LoadValues(l, seq(|vals|, i requires 0 <= i < |vals| => LoadMicros(vals[i])), interval);
        r := Ok(loaded);
    }
  }

  /** iostat_packet on one column's state, as the method that runs the loops. */
  method StepColumn(col: ColumnSpec, interval: nat, s: ColumnState, rt: U64, pktLen: U32, gp: Option<seq<FieldValue>>)
    returns (r: Outcome)
    requires interval >= 1 && Laid(s.buckets, interval) && rt + interval < 0x1_0000_0000_0000_0000
    requires Tapped(col) && FitsColumn(col, gp)
    ensures r == Step(col, interval, s, rt, pktLen, gp)
  {
    if rt < Last(s.buckets).time {
      return Outcome(Ignored, s);
    }
    var g := GrowBuckets(s.buckets, rt, interval);
    g := Tick(g);
    var t := Accumulate(col, g, interval, pktLen, gp);
    if t.Err? {
      return Outcome(LoadRefused, s.(buckets := g));
    }
    var m := MaxUpdate(col, Last(t.value), s.maxVal, s.maxFrame);
    r := Outcome(Counted, ColumnState(t.value, m.0, m.1));
  }
}
