/**
 * The two pieces of iostat_draw that are computation rather than layout: the
 * digit counter `magnitude` that sizes the printed columns, and the number of
 * table rows (ui/cli/tap-iostat.c:496-507, 934).
 */
module IostatDraw {
  import opened Octets
  import opened IostatArgs

  /** The number of decimal digits of `v`; 0 is written with one digit. */
  function Digits(v: nat): (d: nat)
    ensures d >= 1
  {
    if v < 10 then 1 else 1 + Digits(v / 10)
  }

  /** `Digits` is the length of the decimal numeral: 10^(d-1) <= v < 10^d for a positive v. */
  lemma {:induction false} DigitsMeaning(v: nat)
    ensures v < Pow10(Digits(v))
    ensures v >= 1 ==> Pow10(Digits(v) - 1) <= v
  {
    if v >= 10 {
      DigitsMeaning(v / 10);
      var d := Digits(v / 10);
      assert Pow10(d + 1) == 10 * Pow10(d);
      assert Pow10(d) == 10 * Pow10(d - 1);
    }
  }

  /** Any number of digits that brackets `v` between powers of ten is its digit count. */
  lemma {:induction false} DigitsUnique(v: nat, k: nat)
    requires k >= 1 && Pow10(k - 1) <= v < Pow10(k)
    ensures Digits(v) == k
  {
    if k == 1 {
      assert Pow10(1) == 10;
    } else {
      assert Pow10(k - 1) == 10 * Pow10(k - 2);
      assert Pow10(k) == 10 * Pow10(k - 1);
      assert v >= 10 by {
        assert Pow10(k - 2) >= 1;
      }
      DigitsUnique(v / 10, k - 1);
    }
  }

  function Min(a: int, b: int): int
  {
    if a <= b then a else b
  }

  /**
   * magnitude(val, max_w): counts one per loop round and stops once dividing
   * by ten leaves zero, or after max_w rounds.
   */
  method Magnitude(val: U64, maxW: int) returns (mag: int)
    ensures maxW <= 0 ==> mag == 0
    ensures maxW >= 1 ==> mag == Min(maxW, Digits(val)) && 1 <= mag <= maxW
  {
    mag := 0;
    var v: nat := val;
    var i := 0;
    while i < maxW
      invariant 0 <= i && (maxW <= 0 ==> i == 0) && (maxW >= 0 ==> i <= maxW)
      invariant mag == i
      invariant i + Digits(v) == Digits(val)
      decreases maxW - i
    {
      mag := mag + 1;
      var before := v;
      v := v / 10;
      if v == 0 {
        assert Digits(before) == 1;
        return;
      }
      assert Digits(before) == 1 + Digits(v);
      i := i + 1;
    }
  }

  /**
   * num_rows: one row per whole interval of the (rounded) capture duration,
   * and one more when what is left over reaches half a second. The quotient
   * is cast to a C int and the remainder plus half a second is computed on a
   * guint64.
   */
  function NumRows(duration: U64, interval: U64): int
    requires interval >= 1
  {
    AsInt32(duration / interval) + (if ToU64(duration % interval + 500000) / 1000000 > 0 then 1 else 0)
  }

  /**
   * Away from the casts' wrap-around the row count is the number of whole
   * intervals plus one for a remainder of at least half a second, and the
   * rows reach to within half a second of the end of the capture.
   */
  lemma {:induction false} RowCount(duration: U64, interval: U64)
    requires interval >= 1 && duration / interval < 0x8000_0000 && duration + 500000 < 0x1_0000_0000_0000_0000
    ensures var q, rem := duration / interval, duration % interval;
      NumRows(duration, interval) == q + (if rem >= 500000 then 1 else 0)
    ensures NumRows(duration, interval) * interval + 500000 > duration
    ensures NumRows(duration, interval) * interval <= duration + interval
  {
    var q: nat, rem: nat := duration / interval, duration % interval;
    var rows := q + (if rem >= 500000 then 1 else 0);
    var p := q * interval;
    assert duration == p + rem;
    assert 0 <= rem < interval;
    assert p >= 0 by {
      if q >= 1 {
        MulAtLeast(q, interval);
      } else {
        assert q == 0;
      }
    }
    assert NumRows(duration, interval) == rows by {
      assert 0 <= rem + 500000 < 0x1_0000_0000_0000_0000;
      assert ToU64(rem + 500000) == rem + 500000;
      assert 0 <= q < 0x8000_0000;
      assert AsInt32(q) == q;
    }
    assert rows * interval == p + (if rem >= 500000 then interval else 0) by {
      if rem >= 500000 {
        assert (q + 1) * interval == q * interval + interval;
      }
    }
  }

  /** An interval as long as the capture (the whole-capture setting) gives a single row. */
  lemma {:induction false} WholeCaptureOneRow(duration: U64)
    requires duration >= 1
    ensures NumRows(duration, duration) == 1
  {
    assert duration / duration == 1 && duration % duration == 0;
  }
}
