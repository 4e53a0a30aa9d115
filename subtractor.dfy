/** The subtractor kernel `bc_sub_positive`: the left magnitude's integer
    span sets the integer columns (the caller puts the larger magnitude on the
    left, so no spare column is needed), the columns are subtracted from right
    to left with a borrow, the digits are written into a fresh buffer from its
    end, and the buffer goes to `bc_round` in truncating mode with padding.
    As in the adder, fraction columns are written only from the first non-zero
    column digit on. */
module Subtractor {
  import opened Digits
  import opened Parser
  import opened Normalizer
  import opened NormalizerFacts
  import opened RoundBuffer
  import opened Alignment

  /** The digits the subtractor's columns spell for two magnitudes lined up
      over the left one's integer columns and the larger scale (SubValue:
      they spell the difference modulo ten to the number of columns). */
  function SubDigits(lhs: string, l: Desc, rhs: string, r: Desc): (D: seq<char>)
    requires Spans(lhs, l) && Spans(rhs, r) && IntLen(r) <= IntLen(l)
    ensures |D| == IntLen(l) + FracWidth(l, r) && AllDigits(D)
  {
    var L, rs := IntLen(l), FracWidth(l, r);
    DiffCols(Aligned(lhs, l, L, rs), Aligned(rhs, r, L, rs), 0, L + rs)
  }

  /** What `bc_sub_positive` returns: the difference, cut to `scale` fraction
      digits and padded to exactly `scale`, with the given sign. */
  function SubText(lhs: string, l: Desc, rhs: string, r: Desc, scale: nat, sign: int): string
    requires Spans(lhs, l) && Spans(rhs, r) && IntLen(r) <= IntLen(l)
  {
    var L, rs := IntLen(l), FracWidth(l, r);
    DiffColsText(Aligned(lhs, l, L, rs), Aligned(rhs, r, L, rs), L, L + rs, scale, sign)
  }

  /** The column digits of `A` less `B`, the first `L` of them integer digits,
      cut to `scale` fraction digits and padded, with the given sign. */
  function DiffColsText(A: seq<char>, B: seq<char>, L: nat, n: nat, scale: nat, sign: int): string
    requires L <= n == |A| == |B|
  {
    var D := DiffCols(A, B, 0, n);
    TruncText(sign, D[..L], D[L..], scale, true)
  }

  lemma SubTextDigits(lhs: string, l: Desc, rhs: string, r: Desc, scale: nat, sign: int)
    requires Spans(lhs, l) && Spans(rhs, r) && IntLen(r) <= IntLen(l)
    ensures var D := SubDigits(lhs, l, rhs, r);
      SubText(lhs, l, rhs, r, scale, sign) == TruncText(sign, D[..IntLen(l)], D[IntLen(l)..], scale, true)
  {
  }

  /** The difference digits spell the difference of the two magnitudes, both
      brought to `max(lscale, rscale)` fraction places, modulo ten to the
      number of columns. */
  lemma SubValue(lhs: string, l: Desc, rhs: string, r: Desc)
    requires Spans(lhs, l) && Spans(rhs, r) && IntLen(r) <= IntLen(l)
    ensures var rs := FracWidth(l, r);
      Val(SubDigits(lhs, l, rhs, r))
        == (Magnitude(lhs, l) * Pow10(rs - l.lscale) - Magnitude(rhs, r) * Pow10(rs - r.lscale))
           % Pow10(IntLen(l) + rs)
  {
    var L, rs := IntLen(l), FracWidth(l, r);
    var A, B := Aligned(lhs, l, L, rs), Aligned(rhs, r, L, rs);
    AlignedValue(lhs, l, L, rs);
    AlignedValue(rhs, r, L, rs);
    DiffColsResidue(A, B);
    SameResidue(Val(A), Val(B), Pow10(|A|), Magnitude(lhs, l) * Pow10(rs - l.lscale),
                Magnitude(rhs, r) * Pow10(rs - r.lscale), Pow10(L + rs));
  }

  lemma SameResidue(a: int, b: int, P: int, a2: int, b2: int, P2: int)
    requires a == a2 && b == b2 && P == P2 && P > 0
    ensures (a - b) % P == (a2 - b2) % P2
  {
  }

  /** When the left magnitude is the larger, the difference is exact. */
  lemma SubExact(lhs: string, l: Desc, rhs: string, r: Desc)
    requires Spans(lhs, l) && Spans(rhs, r) && IntLen(r) <= IntLen(l)
    requires var rs := FracWidth(l, r);
      Magnitude(lhs, l) * Pow10(rs - l.lscale) >= Magnitude(rhs, r) * Pow10(rs - r.lscale)
    ensures var rs := FracWidth(l, r);
      Val(SubDigits(lhs, l, rhs, r))
        == Magnitude(lhs, l) * Pow10(rs - l.lscale) - Magnitude(rhs, r) * Pow10(rs - r.lscale)
  {
    var L, rs := IntLen(l), FracWidth(l, r);
    var A, B := Aligned(lhs, l, L, rs), Aligned(rhs, r, L, rs);
    AlignedValue(lhs, l, L, rs);
    AlignedValue(rhs, r, L, rs);
    AlignedColumns(lhs, l, L, rs);
    ValBounds(A);
    SubValue(lhs, l, rhs, r);
    ModSmall(Val(A) - Val(B), Pow10(L + rs));
  }

  lemma ModSmall(n: int, P: int)
    requires 0 <= n < P
    ensures n % P == n
  {
    DivModUnique(n, P, 0, n);
  }

  /** Integer columns of a difference: those of the left operand. */
  function IntLen(l: Desc): int { l.ldot - l.lint }

  // ---------------------------------------------------------------- columns

  /** The borrow out of columns `k..` into column `k - 1`. */
  function Borrow(A: seq<char>, B: seq<char>, k: nat): (b: nat)
    requires k <= |A| == |B|
    ensures b <= 1
    decreases |A| - k
  {
    if k == |A| then 0 else if DigitOf(A[k]) - DigitOf(B[k]) - Borrow(A, B, k + 1) < 0 then 1 else 0
  }

  /** The digit written for column `k`: the column difference less the
      borrow from its right, ten added when that is negative. */
  function DiffDigit(A: seq<char>, B: seq<char>, k: nat): (d: int)
    requires k < |A| == |B|
    ensures 0 <= d <= 9
  {
    DigitOf(A[k]) - DigitOf(B[k]) - Borrow(A, B, k + 1) + 10 * Borrow(A, B, k)
  }

  /** The digits the subtractor writes for columns `k..n`. */
  function DiffCols(A: seq<char>, B: seq<char>, k: nat, n: nat): (D: seq<char>)
    requires k <= n <= |A| == |B|
    ensures |D| == n - k && AllDigits(D)
    decreases n - k
  {
    if k == n then [] else [CharOf(DiffDigit(A, B, k))] + DiffCols(A, B, k + 1, n)
  }

  /** The column digits of `k..` spell the difference of the two tails, plus
      the borrow out of them at the weight of the width. */
  lemma {:induction false} DiffColsValue(A: seq<char>, B: seq<char>, k: nat)
    requires k <= |A| == |B|
    ensures Val(DiffCols(A, B, k, |A|)) == Val(A[k..]) - Val(B[k..]) + Borrow(A, B, k) * Pow10(|A| - k)
    decreases |A| - k
  {
    if k == |A| {
      assert A[k..] == [] && B[k..] == [];
    } else {
      DiffColsValue(A, B, k + 1);
      BorrowColumn(A, B, k, k + 1, DiffCols(A, B, k + 1, |A|), DiffCols(A, B, k, |A|),
                   DiffDigit(A, B, k), Borrow(A, B, k + 1), Borrow(A, B, k));
    }
  }

  /** One column of the subtractor. */
  lemma BorrowColumn(A: seq<char>, B: seq<char>, k: nat, k1: nat, out0: seq<char>, out: seq<char>, d: int, b1: int, b0: int)
    requires k1 == k + 1 && k < |A| == |B| && |out0| == |A| - k1
    requires Val(out0) == Val(A[k1..]) - Val(B[k1..]) + b1 * Pow10(|out0|)
    requires d == DigitOf(A[k]) - DigitOf(B[k]) - b1 + 10 * b0 && 0 <= d <= 9
    requires out == [CharOf(d)] + out0
    ensures Val(out) == Val(A[k..]) - Val(B[k..]) + b0 * Pow10(|out|)
  {
    var P, Q := Pow10(|out0|), Pow10(|out|);
    ValCons(CharOf(d), out0);
    ColumnWeight(A, k, P);
    ColumnWeight(B, k, P);
    assert Q == 10 * P;
    BorrowStep(Val(out0), d, P, Q, Val(A[k1..]), Val(B[k1..]), DigitOf(A[k]), DigitOf(B[k]), b1, b0);
  }

  /** Column `k` weighs in at `P`, ten to the width of the columns to its
      right. */
  lemma ColumnWeight(A: seq<char>, k: nat, P: nat)
    requires k < |A| && P == Pow10(|A| - k - 1)
    ensures Val(A[k..]) == DigitOf(A[k]) * P + Val(A[k + 1..])
  {
    ColumnValue(A, k);
  }

  lemma BorrowStep(vout: int, d: int, P: int, Q: int, va: int, vb: int, da: int, db: int, b1: int, b0: int)
    requires vout == va - vb + b1 * P && d == da - db - b1 + 10 * b0 && Q == 10 * P
    ensures d * P + vout == (da * P + va) - (db * P + vb) + b0 * Q
  {
    calc {
      d * P + vout;
      (da - db - b1 + 10 * b0) * P + (va - vb + b1 * P);
      da * P - db * P + 10 * b0 * P + va - vb;
    }
  }

  lemma {:induction false} DiffColsAppend(A: seq<char>, B: seq<char>, i: nat, j: nat, n: nat)
    requires i <= j <= n <= |A| == |B|
    ensures DiffCols(A, B, i, j) + DiffCols(A, B, j, n) == DiffCols(A, B, i, n)
    decreases j - i
  {
    if i < j {
      DiffColsAppend(A, B, i + 1, j, n);
      var d := [CharOf(DiffDigit(A, B, i))];
      assert (d + DiffCols(A, B, i + 1, j)) + DiffCols(A, B, j, n) == d + (DiffCols(A, B, i + 1, j) + DiffCols(A, B, j, n));
    }
  }

  /** Columns whose digits are zero are written as '0'. */
  lemma {:induction false} DiffColsZero(A: seq<char>, B: seq<char>, k: nat, n: nat)
    requires k <= n <= |A| == |B|
    requires forall c :: k <= c < n ==> DiffDigit(A, B, c) == 0
    ensures AllZero(DiffCols(A, B, k, n))
    decreases n - k
  {
    if k < n {
      DiffColsZero(A, B, k + 1, n);
    }
  }

  /** The column digits spell the difference modulo ten to their width, and
      the borrow out of the top column says whether `B` exceeds `A`. */
  lemma DiffColsResidue(A: seq<char>, B: seq<char>)
    requires |A| == |B|
    ensures Val(DiffCols(A, B, 0, |A|)) == (Val(A) - Val(B)) % Pow10(|A|)
    ensures Borrow(A, B, 0) == 0 <==> Val(A) >= Val(B)
  {
    var D := DiffCols(A, B, 0, |A|);
    DiffColsWhole(A, B);
    ValBounds(D);
    BorrowResidue(Val(A) - Val(B), Borrow(A, B, 0), Pow10(|A|), Val(D));
  }

  lemma DiffColsWhole(A: seq<char>, B: seq<char>)
    requires |A| == |B|
    ensures Val(DiffCols(A, B, 0, |A|)) == Val(A) - Val(B) + Borrow(A, B, 0) * Pow10(|A|)
  {
    DiffColsValue(A, B, 0);
    assert A[0..] == A && B[0..] == B;
  }

  /** A number brought into `[0, P)` by adding a borrow of `P` or none is its
      residue modulo `P`, and the borrow is taken exactly when the number is
      negative. */
  lemma BorrowResidue(n: int, b: int, P: int, v: int)
    requires v == n + b * P && 0 <= v < P && 0 <= b <= 1
    ensures n % P == v && (b == 0 <==> n >= 0)
  {
    if b == 0 {
      DivModUnique(n, P, 0, v);
    } else {
      DivModUnique(n, P, -1, v);
    }
  }

  /** The column digits of two lined-up numerals, split at the '.' and at
      the last column the subtractor writes. */
  lemma SubDigitsColumns(A: seq<char>, B: seq<char>, L: nat, top: nat, n: nat)
    requires |A| == |B| == n && L <= top <= n
    ensures DiffCols(A, B, 0, n)[..L] == DiffCols(A, B, 0, L)
    ensures DiffCols(A, B, 0, n)[L..] == DiffCols(A, B, L, top) + DiffCols(A, B, top, n)
  {
    DiffColsAppend(A, B, 0, L, n);
    DiffColsAppend(A, B, L, top, n);
  }

  /** `bc_sub_positive` as written; the caller guarantees that the right
      integer span is no longer than the left one. */
  method SubPositive(lhs: string, l: Desc, rhs: string, r: Desc, scale: nat, sign: int) returns (res: string)
    requires Spans(lhs, l) && Spans(rhs, r) && IntLen(r) <= IntLen(l)
    ensures res == SubText(lhs, l, rhs, r, scale, sign)
  {
    var buf, lint, ldot, lfrac, lscale, outI, out, top := SubColumns(lhs, l, rhs, r);
    assert buf[lint..ldot] == outI && buf[lfrac..lfrac + lscale] == out;
    res := BcRound(buf, lint, ldot, lfrac, lscale, scale, sign, true, false);
    SubTextWritten(lhs, l, rhs, r, scale, sign, top, outI, out);
  }

  /** The text `bc_round` makes of the columns the subtractor wrote is the
      text of the difference. */
  lemma SubTextWritten(lhs: string, l: Desc, rhs: string, r: Desc, scale: nat, sign: int, top: nat,
                       outI: seq<char>, out: seq<char>)
    requires Spans(lhs, l) && Spans(rhs, r) && IntLen(r) <= IntLen(l)
    requires var L, rs := IntLen(l), FracWidth(l, r);
      var A, B := Aligned(lhs, l, L, rs), Aligned(rhs, r, L, rs);
      && L <= top <= L + rs
      && outI == DiffCols(A, B, 0, L) && out == DiffCols(A, B, L, top)
      && AllZero(DiffCols(A, B, top, L + rs))
    ensures TruncText(sign, outI, out, scale, true) == SubText(lhs, l, rhs, r, scale, sign)
  {
    var L, rs := IntLen(l), FracWidth(l, r);
    SubTextColumns(Aligned(lhs, l, L, rs), Aligned(rhs, r, L, rs), L, top, L + rs, sign, scale, outI, out);
    SubTextIsCols(lhs, l, rhs, r, scale, sign);
  }

  lemma SubTextIsCols(lhs: string, l: Desc, rhs: string, r: Desc, scale: nat, sign: int)
    requires Spans(lhs, l) && Spans(rhs, r) && IntLen(r) <= IntLen(l)
    ensures var L, rs := IntLen(l), FracWidth(l, r);
      SubText(lhs, l, rhs, r, scale, sign)
        == DiffColsText(Aligned(lhs, l, L, rs), Aligned(rhs, r, L, rs), L, L + rs, scale, sign)
  {
  }

  /** The text `bc_round` makes of the columns the subtractor wrote is the
      text of all the columns: the fraction columns it skipped are '0'. */
  lemma SubTextColumns(A: seq<char>, B: seq<char>, L: nat, top: nat, n: nat, sign: int, scale: nat,
                       outI: seq<char>, out: seq<char>)
    requires |A| == |B| == n && L <= top <= n
    requires outI == DiffCols(A, B, 0, L) && out == DiffCols(A, B, L, top) && AllZero(DiffCols(A, B, top, n))
    ensures TruncText(sign, outI, out, scale, true) == DiffColsText(A, B, L, n, scale, sign)
  {
    SubDigitsColumns(A, B, L, top, n);
    var F := DiffCols(A, B, 0, n)[L..];
    assert F[..|out|] == out;
    assert F[|out|..] == DiffCols(A, B, top, n);
    TruncIgnoresTrailingZeros(sign, outI, F, |out|, scale);
  }

  /** The two column loops of `bc_sub_positive` with the '.' between them:
      the buffer they leave is a frame for `bc_round` whose integer span holds
      the integer column digits and whose fraction span holds the fraction
      column digits up to the last one written, column `top - 1`; the columns
      from `top` on are '0'. */
  method SubColumns(lhs: string, l: Desc, rhs: string, r: Desc)
    returns (buf: array<char>, lint: nat, ldot: nat, lfrac: nat, lscale: nat,
             ghost outI: seq<char>, ghost out: seq<char>, ghost top: nat)
    requires Spans(lhs, l) && Spans(rhs, r) && IntLen(r) <= IntLen(l)
    ensures fresh(buf)
    ensures var L, rs := IntLen(l), FracWidth(l, r);
      var A, B := Aligned(lhs, l, L, rs), Aligned(rhs, r, L, rs);
      && L <= top <= L + rs
      && outI == DiffCols(A, B, 0, L) && out == DiffCols(A, B, L, top)
      && AllZero(DiffCols(A, B, top, L + rs))
    ensures Frame(buf[..], lint, ldot, lfrac, lscale)
    ensures buf[..][lint..ldot] == outI && buf[..][lfrac..lfrac + lscale] == out
  {
    var resultLen := IntLen(l);
    var resultScale := FracWidth(l, r);
    var size := resultLen + resultScale + 3;
    buf := new char[size + 1]((k: int) => if k < size then '0' else '\0');
    ghost var A, B := Aligned(lhs, l, resultLen, resultScale), Aligned(rhs, r, resultLen, resultScale);
    AlignedColumns(lhs, l, resultLen, resultScale);
    AlignedColumns(rhs, r, resultLen, resultScale);
    assert buf[size] == '\0';
    ghost var tail := buf[size..];

    var cur, next, wasFrac;
    cur, next, wasFrac, out, top := SubFractionColumns(lhs, l, rhs, r, buf, resultLen, resultScale, A, B);
    assert buf[size] == tail[0];
    DiffColsZero(A, B, top, resultLen + resultScale);
    lint, ldot, lfrac, lscale, outI := SubIntegerPart(lhs, l, rhs, r, buf, resultLen, resultScale, A, B, cur, next, wasFrac, out, top);
  }

  /** After the fraction columns: the '.' in front of the fraction digits
      when any were written, then the integer columns before it. */
  method SubIntegerPart(lhs: string, l: Desc, rhs: string, r: Desc, buf: array<char>, L: nat, rs: nat,
                        ghost A: seq<char>, ghost B: seq<char>, cur0: nat, next: int, wasFrac: bool,
                        ghost out: seq<char>, ghost top: nat)
    returns (lint: nat, ldot: nat, lfrac: nat, lscale: nat, ghost outI: seq<char>)
    requires Spans(lhs, l) && Spans(rhs, r) && L == IntLen(l)
    requires r.ldot - r.lint <= L && l.lscale <= rs && r.lscale <= rs
    requires Columns(lhs, l, L, rs, A) && Columns(rhs, r, L, rs, B)
    requires buf.Length == L + rs + 4 && buf[L + rs + 3] == '\0'
    requires next + Borrow(A, B, L) == 0
    requires L <= top <= L + rs && out == DiffCols(A, B, L, top) && cur0 == L + rs + 3 - (top - L)
    requires buf[cur0..L + rs + 3] == out
    requires wasFrac <==> top > L
    modifies buf
    ensures outI == DiffCols(A, B, 0, L)
    ensures Frame(buf[..], lint, ldot, lfrac, lscale)
    ensures buf[..][lint..ldot] == outI && buf[..][lfrac..lfrac + lscale] == out
  {
    var size := L + rs + 3;
    var cur := cur0;
    lscale := size - cur;
    lfrac := cur;
    if wasFrac {
      cur := cur - 1;
      buf[cur] := '.';
    }
    ldot := cur;
    ghost var mid := buf[..];
    assert mid[lfrac..lfrac + lscale] == out;
    assert !wasFrac ==> mid[ldot] == '\0';
    ghost var borrow;
    lint, borrow, outI := SubIntegerColumns(lhs, l, rhs, r, buf, L, rs, A, B, cur, next);
    FrameOfColumns(buf[..], mid, lint, ldot, lfrac, lscale, outI, out);
  }

  /** The fraction columns of the subtractor, right to left. A column is
      written only from the first non-zero column digit on, so the columns
      written are `L..top` and the columns from `top` on have zero digits;
      `next` is the borrow carried on, as `0` or `-1`. */
  method SubFractionColumns(lhs: string, l: Desc, rhs: string, r: Desc, buf: array<char>, L: nat, rs: nat,
                            ghost A: seq<char>, ghost B: seq<char>)
    returns (cur: nat, next: int, wasFrac: bool, ghost out: seq<char>, ghost top: nat)
    requires Spans(lhs, l) && Spans(rhs, r)
    requires l.ldot - l.lint <= L && r.ldot - r.lint <= L && l.lscale <= rs && r.lscale <= rs
    requires Columns(lhs, l, L, rs, A) && Columns(rhs, r, L, rs, B)
    requires buf.Length == L + rs + 4
    modifies buf
    ensures next + Borrow(A, B, L) == 0
    ensures L <= top <= L + rs && out == DiffCols(A, B, L, top) && cur == L + rs + 3 - (top - L)
    ensures forall c :: top <= c < L + rs ==> DiffDigit(A, B, c) == 0
    ensures buf[cur..L + rs + 3] == out && buf[L + rs + 3..] == old(buf[L + rs + 3..])
    ensures wasFrac <==> top > L
  {
    var size := L + rs + 3;
    var um := 0;
    cur, next, wasFrac, out, top := size, 0, false, [], L + rs;
    var i: int := rs - 1;
    ghost var k := L + rs;
    while i >= 0
      invariant -1 <= i < rs && k == L + i + 1
      invariant next + Borrow(A, B, k) == 0 && (!wasFrac ==> next == 0)
      invariant k <= top <= L + rs && out == DiffCols(A, B, k, top) && cur == size - (top - k)
      invariant forall c :: top <= c < L + rs ==> DiffDigit(A, B, c) == 0
      invariant buf[cur..size] == out && buf[size..] == old(buf[size..])
      invariant wasFrac <==> top > k
    {
      um := SubFracColumn(lhs, l, rhs, r, L, rs, A, B, i, next);
      if um < 0 {
        next := -1;
        um := um + 10;
      } else {
        next := 0;
      }
      assert um == DiffDigit(A, B, L + i) && next + Borrow(A, B, L + i) == 0;
      if um != 0 || wasFrac {
        var c := CharOf(um);
        WriteDigit(buf, cur - 1, cur, size, c, out, [c] + out);
        out := [c] + out;
        cur := cur - 1;
        wasFrac := true;
      } else {
        top := L + i;
      }
      i, k := i - 1, L + i;
    }
    assert k == L;
  }

  /** Fraction column `i`: the right digit taken from the left one, added
      into `um`, a digit missing from an operand counting as 0. */
  method SubFracColumn(lhs: string, l: Desc, rhs: string, r: Desc, L: nat, rs: nat,
                       ghost A: seq<char>, ghost B: seq<char>, i: nat, um0: int) returns (um: int)
    requires Spans(lhs, l) && Spans(rhs, r) && l.lscale <= rs && r.lscale <= rs && i < rs
    requires l.ldot - l.lint <= L && r.ldot - r.lint <= L
    requires Columns(lhs, l, L, rs, A) && Columns(rhs, r, L, rs, B)
    ensures um == um0 + DigitOf(A[L + i]) - DigitOf(B[L + i])
  {
    assert FracCol(A, L, i) == A[L + i] && FracCol(B, L, i) == B[L + i];
    um := um0;
    if i < l.lscale {
      um := um + DigitOf(lhs[l.lfrac + i]);
    }
    if i < r.lscale {
      um := um - DigitOf(rhs[r.lfrac + i]);
    }
  }

  /** The integer columns of the subtractor, right to left, taking the borrow
      `next0` out of the fraction columns; every column is written. */
  method SubIntegerColumns(lhs: string, l: Desc, rhs: string, r: Desc, buf: array<char>, L: nat, rs: nat,
                           ghost A: seq<char>, ghost B: seq<char>, cur0: nat, next0: int)
    returns (cur: nat, next: int, ghost outI: seq<char>)
    requires Spans(lhs, l) && Spans(rhs, r) && L == IntLen(l)
    requires r.ldot - r.lint <= L && l.lscale <= rs && r.lscale <= rs
    requires Columns(lhs, l, L, rs, A) && Columns(rhs, r, L, rs, B)
    requires L < cur0 < buf.Length && next0 + Borrow(A, B, L) == 0
    modifies buf
    ensures cur == cur0 - L && outI == DiffCols(A, B, 0, L) && next + Borrow(A, B, 0) == 0
    ensures buf[cur..cur0] == outI && buf[cur0..] == old(buf[cur0..])
  {
    cur, outI := cur0, [];
    next := next0;
    var i := 0;
    ghost var k := L;
    while i < L
      invariant 0 <= i <= L && k == L - i && cur == cur0 - i
      invariant next + Borrow(A, B, k) == 0 && outI == DiffCols(A, B, k, L)
      invariant buf[cur..cur0] == outI && buf[cur0..] == old(buf[cur0..])
    {
      var um := SubIntColumn(lhs, l, rhs, r, L, rs, A, B, i, next);
      if um < 0 {
        next := -1;
        um := um + 10;
      } else {
        next := 0;
      }
      assert um == DiffDigit(A, B, L - (i + 1)) && next + Borrow(A, B, L - (i + 1)) == 0;
      var c := CharOf(um);
      WriteDigit(buf, cur - 1, cur, cur0, c, outI, [c] + outI);
      outI := [c] + outI;
      cur := cur - 1;
      i, k := i + 1, L - (i + 1);
    }
    assert k == 0;
  }

  /** Integer column `i`, counted from the '.': the right digit, when there
      is one, taken from the left one, added into `um`. */
  method SubIntColumn(lhs: string, l: Desc, rhs: string, r: Desc, L: nat, rs: nat,
                      ghost A: seq<char>, ghost B: seq<char>, i: nat, um0: int) returns (um: int)
    requires Spans(lhs, l) && Spans(rhs, r) && L == IntLen(l) && i < L
    requires r.ldot - r.lint <= L && l.lscale <= rs && r.lscale <= rs
    requires Columns(lhs, l, L, rs, A) && Columns(rhs, r, L, rs, B)
    ensures um == um0 + DigitOf(A[L - (i + 1)]) - DigitOf(B[L - (i + 1)])
  {
    assert IntCol(A, L, i) == A[L - (i + 1)] && IntCol(B, L, i) == B[L - (i + 1)];
    um := um0 + DigitOf(lhs[l.ldot - i - 1]);
    if i < r.ldot - r.lint {
      um := um - DigitOf(rhs[r.ldot - i - 1]);
    }
  }
}
