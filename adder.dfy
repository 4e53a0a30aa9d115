/** The adder kernel `bc_add_positive`: the two magnitudes are lined up with
    one spare integer column on the left, the columns are added from right to
    left with a carry, the digits are written into a fresh buffer from its
    end, and the buffer goes to `bc_round` in truncating mode with padding.
    Fraction columns are written only from the first non-zero column sum on,
    so a run of trailing zero fraction digits is never written. */
module Adder {
  import opened Digits
  import opened Parser
  import opened Normalizer
  import opened NormalizerFacts
  import opened RoundBuffer
  import opened Alignment

  /** Integer columns: one more than the longer integer span. */
  function IntWidth(l: Desc, r: Desc): int { Max(l.ldot - l.lint, r.ldot - r.lint) + 1 }

  /** The digits the adder's columns spell for two magnitudes lined up over
      their common columns (AddExact: they spell the sum). */
  function AddDigits(lhs: string, l: Desc, rhs: string, r: Desc): (D: seq<char>)
    requires Spans(lhs, l) && Spans(rhs, r)
    ensures |D| == IntWidth(l, r) + FracWidth(l, r) && AllDigits(D)
  {
    var L, rs := IntWidth(l, r), FracWidth(l, r);
    Cols(Aligned(lhs, l, L, rs), Aligned(rhs, r, L, rs), 0, L + rs)
  }

  /** What `bc_add_positive` returns: the sum, cut to `scale` fraction digits
      and padded to exactly `scale`, with the given sign. */
  function AddText(lhs: string, l: Desc, rhs: string, r: Desc, scale: nat, sign: int): string
    requires Spans(lhs, l) && Spans(rhs, r)
  {
    var L, rs := IntWidth(l, r), FracWidth(l, r);
    ColsText(Aligned(lhs, l, L, rs), Aligned(rhs, r, L, rs), L, L + rs, scale, sign)
  }

  /** The column digits of `A` and `B`, the first `L` of them integer digits,
      cut to `scale` fraction digits and padded, with the given sign. */
  function ColsText(A: seq<char>, B: seq<char>, L: nat, n: nat, scale: nat, sign: int): string
    requires L <= n == |A| == |B|
  {
    var D := Cols(A, B, 0, n);
    TruncText(sign, D[..L], D[L..], scale, true)
  }

  /** The column digits spell the exact sum of the two magnitudes, both brought
      to `max(lscale, rscale)` fraction places. */
  lemma AddExact(lhs: string, l: Desc, rhs: string, r: Desc)
    requires Spans(lhs, l) && Spans(rhs, r)
    ensures var rs := FracWidth(l, r);
      Val(AddDigits(lhs, l, rhs, r))
        == Magnitude(lhs, l) * Pow10(rs - l.lscale) + Magnitude(rhs, r) * Pow10(rs - r.lscale)
  {
    var L, rs := IntWidth(l, r), FracWidth(l, r);
    var A, B := Aligned(lhs, l, L, rs), Aligned(rhs, r, L, rs);
    AlignedValue(lhs, l, L, rs);
    AlignedValue(rhs, r, L, rs);
    AlignedSpare(lhs, l, L, rs);
    AlignedSpare(rhs, r, L, rs);
    ColumnsCarryOut(A, B);
  }

  // ---------------------------------------------------------------- columns

  /** The carry out of columns `k..` into column `k - 1`. */
  function Carry(A: seq<char>, B: seq<char>, k: nat): (c: nat)
    requires k <= |A| == |B|
    ensures c <= 1
    decreases |A| - k
  {
    if k == |A| then 0 else (DigitOf(A[k]) + DigitOf(B[k]) + Carry(A, B, k + 1)) / 10
  }

  /** The sum in column `k`, the carry from its right included. */
  function ColSum(A: seq<char>, B: seq<char>, k: nat): nat
    requires k < |A| == |B|
  {
    DigitOf(A[k]) + DigitOf(B[k]) + Carry(A, B, k + 1)
  }

  /** The digits the adder writes for columns `k..n`. */
  function Cols(A: seq<char>, B: seq<char>, k: nat, n: nat): (D: seq<char>)
    requires k <= n <= |A| == |B|
    ensures |D| == n - k && AllDigits(D)
    decreases n - k
  {
    if k == n then [] else [CharOf(ColSum(A, B, k) % 10)] + Cols(A, B, k + 1, n)
  }

  /** The column digits of `k..` and the carry out of them make up the sum
      of the two tails. */
  lemma {:induction false} ColsValue(A: seq<char>, B: seq<char>, k: nat)
    requires k <= |A| == |B|
    ensures Val(Cols(A, B, k, |A|)) + Carry(A, B, k) * Pow10(|A| - k) == Val(A[k..]) + Val(B[k..])
    decreases |A| - k
  {
    if k == |A| {
      assert A[k..] == [] && B[k..] == [];
    } else {
      ColsValue(A, B, k + 1);
      CarryColumn(A, B, k, k + 1, Cols(A, B, k + 1, |A|), Carry(A, B, k + 1), 0, ColSum(A, B, k), Cols(A, B, k, |A|));
    }
  }

  lemma {:induction false} ColsAppend(A: seq<char>, B: seq<char>, i: nat, j: nat, n: nat)
    requires i <= j <= n <= |A| == |B|
    ensures Cols(A, B, i, j) + Cols(A, B, j, n) == Cols(A, B, i, n)
    decreases j - i
  {
    if i < j {
      ColsAppend(A, B, i + 1, j, n);
      var d := [CharOf(ColSum(A, B, i) % 10)];
      assert (d + Cols(A, B, i + 1, j)) + Cols(A, B, j, n) == d + (Cols(A, B, i + 1, j) + Cols(A, B, j, n));
    }
  }

  /** Columns whose sums are zero are written as '0'. */
  lemma {:induction false} ColsZero(A: seq<char>, B: seq<char>, k: nat, n: nat)
    requires k <= n <= |A| == |B|
    requires forall c :: k <= c < n ==> ColSum(A, B, c) == 0
    ensures AllZero(Cols(A, B, k, n))
    decreases n - k
  {
    if k < n {
      ColsZero(A, B, k + 1, n);
    }
  }

  /** With a spare '0' column on the left of both operands nothing is carried
      out of the top column, so the column digits spell the sum. */
  lemma ColumnsCarryOut(A: seq<char>, B: seq<char>)
    requires |A| == |B| >= 1 && A[0] == '0' && B[0] == '0'
    ensures Carry(A, B, 0) == 0 && Val(Cols(A, B, 0, |A|)) == Val(A) + Val(B)
  {
    assert Carry(A, B, 0) == Carry(A, B, 1) / 10 == 0;
    ColsValue(A, B, 0);
    assert A[0..] == A && B[0..] == B;
  }

  /** The column digits of two lined-up numerals, split at the '.' and at
      the last column the adder writes. */
  lemma AddDigitsColumns(A: seq<char>, B: seq<char>, L: nat, top: nat, n: nat)
    requires |A| == |B| == n && L <= top <= n
    ensures Cols(A, B, 0, n)[..L] == Cols(A, B, 0, L)
    ensures Cols(A, B, 0, n)[L..] == Cols(A, B, L, top) + Cols(A, B, top, n)
  {
    ColsAppend(A, B, 0, L, n);
    ColsAppend(A, B, L, top, n);
  }

  /** `bc_add_positive` as written: the buffer of `result_size` '0's (and the
      string terminator after them) is filled from its end. */
  method AddPositive(lhs: string, l: Desc, rhs: string, r: Desc, scale: nat, sign: int) returns (res: string)
    requires Spans(lhs, l) && Spans(rhs, r)
    ensures res == AddText(lhs, l, rhs, r, scale, sign)
  {
    var buf, lint, ldot, lfrac, lscale, outI, out, top := AddColumns(lhs, l, rhs, r);
    assert buf[lint..ldot] == outI && buf[lfrac..lfrac + lscale] == out;
    res := BcRound(buf, lint, ldot, lfrac, lscale, scale, sign, true, false);
    AddTextWritten(lhs, l, rhs, r, scale, sign, top, outI, out);
  }

  /** The text `bc_round` makes of the columns the adder wrote is the text of
      the sum. */
  lemma AddTextWritten(lhs: string, l: Desc, rhs: string, r: Desc, scale: nat, sign: int, top: nat,
                       outI: seq<char>, out: seq<char>)
    requires Spans(lhs, l) && Spans(rhs, r)
    requires var L, rs := IntWidth(l, r), FracWidth(l, r);
      var A, B := Aligned(lhs, l, L, rs), Aligned(rhs, r, L, rs);
      && L <= top <= L + rs
      && outI == Cols(A, B, 0, L) && out == Cols(A, B, L, top)
      && AllZero(Cols(A, B, top, L + rs))
    ensures TruncText(sign, outI, out, scale, true) == AddText(lhs, l, rhs, r, scale, sign)
  {
    var L, rs := IntWidth(l, r), FracWidth(l, r);
    AddTextColumns(Aligned(lhs, l, L, rs), Aligned(rhs, r, L, rs), L, top, L + rs, sign, scale, outI, out);
    AddTextIsCols(lhs, l, rhs, r, scale, sign);
  }

  lemma AddTextIsCols(lhs: string, l: Desc, rhs: string, r: Desc, scale: nat, sign: int)
    requires Spans(lhs, l) && Spans(rhs, r)
    ensures var L, rs := IntWidth(l, r), FracWidth(l, r);
      AddText(lhs, l, rhs, r, scale, sign) == ColsText(Aligned(lhs, l, L, rs), Aligned(rhs, r, L, rs), L, L + rs, scale, sign)
  {
  }

  /** The text `bc_round` makes of the columns the adder wrote is the text of
      all the columns: the fraction columns it skipped are '0'. */
  lemma AddTextColumns(A: seq<char>, B: seq<char>, L: nat, top: nat, n: nat, sign: int, scale: nat,
                       outI: seq<char>, out: seq<char>)
    requires |A| == |B| == n && L <= top <= n
    requires outI == Cols(A, B, 0, L) && out == Cols(A, B, L, top) && AllZero(Cols(A, B, top, n))
    ensures TruncText(sign, outI, out, scale, true) == ColsText(A, B, L, n, scale, sign)
  {
    AddDigitsColumns(A, B, L, top, n);
    var F := Cols(A, B, 0, n)[L..];
    assert F[..|out|] == out;
    assert F[|out|..] == Cols(A, B, top, n);
    TruncIgnoresTrailingZeros(sign, outI, F, |out|, scale);
  }

  /** The two column loops of `bc_add_positive` with the '.' between them:
      the buffer they leave is a frame for `bc_round` whose integer span holds
      the integer column digits and whose fraction span holds the fraction
      column digits up to the last one written, column `top - 1`; the columns
      from `top` on have zero sums. */
  method AddColumns(lhs: string, l: Desc, rhs: string, r: Desc)
    returns (buf: array<char>, lint: nat, ldot: nat, lfrac: nat, lscale: nat,
             ghost outI: seq<char>, ghost out: seq<char>, ghost top: nat)
    requires Spans(lhs, l) && Spans(rhs, r)
    ensures fresh(buf)
    ensures var L, rs := IntWidth(l, r), FracWidth(l, r);
      var A, B := Aligned(lhs, l, L, rs), Aligned(rhs, r, L, rs);
      && L <= top <= L + rs
      && outI == Cols(A, B, 0, L) && out == Cols(A, B, L, top)
      && AllZero(Cols(A, B, top, L + rs))
    ensures Frame(buf[..], lint, ldot, lfrac, lscale)
    ensures buf[..][lint..ldot] == outI && buf[..][lfrac..lfrac + lscale] == out
  {
    var resultLen := IntWidth(l, r);
    var resultScale := FracWidth(l, r);
    var size := resultLen + resultScale + 3;
    buf := new char[size + 1]((k: int) => if k < size then '0' else '\0');
    ghost var A, B := Aligned(lhs, l, resultLen, resultScale), Aligned(rhs, r, resultLen, resultScale);
    AlignedColumns(lhs, l, resultLen, resultScale);
    AlignedColumns(rhs, r, resultLen, resultScale);

    var cur, um, wasFrac;
    cur, um, wasFrac, out, top := AddFractionColumns(lhs, l, rhs, r, buf, resultLen, resultScale, A, B);
    ColsZero(A, B, top, resultLen + resultScale);
    lint, ldot, lfrac, lscale, outI := AddIntegerPart(lhs, l, rhs, r, buf, resultLen, resultScale, A, B, cur, um, wasFrac, out, top);
  }

  /** After the fraction columns: the '.' in front of the fraction digits
      when any were written, then the integer columns before it. */
  method AddIntegerPart(lhs: string, l: Desc, rhs: string, r: Desc, buf: array<char>, L: nat, rs: nat,
                        ghost A: seq<char>, ghost B: seq<char>, cur0: nat, um: nat, wasFrac: bool,
                        ghost out: seq<char>, ghost top: nat)
    returns (lint: nat, ldot: nat, lfrac: nat, lscale: nat, ghost outI: seq<char>)
    requires Spans(lhs, l) && Spans(rhs, r)
    requires l.ldot - l.lint <= L && r.ldot - r.lint <= L && l.lscale <= rs && r.lscale <= rs
    requires Columns(lhs, l, L, rs, A) && Columns(rhs, r, L, rs, B)
    requires buf.Length == L + rs + 4 && 1 <= L
    requires um == Carry(A, B, L)
    requires L <= top <= L + rs && out == Cols(A, B, L, top) && cur0 == L + rs + 3 - (top - L)
    requires buf[cur0..L + rs + 3] == out
    requires wasFrac <==> top > L
    modifies buf
    ensures outI == Cols(A, B, 0, L)
    ensures Frame(buf[..], lint, ldot, lfrac, lscale)
    ensures buf[..][lint..ldot] == outI && buf[..][lfrac..lfrac + lscale] == out
  {
    var size := L + rs + 3;
    var cur := cur0;
    lscale := size - cur;
    lfrac := cur;
    if wasFrac {
      cur := cur - 1;
      buf[cur] := '.';
    }
    ldot := cur;
    ghost var mid := buf[..];
    assert mid[lfrac..lfrac + lscale] == out;
    ghost var umTop;
    lint, umTop, outI := AddIntegerColumns(lhs, l, rhs, r, buf, L, rs, A, B, cur, um);
    FrameOfColumns(buf[..], mid, lint, ldot, lfrac, lscale, outI, out);
  }

  /** One column of the adder: the column sum `s` with the incoming carry
      gives the digit prepended to `out0` and the carry kept; `e` is a carry
      that came in below the columns. */
  lemma CarryColumn(A: seq<char>, B: seq<char>, k: nat, k1: nat, out0: seq<char>, um: nat, e: int, s: nat, out: seq<char>)
    requires k1 == k + 1 && k < |A| == |B| && |out0| == |A| - k1
    requires Val(out0) + um * Pow10(|out0|) == Val(A[k1..]) + Val(B[k1..]) + e
    requires s == um + DigitOf(A[k]) + DigitOf(B[k]) && out == [CharOf(s % 10)] + out0
    ensures Val(out) + (s / 10) * Pow10(|out|) == Val(A[k..]) + Val(B[k..]) + e
  {
    var P := Pow10(|out0|);
    ValCons(CharOf(s % 10), out0);
    ColumnValue(A, k);
    ColumnValue(B, k);
    assert Pow10(|out|) == 10 * P;
    CarryStep(Val(out0), um, s, P, Val(A[k + 1..]) + e, Val(B[k + 1..]), DigitOf(A[k]), DigitOf(B[k]));
  }

  /** One column of the adder: the digit written and the carry kept make up
      the column sum. */
  lemma CarryStep(vout: int, um: int, s: int, P: int, va: int, vb: int, da: int, db: int)
    requires vout + um * P == va + vb && s == um + da + db
    ensures (s % 10) * P + vout + (s / 10) * (10 * P) == (da * P + va) + (db * P + vb)
  {
    assert s == 10 * (s / 10) + s % 10;
    calc {
      (s % 10) * P + (s / 10) * (10 * P);
      (10 * (s / 10) + s % 10) * P;
      s * P;
      um * P + da * P + db * P;
    }
  }

  /** The fraction columns of the adder, right to left. A column is written
      only from the first non-zero column sum on, so the columns written are
      `L..top` and the columns from `top` on have zero sums. */
  method AddFractionColumns(lhs: string, l: Desc, rhs: string, r: Desc, buf: array<char>, L: nat, rs: nat,
                            ghost A: seq<char>, ghost B: seq<char>)
    returns (cur: nat, um: nat, wasFrac: bool, ghost out: seq<char>, ghost top: nat)
    requires Spans(lhs, l) && Spans(rhs, r)
    requires l.ldot - l.lint <= L && r.ldot - r.lint <= L && l.lscale <= rs && r.lscale <= rs
    requires Columns(lhs, l, L, rs, A) && Columns(rhs, r, L, rs, B)
    requires buf.Length == L + rs + 4
    modifies buf
    ensures um == Carry(A, B, L)
    ensures L <= top <= L + rs && out == Cols(A, B, L, top) && cur == L + rs + 3 - (top - L)
    ensures forall c :: top <= c < L + rs ==> ColSum(A, B, c) == 0
    ensures buf[cur..L + rs + 3] == out
    ensures wasFrac <==> top > L
  {
    var size := L + rs + 3;
    cur, um, wasFrac, out, top := size, 0, false, [], L + rs;
    var i: int := rs - 1;
    ghost var k := L + rs;
    while i >= 0
      invariant -1 <= i < rs && k == L + i + 1
      invariant um == Carry(A, B, k)
      invariant k <= top <= L + rs && out == Cols(A, B, k, top) && cur == size - (top - k)
      invariant forall c :: top <= c < L + rs ==> ColSum(A, B, c) == 0
      invariant buf[cur..size] == out
      invariant wasFrac <==> top > k
    {
      um := AddFracColumn(lhs, l, rhs, r, L, rs, A, B, i, um);
      assert um == ColSum(A, B, L + i);
      if um != 0 || wasFrac {
        var c := CharOf(um % 10);
        WriteDigit(buf, cur - 1, cur, size, c, out, [c] + out);
        out := [c] + out;
        cur := cur - 1;
        um := um / 10;
        wasFrac := true;
      } else {
        top := L + i;
      }
      i, k := i - 1, L + i;
    }
    assert k == L;
  }

  /** Fraction column `i` added into `um`, a digit missing from an operand
      counting as 0. */
  method AddFracColumn(lhs: string, l: Desc, rhs: string, r: Desc, L: nat, rs: nat,
                       ghost A: seq<char>, ghost B: seq<char>, i: nat, um0: nat) returns (um: nat)
    requires Spans(lhs, l) && Spans(rhs, r) && l.lscale <= rs && r.lscale <= rs && i < rs
    requires l.ldot - l.lint <= L && r.ldot - r.lint <= L
    requires Columns(lhs, l, L, rs, A) && Columns(rhs, r, L, rs, B)
    ensures um == um0 + DigitOf(A[L + i]) + DigitOf(B[L + i])
  {
    assert FracCol(A, L, i) == A[L + i] && FracCol(B, L, i) == B[L + i];
    um := um0;
    if i < l.lscale {
      um := um + DigitOf(lhs[l.lfrac + i]);
    }
    if i < r.lscale {
      um := um + DigitOf(rhs[r.lfrac + i]);
    }
  }

  /** Integer column `i`, counted from the '.', added into `um`, a digit
      missing from an operand counting as 0. */
  method AddIntColumn(lhs: string, l: Desc, rhs: string, r: Desc, L: nat, rs: nat,
                      ghost A: seq<char>, ghost B: seq<char>, i: nat, um0: nat) returns (um: nat)
    requires Spans(lhs, l) && Spans(rhs, r) && l.lscale <= rs && r.lscale <= rs && i < L
    requires l.ldot - l.lint <= L && r.ldot - r.lint <= L
    requires Columns(lhs, l, L, rs, A) && Columns(rhs, r, L, rs, B)
    ensures um == um0 + DigitOf(A[L - (i + 1)]) + DigitOf(B[L - (i + 1)])
  {
    assert IntCol(A, L, i) == A[L - (i + 1)] && IntCol(B, L, i) == B[L - (i + 1)];
    um := um0;
    if i < l.ldot - l.lint {
      um := um + DigitOf(lhs[l.ldot - i - 1]);
    }
    if i < r.ldot - r.lint {
      um := um + DigitOf(rhs[r.ldot - i - 1]);
    }
  }

  /** The integer columns of the adder, right to left, taking the carry `um0`
      out of the fraction columns; every column is written. */
  method AddIntegerColumns(lhs: string, l: Desc, rhs: string, r: Desc, buf: array<char>, L: nat, rs: nat,
                           ghost A: seq<char>, ghost B: seq<char>, cur0: nat, um0: nat)
    returns (cur: nat, um: nat, ghost outI: seq<char>)
    requires Spans(lhs, l) && Spans(rhs, r)
    requires l.ldot - l.lint <= L && r.ldot - r.lint <= L && l.lscale <= rs && r.lscale <= rs
    requires Columns(lhs, l, L, rs, A) && Columns(rhs, r, L, rs, B)
    requires L < cur0 < buf.Length && um0 == Carry(A, B, L)
    modifies buf
    ensures cur == cur0 - L && outI == Cols(A, B, 0, L) && um == Carry(A, B, 0)
    ensures buf[cur..cur0] == outI && buf[cur0..] == old(buf[cur0..])
  {
    cur, outI := cur0, [];
    um := um0;
    var i := 0;
    ghost var k := L;
    while i < L
      invariant 0 <= i <= L && k == L - i && cur == cur0 - i
      invariant um == Carry(A, B, k) && outI == Cols(A, B, k, L)
      invariant buf[cur..cur0] == outI && buf[cur0..] == old(buf[cur0..])
    {
      um := AddIntColumn(lhs, l, rhs, r, L, rs, A, B, i, um);
      assert um == ColSum(A, B, L - (i + 1));
      var c := CharOf(um % 10);
      WriteDigit(buf, cur - 1, cur, cur0, c, outI, [c] + outI);
      outI := [c] + outI;
      cur := cur - 1;
      um := um / 10;
      i, k := i + 1, L - (i + 1);
    }
  }
}
