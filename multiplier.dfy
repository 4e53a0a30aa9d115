/** The multiplier kernel `bc_mul_positive`: every digit of one magnitude is
    multiplied by every digit of the other into an array of column sums, the
    sums are carried out to single digits, the digits are written into a fresh
    buffer from its end, and the buffer goes to `bc_round` in truncating mode
    without padding. */
module Multiplier {
  import opened Digits
  import opened Parser
  import opened Normalizer
  import opened NormalizerFacts
  import opened RoundBuffer
  import opened Alignment

  /** Integer columns of a product: the two integer spans together. */
  function MulWidth(l: Desc, r: Desc): int { (l.ldot - l.lint) + (r.ldot - r.lint) }

  /** Fraction columns of a product: the two scales together. */
  function MulScale(l: Desc, r: Desc): nat { l.lscale + r.lscale }

  /** The digits of the product of two magnitudes over the product's columns. */
  function MulDigits(lhs: string, l: Desc, rhs: string, r: Desc): (D: seq<char>)
    requires Spans(lhs, l) && Spans(rhs, r)
    ensures |D| == MulWidth(l, r) + MulScale(l, r) && AllDigits(D)
  {
    Spell(Magnitude(lhs, l) * Magnitude(rhs, r), MulWidth(l, r) + MulScale(l, r))
  }

  /** What `bc_mul_positive` returns: the product, cut to `scale` fraction
      digits and not padded, with the given sign. */
  function MulText(lhs: string, l: Desc, rhs: string, r: Desc, scale: nat, sign: int): string
    requires Spans(lhs, l) && Spans(rhs, r)
  {
    var D := MulDigits(lhs, l, rhs, r);
    TruncText(sign, D[..MulWidth(l, r)], D[MulWidth(l, r)..], scale, false)
  }

  /** The product always fits the columns: the digits spell it exactly, with
      `lscale + rscale` fraction places. */
  lemma MulExact(lhs: string, l: Desc, rhs: string, r: Desc)
    requires Spans(lhs, l) && Spans(rhs, r)
    ensures Val(MulDigits(lhs, l, rhs, r)) == Magnitude(lhs, l) * Magnitude(rhs, r)
  {
    MulFits(lhs, l, rhs, r);
    SpellSmall(Magnitude(lhs, l) * Magnitude(rhs, r), MulWidth(l, r) + MulScale(l, r));
  }

  lemma MulFits(lhs: string, l: Desc, rhs: string, r: Desc)
    requires Spans(lhs, l) && Spans(rhs, r)
    ensures Magnitude(lhs, l) * Magnitude(rhs, r) < Pow10(MulWidth(l, r) + MulScale(l, r))
  {
    var ML, MR := MagDigits(lhs, l), MagDigits(rhs, r);
    ValBounds(ML);
    ValBounds(MR);
    Pow10Add(|ML|, |MR|);
    ProductBound(Val(ML), Val(MR), Pow10(|ML|), Pow10(|MR|));
    assert |ML| + |MR| == MulWidth(l, r) + MulScale(l, r);
  }

  lemma ProductBound(a: int, b: int, Pa: int, Pb: int)
    requires 0 <= a < Pa && 0 <= b < Pb
    ensures a * b < Pa * Pb
  {
    MulLe(a, Pa - 1, b);
    MulLe(b, Pb - 1, Pa - 1);
    assert (Pb - 1) * (Pa - 1) == Pa * Pb - Pa - Pb + 1;
  }

  // ---------------------------------------------------------------- column sums

  /** `s[0] + s[1] * 10 + ... + s[n - 1] * 10^(n - 1)`: the number an array
      of column sums stands for, lowest column first. */
  function Weighted(s: seq<int>, n: nat): int
    requires n <= |s|
    decreases n
  {
    if n == 0 then 0 else Weighted(s, n - 1) + s[n - 1] * Pow10(n - 1)
  }

  /** Adding `d` to column `k` adds `d * 10^k` to the number. */
  lemma {:induction false} WeightedUpdate(s: seq<int>, k: nat, d: int, n: nat, P: int)
    requires k < |s| && n <= |s| && P == Pow10(k)
    ensures Weighted(s[k := s[k] + d], n) == Weighted(s, n) + (if k < n then d * P else 0)
    decreases n
  {
    if n > 0 {
      WeightedUpdate(s, k, d, n - 1, P);
      if k == n - 1 {
        assert (s[k] + d) * P == s[k] * P + d * P;
      }
    }
  }

  lemma {:induction false} WeightedZero(s: seq<int>, n: nat)
    requires n <= |s| && forall k :: 0 <= k < n ==> s[k] == 0
    ensures Weighted(s, n) == 0
    decreases n
  {
    if n > 0 {
      WeightedZero(s, n - 1);
    }
  }

  /** Moving the tens of column `i` into column `i + 1` keeps the number. */
  lemma CarryKeepsWeight(s: seq<int>, i: nat, n: nat)
    requires i + 1 < |s| == n
    ensures Weighted(s[i + 1 := s[i + 1] + s[i] / 10][i := s[i] % 10], n) == Weighted(s, n)
  {
    var c := s[i] / 10;
    var P := Pow10(i);
    var t := s[i + 1 := s[i + 1] + c];
    WeightedUpdate(s, i + 1, c, n, 10 * P);
    assert t[i] == s[i];
    assert t[i := t[i] + -(10 * c)] == t[i := s[i] % 10];
    WeightedUpdate(t, i, -(10 * c), n, P);
    assert c * (10 * P) + -(10 * c) * P == 0;
  }

  /** With non-negative columns, a number below `10^n` has nothing in the
      columns from `n` on. */
  lemma {:induction false} WeightedTop(s: seq<int>, n: nat, m: nat)
    requires n <= m <= |s| && forall k :: 0 <= k < m ==> s[k] >= 0
    requires Weighted(s, m) < Pow10(n)
    ensures Weighted(s, n) == Weighted(s, m)
    decreases m
  {
    if m > n {
      WeightedNonNegative(s, m - 1);
      if s[m - 1] > 0 {
        Pow10Mono(n, m - 1);
        MulLe(1, s[m - 1], Pow10(m - 1));
      }
      WeightedTop(s, n, m - 1);
    }
  }

  lemma {:induction false} WeightedNonNegative(s: seq<int>, n: nat)
    requires n <= |s| && forall k :: 0 <= k < n ==> s[k] >= 0
    ensures Weighted(s, n) >= 0
    decreases n
  {
    if n > 0 {
      WeightedNonNegative(s, n - 1);
    }
  }

  /** The characters of columns `lo..hi` of a carried-out array, highest
      column first. */
  function DigitRun(s: seq<int>, lo: nat, hi: nat): (D: seq<char>)
    requires lo <= hi <= |s| && forall k :: lo <= k < hi ==> 0 <= s[k] <= 9
    ensures |D| == hi - lo && AllDigits(D)
    decreases hi - lo
  {
    if hi == lo then [] else [CharOf(s[hi - 1])] + DigitRun(s, lo, hi - 1)
  }

  /** The characters of the low `n` columns spell the number those columns
      stand for. */
  lemma {:induction false} DigitRunValue(s: seq<int>, n: nat)
    requires n <= |s| && forall k :: 0 <= k < n ==> 0 <= s[k] <= 9
    ensures Val(DigitRun(s, 0, n)) == Weighted(s, n)
    decreases n
  {
    if n > 0 {
      DigitRunValue(s, n - 1);
      ValCons(CharOf(s[n - 1]), DigitRun(s, 0, n - 1));
    }
  }

  lemma {:induction false} DigitRunSplit(s: seq<int>, lo: nat, mid: nat, hi: nat)
    requires lo <= mid <= hi <= |s| && forall k :: lo <= k < hi ==> 0 <= s[k] <= 9
    ensures DigitRun(s, lo, hi) == DigitRun(s, mid, hi) + DigitRun(s, lo, mid)
    decreases hi - mid
  {
    if mid < hi {
      DigitRunSplit(s, lo, mid, hi - 1);
      var c := [CharOf(s[hi - 1])];
      assert c + (DigitRun(s, mid, hi - 1) + DigitRun(s, lo, mid)) == (c + DigitRun(s, mid, hi - 1)) + DigitRun(s, lo, mid);
    }
  }

  // ---------------------------------------------------------------- digits by weight

  /** The low `p` digits of a digit string, as a number. */
  function Low(M: seq<char>, p: nat): nat
    requires p <= |M|
  {
    Val(M[|M| - p..])
  }

  /** The digit of weight `10^p` joins the low digits at that weight. */
  lemma LowStep(M: seq<char>, p: nat, P: int)
    requires p < |M| && P == Pow10(p)
    ensures Low(M, p + 1) == DigitOf(M[|M| - 1 - p]) * P + Low(M, p)
  {
    var k := |M| - 1 - p;
    ColumnValue(M, k);
    assert M[|M| - (p + 1)..] == M[k..] && M[|M| - p..] == M[k + 1..];
    assert Pow10(|M| - k - 1) == P;
  }

  lemma LowAll(M: seq<char>)
    ensures Low(M, |M|) == Val(M)
  {
    assert M[|M| - |M|..] == M;
  }

  // ---------------------------------------------------------------- the kernel

  /** `bc_mul_positive` as written. */
  method MulPositive(lhs: string, l: Desc, rhs: string, r: Desc, scale: nat, sign: int) returns (res: string)
    requires Spans(lhs, l) && Spans(rhs, r)
    ensures res == MulText(lhs, l, rhs, r, scale, sign)
  {
    var buf, lint, ldot, lfrac, lscale := MulColumns(lhs, l, rhs, r);
    res := BcRound(buf, lint, ldot, lfrac, lscale, scale, sign, false, false);
  }

  /** The digit buffer of `bc_mul_positive`: its integer span holds the
      product's integer digits and its fraction span the product's
      `lscale + rscale` fraction digits. */
  method MulColumns(lhs: string, l: Desc, rhs: string, r: Desc)
    returns (buf: array<char>, lint: nat, ldot: nat, lfrac: nat, lscale: nat)
    requires Spans(lhs, l) && Spans(rhs, r)
    ensures fresh(buf)
    ensures Frame(buf[..], lint, ldot, lfrac, lscale)
    ensures var D := MulDigits(lhs, l, rhs, r);
      buf[..][lint..ldot] == D[..MulWidth(l, r)] && buf[..][lfrac..lfrac + lscale] == D[MulWidth(l, r)..]
  {
    var resultLen := MulWidth(l, r);
    var resultScale := MulScale(l, r);
    var size := resultLen + resultScale + 3;
    var res := new int[size]((k: int) => 0);
    Convolve(lhs, l, rhs, r, res);
    PropagateCarries(res);
    ProductColumns(lhs, l, rhs, r, res[..]);
    buf, lint, ldot, lfrac, lscale := WriteProduct(res, resultLen, resultScale);
  }

  /** The writing half of `bc_mul_positive`: the carried-out columns go into
      a fresh buffer from its end, the fraction columns first, then a '.' when
      there are any, then the integer columns. */
  method WriteProduct(res: array<int>, resultLen: nat, resultScale: nat)
    returns (buf: array<char>, lint: nat, ldot: nat, lfrac: nat, lscale: nat)
    requires res.Length == resultLen + resultScale + 3
    requires forall k :: 0 <= k < res.Length - 1 ==> 0 <= res[k] <= 9
    ensures fresh(buf)
    ensures Frame(buf[..], lint, ldot, lfrac, lscale)
    ensures buf[..][lint..ldot] == DigitRun(res[..], resultScale, resultLen + resultScale)
    ensures buf[..][lfrac..lfrac + lscale] == DigitRun(res[..], 0, resultScale)
  {
    var size := res.Length;
    ghost var R := res[..];
    buf := new char[size + 1]((k: int) => if k < size then '0' else '\0');
    assert buf[size] == '\0';
    ghost var tail := buf[size..];

    WriteRun(buf, res, 0, resultScale, size);
    ghost var afterFrac := buf[..];
    assert afterFrac[size - resultScale..size] == DigitRun(R, 0, resultScale);
    var cur := size - resultScale;
    lscale := resultScale;
    lfrac := cur;
    if resultScale > 0 {
      cur := cur - 1;
      buf[cur] := '.';
      assert buf[..] == afterFrac[cur := '.'];
      SliceUpdate(afterFrac, cur, '.', lfrac, size);
    }
    ldot := cur;
    ghost var mid := buf[..];
    assert mid[lfrac..lfrac + lscale] == DigitRun(R, 0, resultScale);
    assert resultScale == 0 ==> mid[ldot] == tail[0];

    WriteRun(buf, res, resultScale, resultLen + resultScale, ldot);
    lint := ldot - resultLen;
    FrameOfColumns(buf[..], mid, lint, ldot, lfrac, lscale, DigitRun(R, resultScale, resultLen + resultScale), DigitRun(R, 0, resultScale));
  }

  lemma SliceUpdate(s: seq<char>, pos: nat, c: char, a: nat, b: nat)
    requires pos < a <= b <= |s|
    ensures s[pos := c][a..b] == s[a..b]
  {
  }

  /** After the carry loop the columns below the product's width spell the
      product's digits, fraction columns lowest. */
  lemma ProductColumns(lhs: string, l: Desc, rhs: string, r: Desc, R: seq<int>)
    requires Spans(lhs, l) && Spans(rhs, r)
    requires |R| == MulWidth(l, r) + MulScale(l, r) + 3
    requires Weighted(R, |R|) == Magnitude(lhs, l) * Magnitude(rhs, r)
    requires forall k :: 0 <= k < |R| - 1 ==> 0 <= R[k] <= 9
    requires forall k :: 0 <= k < |R| ==> R[k] >= 0
    ensures var n := MulWidth(l, r) + MulScale(l, r); var D := MulDigits(lhs, l, rhs, r);
      D[..MulWidth(l, r)] == DigitRun(R, MulScale(l, r), n) && D[MulWidth(l, r)..] == DigitRun(R, 0, MulScale(l, r))
  {
    var n := MulWidth(l, r) + MulScale(l, r);
    MulFits(lhs, l, rhs, r);
    WeightedTop(R, n, |R|);
    DigitRunValue(R, n);
    MulExact(lhs, l, rhs, r);
    ValInjective(DigitRun(R, 0, n), MulDigits(lhs, l, rhs, r));
    DigitRunSplit(R, 0, MulScale(l, r), n);
    var D := MulDigits(lhs, l, rhs, r);
    assert D == DigitRun(R, MulScale(l, r), n) + DigitRun(R, 0, MulScale(l, r));
  }

  /** A digit-writing loop of `bc_mul_positive`: columns `lo..hi` go into the
      buffer from position `end` down, lowest column last. */
  method WriteRun(buf: array<char>, res: array<int>, lo: nat, hi: nat, end: nat)
    requires lo <= hi <= res.Length && hi - lo <= end <= buf.Length
    requires forall k :: lo <= k < hi ==> 0 <= res[k] <= 9
    modifies buf
    ensures buf[end - (hi - lo)..end] == DigitRun(res[..], lo, hi) && buf[end..] == old(buf[end..])
  {
    ghost var R := res[..];
    var cur := end;
    var i := lo;
    while i < hi
      invariant lo <= i <= hi && cur == end - (i - lo)
      invariant buf[cur..end] == DigitRun(R, lo, i) && buf[end..] == old(buf[end..])
    {
      WriteDigit(buf, cur - 1, cur, end, CharOf(res[i]), DigitRun(R, lo, i), DigitRun(R, lo, i + 1));
      cur := cur - 1;
      i := i + 1;
    }
  }

  /** The double loop of `bc_mul_positive`: the product of the digits of
      weights `10^i` and `10^j` is added into column `i + j + lscale + rscale`,
      so the columns come to stand for the product of the magnitudes. */
  method Convolve(lhs: string, l: Desc, rhs: string, r: Desc, res: array<int>)
    requires Spans(lhs, l) && Spans(rhs, r)
    requires res.Length >= MulWidth(l, r) + MulScale(l, r)
    requires forall k :: 0 <= k < res.Length ==> res[k] == 0
    modifies res
    ensures Weighted(res[..], res.Length) == Magnitude(lhs, l) * Magnitude(rhs, r)
    ensures forall k :: 0 <= k < res.Length ==> res[k] >= 0
  {
    var llen := l.ldot - l.lint;
    ghost var ML, MR := MagDigits(lhs, l), MagDigits(rhs, r);
    WeightedZero(res[..], res.Length);
    var i: int := -(l.lscale as int);
    while i < llen
      invariant -(l.lscale as int) <= i <= llen
      invariant Weighted(res[..], res.Length) == Low(ML, i + l.lscale) * Val(MR)
      invariant forall k :: 0 <= k < res.Length ==> res[k] >= 0
    {
      var x := DigitAtWeight(lhs, l, i);
      ConvolveRow(rhs, r, res, x, i + l.lscale, i + MulScale(l, r), Low(ML, i + l.lscale) * Val(MR));
      OuterStep(Weighted(res[..], res.Length), x, i + l.lscale, ML, MR);
      i := i + 1;
    }
    LowAll(ML);
  }

  /** The inner loop of `bc_mul_positive`: the left digit `x` of weight
      `10^p` times every digit of the right magnitude, added at the weights of
      the two digits together (`i + j + result_scale`, here `j + base`). */
  method ConvolveRow(rhs: string, r: Desc, res: array<int>, x: nat, p: nat, base: int, ghost w0: int)
    requires Spans(rhs, r) && base == p + r.lscale
    requires p + |MagDigits(rhs, r)| <= res.Length
    requires Weighted(res[..], res.Length) == w0
    requires forall k :: 0 <= k < res.Length ==> res[k] >= 0
    modifies res
    ensures Weighted(res[..], res.Length) == w0 + x * Pow10(p) * Val(MagDigits(rhs, r))
    ensures forall k :: 0 <= k < res.Length ==> res[k] >= 0
  {
    ghost var MR := MagDigits(rhs, r);
    var rlen := r.ldot - r.lint;
    var j: int := -(r.lscale as int);
    while j < rlen
      invariant -(r.lscale as int) <= j <= rlen
      invariant Weighted(res[..], res.Length) == w0 + x * Pow10(p) * Low(MR, j + r.lscale)
      invariant forall k :: 0 <= k < res.Length ==> res[k] >= 0
    {
      var y := DigitAtWeight(rhs, r, j);
      ghost var before := res[..];
      AddAt(res, j + base, x * y);
      ConvolveStep(before, p + (j + r.lscale), x, y, p, j + r.lscale, w0, MR);
      j := j + 1;
    }
    LowAll(MR);
  }

  /** `res[k] += d`. */
  method AddAt(res: array<int>, k: nat, d: int)
    requires k < res.Length
    modifies res
    ensures res[..] == old(res[..])[k := old(res[k]) + d]
  {
    res[k] := res[k] + d;
  }

  /** One step of the inner loop: the digit product lands at the weight of
      the two digits together. */
  lemma ConvolveStep(s: seq<int>, k: nat, x: int, y: int, p: nat, q: nat, w0: int, MR: seq<char>)
    requires k == p + q && k < |s| && q < |MR|
    requires Weighted(s, |s|) == w0 + x * Pow10(p) * Low(MR, q)
    requires y == DigitOf(MR[|MR| - 1 - q])
    ensures Weighted(s[k := s[k] + x * y], |s|) == w0 + x * Pow10(p) * Low(MR, q + 1)
  {
    WeightedUpdate(s, k, x * y, |s|, Pow10(k));
    LowStep(MR, q, Pow10(q));
    Pow10Add(p, q);
    ConvolveArith(Weighted(s, |s|), w0, x, y, Pow10(p), Pow10(q), Pow10(k), Low(MR, q), Low(MR, q + 1));
  }

  lemma ConvolveArith(w: int, a: int, x: int, y: int, Pp: int, Pq: int, Pk: int, lq: int, lq1: int)
    requires w == a + x * Pp * lq && lq1 == y * Pq + lq && Pk == Pp * Pq
    ensures w + x * y * Pk == a + x * Pp * lq1
  {
    calc {
      a + x * Pp * lq1;
      a + x * Pp * (y * Pq + lq);
      a + x * Pp * lq + x * y * (Pp * Pq);
    }
  }

  /** One step of the outer loop: a digit of the left magnitude has been
      multiplied by the whole right magnitude. */
  lemma OuterStep(w: int, x: int, p: nat, ML: seq<char>, MR: seq<char>)
    requires p < |ML| && x == DigitOf(ML[|ML| - 1 - p])
    requires w == Low(ML, p) * Val(MR) + x * Pow10(p) * Val(MR)
    ensures w == Low(ML, p + 1) * Val(MR)
  {
    LowStep(ML, p, Pow10(p));
    Distribute(w, Low(ML, p), x * Pow10(p), Val(MR), Low(ML, p + 1));
  }

  lemma Distribute(w: int, a: int, b: int, v: int, c: int)
    requires w == a * v + b * v && c == b + a
    ensures w == c * v
  {
  }

  /** The carry loop of `bc_mul_positive`: each column keeps its last digit
      and passes its tens on to the next. */
  method PropagateCarries(res: array<int>)
    requires res.Length >= 1 && forall k :: 0 <= k < res.Length ==> res[k] >= 0
    modifies res
    ensures Weighted(res[..], res.Length) == old(Weighted(res[..], res.Length))
    ensures forall k :: 0 <= k < res.Length - 1 ==> 0 <= res[k] <= 9
    ensures forall k :: 0 <= k < res.Length ==> res[k] >= 0
  {
    var i := 0;
    while i + 1 < res.Length
      invariant 0 <= i < res.Length
      invariant Weighted(res[..], res.Length) == old(Weighted(res[..], res.Length))
      invariant forall k :: 0 <= k < i ==> 0 <= res[k] <= 9
      invariant forall k :: 0 <= k < res.Length ==> res[k] >= 0
    {
      ghost var before := res[..];
      res[i + 1] := res[i + 1] + res[i] / 10;
      res[i] := res[i] % 10;
      assert res[..] == before[i + 1 := before[i + 1] + before[i] / 10][i := before[i] % 10];
      CarryKeepsWeight(before, i, res.Length);
      i := i + 1;
    }
  }
}
