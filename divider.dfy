/** The divider kernel `bc_div_positive`: schoolbook long division. Both
    magnitudes are copied into int arrays, the divisor's leading zeros are
    skipped, and each quotient digit counts how often the divisor can be
    taken from a window of the dividend that moves one place right per digit.
    The quotient digits and the '.' are written into a buffer that goes to
    `bc_round` in truncating mode without padding. */
module Divider {
  import opened Digits
  import opened Wrappers
  import opened Parser
  import opened Normalizer
  import opened NormalizerFacts
  import opened RoundBuffer
  import opened Alignment

  // ---------------------------------------------------------------- specification

  /** A character of a C string: the terminating NUL at and past the end. */
  function CharAt(s: string, i: nat): char { if i < |s| then s[i] else '\0' }

  /** The leading '0's of a digit string: the divisor digits the kernel skips. */
  function LeadingZeros(M: seq<char>): (n: nat)
    ensures n <= |M| && AllZero(M[..n]) && (n < |M| ==> M[n] != '0')
  {
    if |M| > 0 && M[0] == '0' then
      var n := 1 + LeadingZeros(M[1..]);
      assert M[..n] == [M[0]] + M[1..][..n - 1];
      n
    else 0
  }

  /** `cur_pow` at the start: the power of ten of the quotient's first digit
      place, from the integer widths and the divisor's skipped zeros. */
  function FirstPower(lhs: string, l: Desc, rhs: string, r: Desc): int
    requires Spans(lhs, l) && Spans(rhs, r)
  {
    (l.ldot - l.lint) - (r.ldot - r.lint) + LeadingZeros(MagDigits(rhs, r))
  }

  /** The quotient of the two numerals, truncated to `scale` fraction digits,
      as an integer scaled by `10^scale`. */
  function Quotient(lhs: string, l: Desc, rhs: string, r: Desc, scale: nat): nat
    requires Spans(lhs, l) && Spans(rhs, r) && Magnitude(rhs, r) > 0
  {
    ScaledDiv(Magnitude(lhs, l), Pow10(r.lscale + scale), Magnitude(rhs, r), Pow10(l.lscale))
  }

  /** `(a * pa) / (b * pb)`. */
  function ScaledDiv(a: nat, pa: nat, b: nat, pb: nat): nat
    requires b > 0 && pb > 0
  {
    MulLe(0, a, pa);
    MulLe(1, b, pb);
    (a * pa) / (b * pb)
  }

  /** The integer places of the quotient: from its first digit place down,
      and at least the units place. */
  function DivWidth(lhs: string, l: Desc, rhs: string, r: Desc): nat
    requires Spans(lhs, l) && Spans(rhs, r)
  {
    var p := FirstPower(lhs, l, rhs, r);
    if p < 0 then 1 else p + 1
  }

  /** The quotient's digits over its integer places and `scale` fraction places. */
  function DivDigits(lhs: string, l: Desc, rhs: string, r: Desc, scale: nat): (D: seq<char>)
    requires Spans(lhs, l) && Spans(rhs, r) && Magnitude(rhs, r) > 0
    ensures |D| == DivWidth(lhs, l, rhs, r) + scale && AllDigits(D)
  {
    Spell(Quotient(lhs, l, rhs, r, scale), DivWidth(lhs, l, rhs, r) + scale)
  }

  /** What `bc_div_positive` does: "0" for a divisor whose text is a single
      '0' with no fraction, `None` (the `BC_ASSERT` that ends the process) for
      any other zero divisor, and otherwise the quotient cut to `scale`
      fraction digits, not padded, with the given sign. */
  function DivText(lhs: string, l: Desc, rhs: string, r: Desc, scale: nat, sign: int): Option<string>
    requires Spans(lhs, l) && Spans(rhs, r)
  {
    if r.lscale == 0 && CharAt(rhs, r.lint) == '0' then Some("0")
    else if Magnitude(rhs, r) == 0 then None
    else
      var D, W := DivDigits(lhs, l, rhs, r, scale), DivWidth(lhs, l, rhs, r);
      Some(TruncText(sign, D[..W], D[W..], scale, false))
  }

  /** A nonzero magnitude is at least ten to the number of its digits after
      the leading zeros, less one. */
  lemma MagnitudeFloor(s: string, d: Desc)
    requires Spans(s, d) && Magnitude(s, d) > 0
    ensures var M := MagDigits(s, d); var z := LeadingZeros(M);
      z < |M| && Magnitude(s, d) >= Pow10(|M| - z - 1)
  {
    ValFloor(MagDigits(s, d));
  }

  /** The same for a digit string: a nonzero value is at least ten to the
      number of digits after the leading zeros, less one. */
  lemma ValFloor(M: seq<char>)
    requires AllDigits(M) && Val(M) > 0
    ensures var z := LeadingZeros(M); z < |M| && Val(M) >= Pow10(|M| - z - 1)
  {
    var z := LeadingZeros(M);
    SkipLeadingZeros(M, z);
    FirstDigitFloor(M[z..]);
  }

  /** A digit string with a nonzero first digit is at least ten to its
      length less one. */
  lemma FirstDigitFloor(T: seq<char>)
    requires AllDigits(T) && |T| >= 1 && T[0] != '0'
    ensures Val(T) >= Pow10(|T| - 1)
  {
    assert T == [T[0]] + T[1..];
    ValCons(T[0], T[1..]);
    assert IsDigit(T[0]);
    MulLe(1, DigitOf(T[0]), Pow10(|T| - 1));
  }

  /** The leading zeros of a nonzero digit string are not all of it, and
      dropping them keeps the value. */
  lemma SkipLeadingZeros(M: seq<char>, z: nat)
    requires AllDigits(M) && Val(M) > 0 && z == LeadingZeros(M)
    ensures z < |M| && Val(M[z..]) == Val(M)
  {
    if z == |M| {
      assert M[..z] == M;
      ValAllZero(M);
    }
    assert M[..z] == Zeros(z);
    assert M == Zeros(z) + M[z..];
    ValLeadingZeros(z, M[z..]);
  }

  /** A number below `B * P` gives a quotient by `B` below `P`. */
  lemma DivBelow(A: int, B: int, P: int)
    requires 0 <= A < B * P && B > 0
    ensures A / B < P
  {
    var q := A / B;
    assert B * q <= A;
    if q >= P {
      MulLe(P, q, B);
    }
  }

  /** A number of at most `a` digits over one of at least `b + 1` digits. */
  lemma QuotientBound(A: int, B: int, a: nat, b: nat)
    requires 0 <= A < Pow10(a) && B >= Pow10(b)
    ensures a <= b ==> A / B == 0
    ensures a > b ==> A / B < Pow10(a - b)
  {
    if a <= b {
      Pow10Mono(a, b);
      DivModUnique(A, B, 0, A);
    } else {
      Pow10Add(b, a - b);
      MulLe(Pow10(b), B, Pow10(a - b));
      DivBelow(A, B, Pow10(a - b));
    }
  }

  lemma ScaledBelow(x: int, X: int, P: int)
    requires 0 <= x < X && P >= 1
    ensures 0 <= x * P < X * P
  {
    MulLe(0, x, P);
    MulLe(x + 1, X, P);
  }

  /** The quotient has no digit above the first place `cur_pow`: it fits the
      digits the kernel writes, and it is zero when the first place lies below
      the last fraction place. */
  lemma QuotientFits(lhs: string, l: Desc, rhs: string, r: Desc, scale: nat)
    requires Spans(lhs, l) && Spans(rhs, r) && Magnitude(rhs, r) > 0
    ensures var e := FirstPower(lhs, l, rhs, r) + scale + 1;
      && (e <= 0 ==> Quotient(lhs, l, rhs, r, scale) == 0)
      && (e > 0 ==> Quotient(lhs, l, rhs, r, scale) < Pow10(e))
      && Quotient(lhs, l, rhs, r, scale) < Pow10(DivWidth(lhs, l, rhs, r) + scale)
  {
    var ML, MR := MagDigits(lhs, l), MagDigits(rhs, r);
    var z := LeadingZeros(MR);
    var mL, mR := Magnitude(lhs, l), Magnitude(rhs, r);
    MagnitudeFloor(rhs, r);
    ValBounds(ML);
    var A := mL * Pow10(r.lscale + scale);
    var B := mR * Pow10(l.lscale);
    var a: nat := |ML| + r.lscale + scale;
    var b: nat := |MR| - z - 1 + l.lscale;
    assert 0 <= A < Pow10(a) by {
      Pow10Add(|ML|, r.lscale + scale);
      ScaledBelow(mL, Pow10(|ML|), Pow10(r.lscale + scale));
    }
    assert B >= Pow10(b) by {
      Pow10Add(|MR| - z - 1, l.lscale);
      MulLe(Pow10(|MR| - z - 1), mR, Pow10(l.lscale));
    }
    QuotientBound(A, B, a, b);
    assert Quotient(lhs, l, rhs, r, scale) == A / B by {
      assert Quotient(lhs, l, rhs, r, scale) == ScaledDiv(mL, Pow10(r.lscale + scale), mR, Pow10(l.lscale));
    }
    var e := FirstPower(lhs, l, rhs, r) + scale + 1;
    var W := DivWidth(lhs, l, rhs, r);
    assert e == a - b;
    if e <= 0 {
      Pow10Mono(0, W + scale);
    } else {
      Pow10Mono(e, W + scale);
    }
  }

  /** The quotient's digits spell it exactly. */
  lemma DivExact(lhs: string, l: Desc, rhs: string, r: Desc, scale: nat)
    requires Spans(lhs, l) && Spans(rhs, r) && Magnitude(rhs, r) > 0
    ensures Val(DivDigits(lhs, l, rhs, r, scale)) == Quotient(lhs, l, rhs, r, scale)
  {
    QuotientFits(lhs, l, rhs, r, scale);
    SpellSmall(Quotient(lhs, l, rhs, r, scale), DivWidth(lhs, l, rhs, r) + scale);
  }

  /** The digits the quotient text is rendered from, leading zeros aside, are
      the truncated quotient: the result is the quotient cut to `scale`
      fraction digits. */
  lemma DivRendersQuotient(lhs: string, l: Desc, rhs: string, r: Desc, scale: nat)
    requires Spans(lhs, l) && Spans(rhs, r) && Magnitude(rhs, r) > 0
    ensures var D, W := DivDigits(lhs, l, rhs, r, scale), DivWidth(lhs, l, rhs, r);
      Val(StripLeading(D[..W]) + D[W..]) == Quotient(lhs, l, rhs, r, scale)
  {
    DivExact(lhs, l, rhs, r, scale);
    DigitsSplit(DivDigits(lhs, l, rhs, r, scale), DivWidth(lhs, l, rhs, r));
  }

  /** A digit string is its first `W` digits followed by the rest. */
  lemma DigitsSplit(D: seq<char>, W: nat)
    requires W <= |D| && AllDigits(D)
    ensures Val(StripLeading(D[..W]) + D[W..]) == Val(D)
  {
    assert D[..W] + D[W..] == D;
    StripKeepsValue(D[..W], D[W..]);
  }

  // ---------------------------------------------------------------- digit arrays

  /** The number an int array of digits stands for, most significant first;
      a digit may stand outside 0..9 while a borrow is pending. */
  function Num(s: seq<int>): int {
    if |s| == 0 then 0 else Num(s[..|s| - 1]) * 10 + s[|s| - 1]
  }

  predicate Digits09(s: seq<int>) { forall k :: 0 <= k < |s| ==> 0 <= s[k] <= 9 }

  /** The digits of a digit string as ints (`c - '0'`). */
  function Ints(M: seq<char>): (s: seq<int>)
    ensures |s| == |M| && Digits09(s)
  {
    seq(|M|, k requires 0 <= k < |M| => DigitOf(M[k]) as int)
  }

  lemma {:induction false} NumAppend(a: seq<int>, b: seq<int>)
    ensures Num(a + b) == Num(a) * Pow10(|b|) + Num(b)
    decreases |b|
  {
    if |b| == 0 {
      assert a + b == a;
    } else {
      var ab := a + b;
      var b1 := b[..|b| - 1];
      assert ab[..|ab| - 1] == a + b1;
      NumAppend(a, b1);
      calc {
        Num(ab);
        Num(a + b1) * 10 + b[|b| - 1];
        (Num(a) * Pow10(|b1|) + Num(b1)) * 10 + b[|b| - 1];
        Num(a) * (Pow10(|b1|) * 10) + (Num(b1) * 10 + b[|b| - 1]);
      }
    }
  }

  /** Changing one digit by `d` changes the number by `d` at that digit's weight. */
  lemma NumUpdate(s: seq<int>, k: nat, d: int, P: int)
    requires k < |s| && P == Pow10(|s| - 1 - k)
    ensures Num(s[k := s[k] + d]) == Num(s) + d * P
  {
    var h, x, tl := s[..k], s[k], s[k + 1..];
    var s2 := s[k := s[k] + d];
    assert s == h + [x] + tl;
    assert s2 == h + [x + d] + tl;
    assert |tl| == |s| - 1 - k;
    NumAround(h, x, tl);
    NumAround(h, x + d, tl);
    ShiftArith(Num(h + [x]), Num(h + [x + d]), d, P, Num(tl));
    assert Num(s2) == Num(h + [x + d]) * P + Num(tl);
  }

  /** The number of `h + [x] + t`. */
  lemma NumAround(h: seq<int>, x: int, t: seq<int>)
    ensures Num(h + [x] + t) == Num(h + [x]) * Pow10(|t|) + Num(t)
    ensures Num(h + [x]) == Num(h) * 10 + x
  {
    NumAppend(h + [x], t);
    NumLast(h, x);
  }

  lemma NumLast(a: seq<int>, x: int)
    ensures Num(a + [x]) == Num(a) * 10 + x
  {
    assert (a + [x])[..|a|] == a;
  }

  lemma ShiftArith(a1: int, a2: int, d: int, P: int, b: int)
    requires a2 == a1 + d
    ensures a2 * P + b == a1 * P + b + d * P
  {
  }

  lemma {:induction false} NumBounds(s: seq<int>)
    requires Digits09(s)
    ensures 0 <= Num(s) < Pow10(|s|)
    decreases |s|
  {
    if |s| > 0 {
      NumBounds(s[..|s| - 1]);
    }
  }

  lemma {:induction false} NumOfInts(M: seq<char>)
    ensures Num(Ints(M)) == Val(M)
    decreases |M|
  {
    if |M| > 0 {
      assert Ints(M)[..|M| - 1] == Ints(M[..|M| - 1]);
      NumOfInts(M[..|M| - 1]);
    }
  }

  /** Two digit arrays of one width are ordered by the first place they differ. */
  lemma NumFirstDifference(a: seq<int>, b: seq<int>, i: nat)
    requires |a| == |b| && Digits09(a) && Digits09(b)
    requires i < |a| && a[..i] == b[..i] && a[i] != b[i]
    ensures Num(a) < Num(b) <==> a[i] < b[i]
  {
    var h, ta, tb := a[..i], a[i + 1..], b[i + 1..];
    assert a == h + [a[i]] + ta;
    assert b == h + [b[i]] + tb;
    NumAround(h, a[i], ta);
    NumAround(h, b[i], tb);
    Digits09Suffix(a, i + 1);
    Digits09Suffix(b, i + 1);
    NumBounds(ta);
    NumBounds(tb);
    var t := Pow10(|ta|);
    if a[i] < b[i] {
      HeadDecides(Num(h + [a[i]]), Num(h + [b[i]]), Num(ta), Num(tb), t);
    } else {
      HeadDecides(Num(h + [b[i]]), Num(h + [a[i]]), Num(tb), Num(ta), t);
    }
  }

  lemma Digits09Suffix(s: seq<int>, k: nat)
    requires k <= |s| && Digits09(s)
    ensures Digits09(s[k..])
  {
    assert forall j :: 0 <= j < |s| - k ==> s[k..][j] == s[k + j];
  }

  /** A digit array with a nonzero first digit is at least `10^(width - 1)`. */
  lemma NumLeadingDigit(s: seq<int>)
    requires |s| >= 1 && Digits09(s) && s[0] >= 1
    ensures Num(s) >= Pow10(|s| - 1)
  {
    assert s == [s[0]] + s[1..];
    NumAppend([s[0]], s[1..]);
    assert Num([s[0]]) == s[0] by { NumLast([], s[0]); assert [] + [s[0]] == [s[0]]; }
    NumBounds(s[1..]);
    MulLe(1, s[0], Pow10(|s| - 1));
  }

  /** A digit array below 0 has a negative first digit when the rest are
      digits. */
  lemma NumNegativeHead(s: seq<int>)
    requires |s| >= 1 && Digits09(s[1..]) && s[0] < 0
    ensures Num(s) < 0
  {
    assert s == [s[0]] + s[1..];
    NumAppend([s[0]], s[1..]);
    assert Num([s[0]]) == s[0] by { NumLast([], s[0]); assert [] + [s[0]] == [s[0]]; }
    NumBounds(s[1..]);
    MulLe(s[0], -1, Pow10(|s| - 1));
  }

  // ---------------------------------------------------------------- the window

  /** The `for` loop that compares the window `dividend[beg..beg + dl)` with
      the divisor digit by digit; the window is less exactly when its number
      is. */
  method WindowLess(dividend: array<int>, beg: nat, divider: array<int>, skip: nat, dl: nat) returns (less: bool)
    requires beg + dl <= dividend.Length && skip + dl <= divider.Length
    requires Digits09(dividend[beg..beg + dl]) && Digits09(divider[skip..skip + dl])
    ensures less <==> Num(dividend[beg..beg + dl]) < Num(divider[skip..skip + dl])
  {
    ghost var W, D := dividend[beg..beg + dl], divider[skip..skip + dl];
    less := false;
    var i := 0;
    while i < dl
      invariant 0 <= i <= dl && W[..i] == D[..i]
    {
      if dividend[beg + i] != divider[skip + i] {
        less := dividend[beg + i] < divider[skip + i];
        assert W[i] == dividend[beg + i] && D[i] == divider[skip + i];
        NumFirstDifference(W, D, i);
        return;
      }
      assert W[..i + 1] == D[..i + 1] by {
        assert W[..i + 1] == W[..i] + [W[i]] && D[..i + 1] == D[..i] + [D[i]];
      }
      i := i + 1;
    }
    assert W == W[..dl] && D == D[..dl];
  }

  predicate DigitsIn(s: seq<int>, lo: int, hi: int)
    requires 0 <= lo && hi <= |s|
  {
    forall k :: lo <= k < hi ==> 0 <= s[k] <= 9
  }

  lemma DigitsInWindow(s: seq<int>, lo: nat, hi: nat)
    requires lo <= hi <= |s|
    ensures DigitsIn(s, lo, hi) <==> Digits09(s[lo..hi])
  {
    assert forall k :: 0 <= k < hi - lo ==> s[lo..hi][k] == s[lo + k];
  }

  /** Changing a digit inside the window `s[lo..hi)` changes the window's
      number at that digit's weight. */
  lemma WindowUpdate(s: seq<int>, lo: nat, hi: nat, k: nat, d: int, P: int)
    requires lo <= k < hi <= |s| && P == Pow10(hi - 1 - k)
    ensures Num(s[k := s[k] + d][lo..hi]) == Num(s[lo..hi]) + d * P
  {
    var w := s[lo..hi];
    assert s[k := s[k] + d][lo..hi] == w[k - lo := w[k - lo] + d];
    NumUpdate(w, k - lo, d, P);
  }

  /** Taking `d` from a digit inside the window takes it at that digit's
      weight from the window's number. */
  lemma WindowTake(s: seq<int>, lo: nat, hi: nat, k: nat, d: int, P: int)
    requires lo <= k < hi <= |s| && P == Pow10(hi - 1 - k)
    ensures Num(s[k := s[k] - d][lo..hi]) == Num(s[lo..hi]) - d * P
  {
    assert s[k := s[k] - d] == s[k := s[k] + -d];
    WindowUpdate(s, lo, hi, k, -d, P);
    assert -d * P == -(d * P);
  }

  /** What the subtraction loop relies on throughout: the window and the
      divisor are digit arrays of one width, and a window below the divisor
      has a nonzero digit before it. */
  ghost predicate SubSetup(s0: seq<int>, beg: nat, D: seq<int>)
  {
    && beg + |D| <= |s0| && 1 <= |D|
    && DigitsIn(s0, beg, beg + |D|) && Digits09(D)
    && (Num(s0[beg..beg + |D|]) < Num(D) ==> 1 <= beg && s0[beg - 1] >= 1)
  }

  /** The state of the subtraction loop after the divisor digits from `i + 1`
      on: the window holds its old number less those divisor digits (plus
      `10^|D|` once the borrow `b` has left it), its digits from `i + 1` on are
      digits, the pending borrow sits in the digit at `beg + i`, and every
      other digit is as it was. */
  ghost predicate SubState(s: seq<int>, s0: seq<int>, beg: nat, D: seq<int>, i: int, b: int)
  {
    && |s| == |s0| && beg + |D| <= |s| && -1 <= i < |D|
    && Num(s[beg..beg + |D|]) == Num(s0[beg..beg + |D|]) - Num(D[i + 1..]) + b * Pow10(|D|)
    && (b == 0 || b == 1) && (i >= 0 ==> b == 0)
    && DigitsIn(s, beg + i + 1, beg + |D|)
    && (forall k :: 0 <= k < beg + i ==> s[k] == s0[k])
    && (beg + i >= 0 ==> s0[beg + i] - 1 <= s[beg + i] <= s0[beg + i])
    && (i < 0 && beg >= 1 ==> s[beg - 1] == s0[beg - 1] - b)
    && (forall k :: beg + |D| <= k < |s| ==> s[k] == s0[k])
  }

  /** The subtraction loop of `bc_div_positive`: the divisor is taken from the
      window `dividend[beg..beg + dl)` from its last digit up, a negative digit
      borrowing from the digit before it. A borrow out of the window's first
      digit lands in `dividend[beg - 1]`, and it happens exactly when the
      window is below the divisor; the caller rules it out when `beg` is 0, so
      index -1 is never touched. */
  method SubtractWindow(dividend: array<int>, beg: nat, divider: array<int>, skip: nat, dl: nat, ghost D: seq<int>)
    requires 1 <= dl && beg + dl <= dividend.Length && skip + dl <= divider.Length && dividend != divider
    requires D == divider[skip..skip + dl] && DigitsIn(dividend[..], beg, beg + dl) && Digits09(D)
    requires Num(dividend[beg..beg + dl]) < Num(D) ==> 1 <= beg && dividend[beg - 1] >= 1
    modifies dividend
    ensures SubValue(dividend[..], old(dividend[..]), beg, D)
    ensures SubFrame(dividend[..], old(dividend[..]), beg, dl, Borrow(old(dividend[..]), beg, D))
  {
    ghost var s0 := dividend[..];
    ghost var b := 0;
    assert SubSetup(s0, beg, D);
    SubStart(s0, beg, D);
    var i: int := dl - 1;
    while i >= 0
      invariant -1 <= i < dl && SubSetup(s0, beg, D)
      invariant SubState(dividend[..], s0, beg, D, i, b)
    {
      b := SubtractDigit(dividend, beg, divider, skip, i, D, s0, b);
      i := i - 1;
    }
    SubFinal(dividend[..], s0, beg, D, dl, b);
  }

  /** Before the subtraction loop nothing is taken from the window. */
  lemma SubStart(s0: seq<int>, beg: nat, D: seq<int>)
    requires SubSetup(s0, beg, D)
    ensures SubState(s0, s0, beg, D, |D| - 1, 0)
  {
    assert D[|D|..] == [];
  }

  /** One pass of the subtraction loop: divisor digit `i` is taken from
      `dividend[beg + i]`, which borrows from the digit before it when it
      goes negative. */
  method SubtractDigit(dividend: array<int>, beg: nat, divider: array<int>, skip: nat, i: nat,
                       ghost D: seq<int>, ghost s0: seq<int>, ghost b0: int) returns (ghost b: int)
    requires dividend != divider && skip + |D| <= divider.Length && D == divider[skip..skip + |D|]
    requires SubSetup(s0, beg, D) && i < |D| && SubState(dividend[..], s0, beg, D, i, b0)
    modifies dividend
    ensures SubState(dividend[..], s0, beg, D, i as int - 1, b)
  {
    ghost var s := dividend[..];
    assert D[i] == divider[skip + i];
    BorrowOutOnlyBelow(s, s0, beg, D, i);
    dividend[beg + i] := dividend[beg + i] - divider[skip + i];
    b := b0;
    if dividend[beg + i] < 0 {
      dividend[beg + i] := dividend[beg + i] + 10;
      dividend[beg + i - 1] := dividend[beg + i - 1] - 1;
      SubStepBorrow(s, dividend[..], s0, beg, D, i, b0);
      if i == 0 {
        b := 1;
      }
    } else {
      SubStepPlain(s, dividend[..], s0, beg, D, i, b0);
    }
  }

  lemma SubFinal(s: seq<int>, s0: seq<int>, beg: nat, D: seq<int>, dl: nat, b: int)
    requires SubSetup(s0, beg, D) && SubState(s, s0, beg, D, -1, b) && dl == |D|
    ensures SubValue(s, s0, beg, D)
    ensures SubFrame(s, s0, beg, dl, Borrow(s0, beg, D))
  {
    SubDone(s, s0, beg, D, b);
    assert D[0..] == D;
  }

  /** Whether the window at `beg` is below the divisor `D`: the borrow that
      one subtraction sends out of the window. */
  ghost function Borrow(s0: seq<int>, beg: nat, D: seq<int>): int
    requires beg + |D| <= |s0|
  {
    if Num(s0[beg..beg + |D|]) < Num(D) then 1 else 0
  }

  /** The window's number after one subtraction of `D`: its old number less
      `D`, plus `10^|D|` when the subtraction borrowed out of the window. */
  ghost predicate SubValue(s: seq<int>, s0: seq<int>, beg: nat, D: seq<int>)
  {
    && |s| == |s0| && beg + |D| <= |s|
    && Num(s[beg..beg + |D|]) == Num(s0[beg..beg + |D|]) - Num(D) + Borrow(s0, beg, D) * Pow10(|D|)
  }

  /** The digits after one subtraction of a divisor of `dl` digits with borrow
      `b` out of the window: the window holds digits, the digit before it lost
      `b`, and nothing else changed. */
  ghost predicate SubFrame(s: seq<int>, s0: seq<int>, beg: nat, dl: nat, b: int)
  {
    && |s| == |s0| && beg + dl <= |s|
    && DigitsIn(s, beg, beg + dl)
    && (forall k :: 0 <= k < |s| && k != beg - 1 && !(beg <= k < beg + dl) ==> s[k] == s0[k])
    && (beg >= 1 ==> s[beg - 1] == s0[beg - 1] - b)
  }

  /** A window holding its old number less the whole divisor is negative when
      its first digit is, so the borrow out of the window only comes when the
      window was below the divisor. */
  lemma BorrowOutOnlyBelow(s: seq<int>, s0: seq<int>, beg: nat, D: seq<int>, i: int)
    requires SubSetup(s0, beg, D) && 0 <= i && SubState(s, s0, beg, D, i, 0)
    ensures i == 0 && s[beg] - D[0] < 0 ==> 1 <= beg && s[beg - 1] >= 1
  {
    if i == 0 && s[beg] - D[0] < 0 {
      var dl := |D|;
      var W0 := Num(s0[beg..beg + dl]);
      assert D[i + 1..] == D[1..];
      assert Num(s[beg..beg + dl]) == W0 - Num(D[1..]);
      var u := s[beg := s[beg] - D[0]];
      WindowTake(s, beg, beg + dl, beg, D[0], Pow10(dl - 1));
      NumHead(D);
      var uw := u[beg..beg + dl];
      DigitsInWindow(u, beg + 1, beg + dl);
      assert uw[1..] == u[beg + 1..beg + dl];
      NumNegativeHead(uw);
      assert W0 < Num(D);
      assert s[beg - 1] == s0[beg - 1];
    }
  }

  lemma NumHead(s: seq<int>)
    requires |s| >= 1
    ensures Num(s) == s[0] * Pow10(|s| - 1) + Num(s[1..])
  {
    var h := [s[0]];
    assert h + s[1..] == s;
    NumAppend(h, s[1..]);
    NumSingle(s[0]);
  }

  lemma NumSingle(x: int)
    ensures Num([x]) == x
  {
    assert [x][..0] == [];
  }

  /** The divisor digits from `i` on: digit `i` at its weight and the rest. */
  lemma DivisorTail(D: seq<int>, i: nat)
    requires i < |D|
    ensures Num(D[i..]) == D[i] * Pow10(|D| - 1 - i) + Num(D[i + 1..])
  {
    NumHead(D[i..]);
    assert D[i..][1..] == D[i + 1..];
  }

  /** One step of the subtraction loop without a borrow. */
  lemma SubStepPlain(s: seq<int>, t: seq<int>, s0: seq<int>, beg: nat, D: seq<int>, i: int, b: int)
    requires SubSetup(s0, beg, D) && 0 <= i && SubState(s, s0, beg, D, i, b)
    requires t == s[beg + i := s[beg + i] - D[i]] && t[beg + i] >= 0
    ensures SubState(t, s0, beg, D, i - 1, b)
  {
    var dl := |D|;
    WindowTake(s, beg, beg + dl, beg + i, D[i], Pow10(dl - 1 - i));
    DivisorTail(D, i);
  }

  /** One step of the subtraction loop with a borrow: digit `i` gains ten and
      the digit before it, inside the window or just before it, loses one. */
  lemma SubStepBorrow(s: seq<int>, t: seq<int>, s0: seq<int>, beg: nat, D: seq<int>, i: int, b: int)
    requires SubSetup(s0, beg, D) && 0 <= i && SubState(s, s0, beg, D, i, b)
    requires 1 <= beg + i && s[beg + i] - D[i] < 0
    requires t == s[beg + i := s[beg + i] - D[i] + 10][beg + i - 1 := s[beg + i - 1] - 1]
    ensures SubState(t, s0, beg, D, i - 1, if i == 0 then 1 else b)
  {
    var u := s[beg + i := s[beg + i] + (10 - D[i])];
    BorrowWindow(s, u, beg, D, i);
    assert t == u[beg + i - 1 := u[beg + i - 1] - 1];
    if i >= 1 {
      BorrowInside(u, t, beg, |D|, i, Pow10(|D| - 1 - i));
      BorrowInsideState(s, u, t, s0, beg, D, i, b);
    } else {
      BorrowOutside(u, t, beg, |D|, Pow10(|D| - 1));
      BorrowOutsideState(s, u, t, s0, beg, D, b);
    }
  }

  lemma BorrowInsideState(s: seq<int>, u: seq<int>, t: seq<int>, s0: seq<int>, beg: nat, D: seq<int>, i: nat, b: int)
    requires SubSetup(s0, beg, D) && 1 <= i && SubState(s, s0, beg, D, i, b)
    requires s[beg + i] - D[i] < 0
    requires u == s[beg + i := s[beg + i] + (10 - D[i])] && t == u[beg + i - 1 := u[beg + i - 1] - 1]
    requires Num(u[beg..beg + |D|]) == Num(s[beg..beg + |D|]) + Num(D[i + 1..]) - Num(D[i..]) + 10 * Pow10(|D| - 1 - i)
    requires Num(t[beg..beg + |D|]) == Num(u[beg..beg + |D|]) - 10 * Pow10(|D| - 1 - i)
    ensures SubState(t, s0, beg, D, i - 1, b)
  {
  }

  lemma BorrowOutsideState(s: seq<int>, u: seq<int>, t: seq<int>, s0: seq<int>, beg: nat, D: seq<int>, b: int)
    requires SubSetup(s0, beg, D) && 1 <= beg && SubState(s, s0, beg, D, 0, b)
    requires s[beg] - D[0] < 0
    requires u == s[beg := s[beg] + (10 - D[0])] && t == u[beg - 1 := u[beg - 1] - 1]
    requires Num(u[beg..beg + |D|]) == Num(s[beg..beg + |D|]) + Num(D[1..]) - Num(D[0..]) + 10 * Pow10(|D| - 1)
    requires Num(t[beg..beg + |D|]) == Num(u[beg..beg + |D|]) && Pow10(|D|) == 10 * Pow10(|D| - 1)
    ensures SubState(t, s0, beg, D, -1, 1)
  {
  }

  /** Digit `i` of the window after it took divisor digit `i` and ten. */
  lemma BorrowWindow(s: seq<int>, u: seq<int>, beg: nat, D: seq<int>, i: nat)
    requires i < |D| && beg + |D| <= |s| && u == s[beg + i := s[beg + i] + (10 - D[i])]
    ensures Num(u[beg..beg + |D|]) == Num(s[beg..beg + |D|]) + Num(D[i + 1..]) - Num(D[i..]) + 10 * Pow10(|D| - 1 - i)
  {
    var dl := |D|;
    var P := Pow10(dl - 1 - i);
    WindowUpdate(s, beg, beg + dl, beg + i, 10 - D[i], P);
    DivisorTail(D, i);
    BorrowArith(Num(u[beg..beg + dl]), Num(s[beg..beg + dl]), D[i], P, Num(D[i..]), Num(D[i + 1..]));
  }

  lemma BorrowArith(nu: int, ns: int, d: int, P: int, nd: int, nd1: int)
    requires nu == ns + (10 - d) * P && nd == d * P + nd1
    ensures nu == ns + nd1 - nd + 10 * P
  {
  }

  lemma BorrowInside(u: seq<int>, t: seq<int>, beg: nat, dl: nat, i: nat, P: int)
    requires 1 <= i < dl && beg + dl <= |u| && P == Pow10(dl - 1 - i)
    requires t == u[beg + i - 1 := u[beg + i - 1] - 1]
    ensures Num(t[beg..beg + dl]) == Num(u[beg..beg + dl]) - 10 * P
  {
    WindowTake(u, beg, beg + dl, beg + i - 1, 1, 10 * P);
  }

  lemma BorrowOutside(u: seq<int>, t: seq<int>, beg: nat, dl: nat, P: int)
    requires 1 <= beg && 1 <= dl && beg + dl <= |u| && P == Pow10(dl - 1)
    requires t == u[beg - 1 := u[beg - 1] - 1]
    ensures Num(t[beg..beg + dl]) == Num(u[beg..beg + dl]) && Pow10(dl) == 10 * P
  {
    assert t[beg..beg + dl] == u[beg..beg + dl];
  }

  /** After the loop the borrow out of the window tells whether the window was
      below the divisor. */
  lemma SubDone(s: seq<int>, s0: seq<int>, beg: nat, D: seq<int>, b: int)
    requires SubSetup(s0, beg, D) && SubState(s, s0, beg, D, -1, b)
    ensures b == Borrow(s0, beg, D)
  {
    assert D[0..] == D;
    DigitsInWindow(s, beg, beg + |D|);
    NumBounds(s[beg..beg + |D|]);
  }

  // ---------------------------------------------------------------- one quotient digit

  lemma {:induction false} NumZeros(s: seq<int>)
    requires forall k :: 0 <= k < |s| ==> s[k] == 0
    ensures Num(s) == 0
    decreases |s|
  {
    if |s| > 0 {
      NumZeros(s[..|s| - 1]);
    }
  }

  /** With zeros below `beg - 1`, the number up to the window's end is the
      digit just before the window followed by the window. */
  lemma WindowValue(s: seq<int>, beg: nat, dl: nat)
    requires beg + dl <= |s| && forall k :: 0 <= k < beg - 1 ==> s[k] == 0
    ensures Num(s[..beg + dl]) == (if beg == 0 then 0 else s[beg - 1]) * Pow10(dl) + Num(s[beg..beg + dl])
  {
    assert s[..beg + dl] == s[..beg] + s[beg..beg + dl];
    NumAppend(s[..beg], s[beg..beg + dl]);
    if beg > 0 {
      assert s[..beg][..beg - 1] == s[..beg - 1];
      NumZeros(s[..beg - 1]);
    }
  }

  /** The comparison only looks at the window: with a zero before it the
      window is the whole number, and with a nonzero digit before it the
      number exceeds any divisor of the window's width. */
  lemma LessDecides(s: seq<int>, beg: nat, dl: nat, Dv: int)
    requires beg + dl <= |s| && Digits09(s) && (forall k :: 0 <= k < beg - 1 ==> s[k] == 0) && Dv < Pow10(dl)
    ensures Digits09(s[beg..beg + dl]) && 0 <= Num(s[..beg + dl])
    ensures (beg == 0 || s[beg - 1] == 0) ==> Num(s[..beg + dl]) == Num(s[beg..beg + dl])
    ensures beg >= 1 && s[beg - 1] != 0 ==> Num(s[..beg + dl]) > Dv
  {
    WindowValue(s, beg, dl);
    var w := s[beg..beg + dl];
    assert forall j :: 0 <= j < dl ==> w[j] == s[beg + j];
    NumBounds(w);
    if beg >= 1 && s[beg - 1] != 0 {
      MulLe(1, s[beg - 1], Pow10(dl));
    }
  }

  /** One subtraction of the divisor keeps every digit a digit and the zeros
      before the window zeros. */
  lemma SubtractFrame(s: seq<int>, t: seq<int>, beg: nat, dl: nat, b: int)
    requires SubFrame(t, s, beg, dl, b) && Digits09(s) && (forall k :: 0 <= k < beg - 1 ==> s[k] == 0)
    requires (b == 0 || b == 1) && (b == 1 ==> beg >= 1 && s[beg - 1] >= 1)
    ensures Digits09(t) && (forall k :: 0 <= k < beg - 1 ==> t[k] == 0)
  {
    forall k | 0 <= k < |t|
      ensures 0 <= t[k] <= 9
    {
      if !(beg <= k < beg + dl) && k != beg - 1 {
        assert t[k] == s[k];
      }
    }
  }

  /** One subtraction of the divisor lowers the number up to the window's end
      by the divisor. */
  lemma SubtractValue(s: seq<int>, t: seq<int>, beg: nat, D: seq<int>)
    requires SubValue(t, s, beg, D)
    requires forall k :: 0 <= k < beg - 1 ==> s[k] == 0 && t[k] == 0
    requires beg >= 1 ==> t[beg - 1] == s[beg - 1] - Borrow(s, beg, D)
    requires beg == 0 ==> Borrow(s, beg, D) == 0
    ensures Num(t[..beg + |D|]) == Num(s[..beg + |D|]) - Num(D)
  {
    var dl, P := |D|, Pow10(|D|);
    var x := if beg == 0 then 0 else s[beg - 1];
    var y := if beg == 0 then 0 else t[beg - 1];
    var W0, Wt := Num(s[beg..beg + dl]), Num(t[beg..beg + dl]);
    assert Num(s[..beg + dl]) == x * P + W0 by {
      WindowValue(s, beg, dl);
    }
    assert Num(t[..beg + dl]) == y * P + Wt by {
      assert forall k :: 0 <= k < beg - 1 ==> t[k] == 0;
      WindowValue(t, beg, dl);
    }
    assert Wt == W0 - Num(D) + Borrow(s, beg, D) * P;
    ValueArith(x, y, Borrow(s, beg, D), P, W0, Wt, Num(D), Num(s[..beg + dl]), Num(t[..beg + dl]));
  }

  lemma ValueArith(x: int, y: int, b: int, P: int, W0: int, Wt: int, Dv: int, Ns: int, Nt: int)
    requires Ns == x * P + W0 && Nt == y * P + Wt && Wt == W0 - Dv + b * P && y == x - b
    ensures Nt == Ns - Dv
  {
    assert y * P == x * P - b * P;
  }

  /** Taking the divisor `c` times from a number below ten divisors leaves `c`
      a digit. */
  lemma CountBound(V0: int, c: int, Dv: int, V: int)
    requires V == V0 - c * Dv && V >= 0 && V0 < 10 * Dv && Dv >= 1
    ensures c <= 9
  {
    if c >= 10 {
      MulLe(10, c, Dv);
    }
  }

  /** One pass of the subtraction loop inside the quotient digit loop, where
      the number up to the window's end is at least the divisor: it loses one
      divisor, the digit before the window changes only if the window was
      below the divisor, and nothing from the window's end on changes. */
  method TakeDivisor(dividend: array<int>, beg: nat, divider: array<int>, skip: nat, dl: nat, ghost D: seq<int>)
    requires 1 <= dl && beg + dl <= dividend.Length && skip + dl <= divider.Length && dividend != divider
    requires D == divider[skip..skip + dl] && Digits09(D) && Num(D) < Pow10(dl)
    requires Digits09(dividend[..]) && forall k :: 0 <= k < beg - 1 ==> dividend[k] == 0
    requires Num(dividend[..beg + dl]) >= Num(D)
    modifies dividend
    ensures Num(dividend[..beg + dl]) == Num(old(dividend[..beg + dl])) - Num(D)
    ensures Digits09(dividend[..]) && forall k :: 0 <= k < beg - 1 ==> dividend[k] == 0
    ensures beg >= 1 && old(dividend[beg - 1]) == 0 ==> dividend[beg - 1] == 0
    ensures forall k :: beg + dl <= k < dividend.Length ==> dividend[k] == old(dividend[k])
  {
    ghost var s := dividend[..];
    LessDecides(s, beg, dl, Num(D));
    ghost var b := Borrow(s, beg, D);
    assert b == 1 ==> beg >= 1 && s[beg - 1] >= 1;
    SubtractWindow(dividend, beg, divider, skip, dl, D);
    ghost var t := dividend[..];
    SubtractFrame(s, t, beg, dl, b);
    assert beg >= 1 ==> t[beg - 1] == s[beg - 1] - b;
    SubtractValue(s, t, beg, D);
    assert forall k :: beg + dl <= k < |t| ==> t[k] == s[k];
  }

  /** The head of the quotient digit loop: `real_beg` moves over a zero
      before the window, and the window is compared with the divisor only
      when no digit is left before it; the answer is whether the number up
      to the window's end is below the divisor. */
  method BelowDivisor(dividend: array<int>, beg: nat, divider: array<int>, skip: nat, dl: nat, realBeg0: nat, ghost D: seq<int>)
    returns (realBeg: nat, less: bool)
    requires 1 <= dl && beg + dl <= dividend.Length && skip + dl <= divider.Length
    requires D == divider[skip..skip + dl] && Digits09(D) && Num(D) < Pow10(dl)
    requires Digits09(dividend[..]) && forall k :: 0 <= k < beg - 1 ==> dividend[k] == 0
    requires realBeg0 == beg || (beg >= 1 && realBeg0 == beg - 1)
    requires realBeg0 == beg && beg >= 1 ==> dividend[beg - 1] == 0
    ensures realBeg == beg || (beg >= 1 && realBeg == beg - 1)
    ensures realBeg == beg && beg >= 1 ==> dividend[beg - 1] == 0
    ensures less <==> Num(dividend[..beg + dl]) < Num(D)
    ensures less ==> realBeg == beg
    ensures Num(dividend[..beg + dl]) >= 0
  {
    realBeg := realBeg0;
    if realBeg < beg && dividend[realBeg] == 0 {
      realBeg := realBeg + 1;
    }
    LessDecides(dividend[..], beg, dl, Num(D));
    less := false;
    if realBeg == beg {
      less := WindowLess(dividend, beg, divider, skip, dl);
    }
  }

  /** The inner `while (true)` loop of `bc_div_positive`: it moves `real_beg`
      over a zero before the window, compares the window with the divisor
      once no nonzero digit is left before it, and otherwise takes the divisor
      from the window and counts. The count is the quotient digit: the number
      up to the window's end loses `c` divisors and ends below one. */
  method NextDigit(dividend: array<int>, beg: nat, divider: array<int>, skip: nat, realBeg0: nat)
    returns (c: nat, realBeg: nat)
    requires dividend != divider && skip < divider.Length && beg + (divider.Length - skip) <= dividend.Length
    requires Digits09(dividend[..]) && Digits09(divider[skip..]) && divider[skip] >= 1
    requires realBeg0 == (if beg == 0 then 0 else beg - 1)
    requires forall k :: 0 <= k < realBeg0 ==> dividend[k] == 0
    requires Num(dividend[..beg + (divider.Length - skip)]) < 10 * Num(divider[skip..])
    modifies dividend
    ensures c <= 9 && realBeg == beg
    ensures var n := beg + (divider.Length - skip);
      && Num(dividend[..n]) == Num(old(dividend[..n])) - c * Num(divider[skip..])
      && Num(dividend[..n]) < Num(divider[skip..])
      && Digits09(dividend[..]) && (forall k :: 0 <= k < beg ==> dividend[k] == 0)
      && (forall k :: n <= k < dividend.Length ==> dividend[k] == old(dividend[k]))
  {
    var dl := divider.Length - skip;
    ghost var D := divider[skip..];
    ghost var V0 := Num(dividend[..beg + dl]);
    assert divider[skip..skip + dl] == D;
    NumLeadingDigit(D);
    NumBounds(D);
    c, realBeg := 0, realBeg0;
    while true
      invariant realBeg == beg || (beg >= 1 && realBeg == beg - 1)
      invariant realBeg == beg && beg >= 1 ==> dividend[beg - 1] == 0
      invariant forall k :: 0 <= k < beg - 1 ==> dividend[k] == 0
      invariant Digits09(dividend[..])
      invariant Num(dividend[..beg + dl]) == V0 - c * Num(D) && c <= 9
      invariant forall k :: beg + dl <= k < dividend.Length ==> dividend[k] == old(dividend[k])
      decreases Num(dividend[..beg + dl])
    {
      var less;
      realBeg, less := BelowDivisor(dividend, beg, divider, skip, dl, realBeg, D);
      if less {
        break;
      }
      TakeDivisor(dividend, beg, divider, skip, dl, D);
      ghost var t := dividend[..];
      assert Num(t[..beg + dl]) == V0 - (c + 1) * Num(D) by {
        assert (c + 1) * Num(D) == c * Num(D) + Num(D);
      }
      CountBound(V0, c + 1, Num(D), Num(t[..beg + dl]));
      c := c + 1;
    }
  }

  // ---------------------------------------------------------------- the dividend as loaded

  function IntZeros(n: nat): (z: seq<int>)
    ensures |z| == n && forall k :: 0 <= k < n ==> z[k] == 0
  {
    seq(n, _ => 0)
  }

  /** The first `n` places of a magnitude's digits followed by zeros: the
      magnitude shifted up, or cut down, to `n` digits. */
  lemma PaddedPrefix(M: seq<char>, z: nat, n: nat)
    requires AllDigits(M) && n <= |M| + z
    ensures n >= |M| ==> Num((Ints(M) + IntZeros(z))[..n]) == Val(M) * Pow10(n - |M|)
    ensures n < |M| ==> Num((Ints(M) + IntZeros(z))[..n]) == Val(M) / Pow10(|M| - n)
  {
    var T := Ints(M) + IntZeros(z);
    if n >= |M| {
      assert T[..n] == Ints(M) + IntZeros(n - |M|);
      NumAppend(Ints(M), IntZeros(n - |M|));
      NumZeros(IntZeros(n - |M|));
      NumOfInts(M);
    } else {
      assert T[..n] == Ints(M[..n]);
      NumOfInts(M[..n]);
      assert M == M[..n] + M[n..];
      ValSplitDiv(M[..n], M[n..]);
    }
  }

  lemma DivCancel(x: int, y: int, c: int)
    requires x >= 0 && y > 0 && c > 0
    ensures (x * c) / (y * c) == x / y
  {
    var q, r := x / y, x % y;
    assert x * c == (y * c) * q + r * c by {
      assert x == y * q + r;
    }
    MulLe(0, r, c);
    MulLe(r + 1, y, c);
    DivModUnique(x * c, y * c, q, r * c);
  }

  lemma NestedDiv(x: int, a: int, b: int)
    requires x >= 0 && a > 0 && b > 0
    ensures x / (a * b) == (x / a) / b
  {
    var q1, r1 := x / a, x % a;
    var q2, r2 := q1 / b, q1 % b;
    assert x == (a * b) * q2 + (a * r2 + r1) by {
      assert x == a * q1 + r1 && q1 == b * q2 + r2;
    }
    MulLe(0, r2, a);
    MulLe(r2 + 1, b, a);
    DivModUnique(x, a * b, q2, a * r2 + r1);
  }

  /** Long division over the first `llen + scale + rscale` digits of the
      dividend gives the quotient: the digits cut off below do not reach the
      last quotient place, and the zeros added below scale both sides alike. */
  lemma QuotientByPrefix(lhs: string, l: Desc, rhs: string, r: Desc, scale: nat, z: nat)
    requires Spans(lhs, l) && Spans(rhs, r) && Magnitude(rhs, r) > 0
    requires (l.ldot - l.lint) + scale + r.lscale <= |MagDigits(lhs, l)| + z
    ensures var n := (l.ldot - l.lint) + scale + r.lscale;
      Num((Ints(MagDigits(lhs, l)) + IntZeros(z))[..n]) / Magnitude(rhs, r) == Quotient(lhs, l, rhs, r, scale)
  {
    var ML := MagDigits(lhs, l);
    var n := (l.ldot - l.lint) + scale + r.lscale;
    var mL, mR := Magnitude(lhs, l), Magnitude(rhs, r);
    var N := Num((Ints(ML) + IntZeros(z))[..n]);
    PaddedPrefix(ML, z, n);
    var P, Pl := Pow10(r.lscale + scale), Pow10(l.lscale);
    assert Quotient(lhs, l, rhs, r, scale) == ScaledDiv(mL, P, mR, Pl);
    if n >= |ML| {
      var e := n - |ML|;
      Pow10Add(e, l.lscale);
      ShiftedQuotient(mL, mR, N, Pow10(e), Pl, P);
    } else {
      var e := |ML| - n;
      Pow10Add(r.lscale + scale, e);
      CutQuotient(mL, mR, N, Pow10(e), Pl, P);
    }
  }

  lemma ShiftedQuotient(mL: int, mR: int, N: int, Pe: int, Pl: int, P: int)
    requires mL >= 0 && mR > 0 && Pe > 0 && Pl > 0 && N == mL * Pe && P == Pe * Pl
    ensures N / mR == (mL * P) / (mR * Pl)
  {
    assert mL * P == N * Pl;
    MulLe(0, mL, Pe);
    DivCancel(N, mR, Pl);
  }

  lemma CutQuotient(mL: int, mR: int, N: int, Pe: int, Pl: int, P: int)
    requires mL >= 0 && mR > 0 && Pe > 0 && P > 0 && N == mL / Pe && Pl == P * Pe
    ensures N / mR == (mL * P) / (mR * Pl)
  {
    assert mR * Pl == (mR * Pe) * P;
    MulLe(1, mR, Pe);
    DivCancel(mL, mR * Pe, P);
    NestedDiv(mL, Pe, mR);
    assert Pe * mR == mR * Pe;
  }

  /** The copy loops of `bc_div_positive`: a cleared int array holding the
      magnitude's digits, most significant first, then `extra` zeros. */
  method LoadDigits(s: string, d: Desc, extra: nat) returns (a: array<int>)
    requires Spans(s, d)
    ensures fresh(a) && a[..] == Ints(MagDigits(s, d)) + IntZeros(extra)
  {
    ghost var M := MagDigits(s, d);
    var len := d.ldot - d.lint;
    a := new int[len + d.lscale + extra](_ => 0);
    var i: int := -(d.lscale as int);
    while i < len
      invariant -(d.lscale as int) <= i <= len
      invariant forall k :: 0 <= k < a.Length ==> a[k] == if len - i <= k < |M| then DigitOf(M[k]) as int else 0
    {
      var x := DigitAtWeight(s, d, i);
      a[len - i - 1] := x;
      i := i + 1;
    }
    assert a[..] == Ints(M) + IntZeros(extra);
  }

  // ---------------------------------------------------------------- the result buffer

  /** The text written from position 2 of the result once the quotient digits
      `Q` are out: "0." and the zeros above the first quotient place when that
      place is below the units, otherwise the digits with a '.' after the
      units digit when `scale > 0`. */
  function Written(cp0: int, scale: nat, Q: seq<char>): (w: seq<char>)
    ensures |w| == if cp0 < 0 then 1 - cp0 + |Q| else |Q| + (if |Q| > cp0 && scale > 0 then 1 else 0)
  {
    if cp0 < 0 then "0." + Zeros(-1 - cp0) + Q
    else if |Q| <= cp0 then Q
    else Q[..cp0 + 1] + (if scale > 0 then "." else "") + Q[cp0 + 1..]
  }

  /** Writing one more quotient digit appends it, and the '.' after the units
      digit. */
  lemma WrittenStep(cp0: int, scale: nat, Q: seq<char>, c: char)
    ensures Written(cp0, scale, Q + [c])
         == Written(cp0, scale, Q) + [c] + (if cp0 >= 0 && |Q| == cp0 && scale > 0 then "." else "")
  {
    var Q2 := Q + [c];
    if cp0 >= 0 && |Q| > cp0 {
      assert Q2[..cp0 + 1] == Q[..cp0 + 1] && Q2[cp0 + 1..] == Q[cp0 + 1..] + [c];
    } else if cp0 >= 0 && |Q| == cp0 {
      assert Q2[..cp0 + 1] == Q2 && Q2[cp0 + 1..] == [];
    }
  }

  /** The `if (cur_pow < 0)` block: "0.", then a '0' for each place between
      the units and the first quotient place. */
  method QuotientPrefix(buf: array<char>, resultSize: nat, cp0: int, scale: nat) returns (curPos: nat, resdot: int, resfrac: int)
    requires buf.Length == resultSize + 1 && buf[resultSize] == '\0'
    requires 2 <= resultSize && (cp0 < 0 ==> 3 - cp0 <= resultSize)
    modifies buf
    ensures Layout(buf[..], resultSize, curPos, cp0, scale, [], resdot, resfrac)
  {
    curPos := 2;
    resdot, resfrac := -1, -1;
    if cp0 < 0 {
      buf[curPos] := '0';
      curPos := curPos + 1;
      resdot := curPos;
      buf[curPos] := '.';
      curPos := curPos + 1;
      resfrac := curPos;
      var i := -1;
      while i > cp0
        invariant cp0 <= i <= -1 && curPos == 3 - i
        invariant buf[2..curPos] == "0." + Zeros(-1 - i)
        invariant forall k :: curPos <= k < buf.Length ==> buf[k] == old(buf[k])
      {
        ghost var before := buf[2..curPos];
        buf[curPos] := '0';
        assert buf[2..curPos + 1] == before + "0";
        ZerosAppend(-1 - i);
        curPos := curPos + 1;
        i := i - 1;
      }
    }
  }

  /** The result buffer after the quotient digits `Q`: `result_size`
      characters and the NUL after them, the written text from position 2 to
      `cur_pos`, and `resdot`/`resfrac` where the source sets them. */
  ghost predicate Layout(b: seq<char>, resultSize: nat, curPos: nat, cp0: int, scale: nat, Q: seq<char>, rd: int, rf: int) {
    && |b| == resultSize + 1 && b[resultSize] == '\0'
    && curPos == 2 + |Written(cp0, scale, Q)| <= resultSize
    && b[2..curPos] == Written(cp0, scale, Q)
    && (cp0 < 0 ==> rd == 3 && rf == 4)
    && (cp0 >= 0 && |Q| > cp0 ==> rd == cp0 + 3 && rf == rd + (if scale > 0 then 1 else 0))
  }

  /** Writes one quotient digit, and after the units digit the '.' when
      `scale > 0`, recording `resdot` and `resfrac` there. */
  method WriteDigit(buf: array<char>, resultSize: nat, curPos0: nat, c: nat, curPow: int, scale: nat,
                    resdot0: int, resfrac0: int, ghost cp0: int, ghost Q: seq<char>)
    returns (curPos: nat, resdot: int, resfrac: int)
    requires c <= 9 && curPow == cp0 - |Q| && -(scale as int) <= curPow
    requires cp0 < 0 ==> scale + 4 <= resultSize
    requires cp0 >= 0 ==> cp0 + scale + 3 + (if scale > 0 then 1 else 0) <= resultSize
    requires Layout(buf[..], resultSize, curPos0, cp0, scale, Q, resdot0, resfrac0)
    modifies buf
    ensures Layout(buf[..], resultSize, curPos, cp0, scale, Q + [CharOf(c)], resdot, resfrac)
  {
    WrittenStep(cp0, scale, Q, CharOf(c));
    ghost var w := buf[2..curPos0];
    buf[curPos0] := CharOf(c);
    curPos := curPos0 + 1;
    assert buf[2..curPos] == w + [CharOf(c)];
    resdot, resfrac := resdot0, resfrac0;
    if curPow == 0 {
      resdot := curPos;
      if scale > 0 {
        buf[curPos] := '.';
        curPos := curPos + 1;
        assert buf[2..curPos] == w + [CharOf(c)] + ".";
      }
      resfrac := curPos;
    }
  }

  /** Before a quotient digit: the remainder so far, with the next dividend
      digit brought down, is below ten divisors. */
  lemma DigitStart(s: seq<int>, T: seq<int>, m: nat, q: int, Dv: int)
    requires m < |s| && |s| == |T| && s[m] == T[m] && 0 <= T[m] <= 9
    requires Num(s[..m]) == Num(T[..m]) - q * Dv && 0 <= Num(s[..m]) < Dv
    ensures Num(s[..m + 1]) == Num(T[..m + 1]) - 10 * q * Dv && Num(s[..m + 1]) < 10 * Dv
  {
    assert s[..m + 1] == s[..m] + [s[m]];
    assert T[..m + 1] == T[..m] + [T[m]];
    NumLast(s[..m], s[m]);
    NumLast(T[..m], T[m]);
  }

  /** After a quotient digit `c`: the quotient so far is ten times the old one
      plus `c`, and the remainder is what the dividend prefix leaves. */
  lemma DigitEnd(Q: seq<char>, c: nat, V: int, Vt: int, q: int, Dv: int)
    requires c <= 9 && q == Val(Q) && V == Vt - 10 * q * Dv - c * Dv
    ensures Val(Q + [CharOf(c)]) == 10 * q + c && V == Vt - Val(Q + [CharOf(c)]) * Dv
  {
    assert (Q + [CharOf(c)])[..|Q|] == Q;
    assert (10 * q + c) * Dv == 10 * q * Dv + c * Dv;
  }

  /** The dividend `s` after the quotient digits `q` so far: its first `m`
      places hold the remainder of the loaded dividend's first `m` places by
      `q` divisors, below one divisor, and from `m` on it is untouched. */
  ghost predicate Remainder(s: seq<int>, T: seq<int>, m: nat, q: int, Dv: int) {
    && m <= |s| == |T|
    && (forall k :: m <= k < |s| ==> s[k] == T[k])
    && Num(s[..m]) == Num(T[..m]) - q * Dv
    && 0 <= Num(s[..m]) < Dv
  }

  /** The dividend `s` between quotient digits: digits throughout, zeros
      before `beg - 1`, and the remainder after the quotient digits `q` in
      its first `beg + dl - 1` places. */
  ghost predicate DivState(s: seq<int>, T: seq<int>, beg: nat, dl: nat, q: int, Dv: int) {
    && 1 <= dl
    && Remainder(s, T, beg + dl - 1, q, Dv)
    && Digits09(s)
    && (forall k :: 0 <= k < beg - 1 ==> s[k] == 0)
  }

  /** Once the quotient digits are out, they are the quotient. */
  lemma RemainderQuotient(s: seq<int>, T: seq<int>, m: nat, q: int, Dv: int)
    requires Remainder(s, T, m, q, Dv)
    ensures q == Num(T[..m]) / Dv
  {
    DivModUnique(Num(T[..m]), Dv, q, Num(s[..m]));
  }

  /** One pass of the outer loop's arithmetic: the quotient digit `c` extends
      the quotient so far, and what is left of the dividend prefix one place
      longer is again a remainder below the divisor. */
  method QuotientDigit(dividend: array<int>, beg: nat, divider: array<int>, skip: nat, realBeg0: nat,
                       ghost T: seq<int>, ghost Q: seq<char>, ghost Dv: int) returns (c: nat, realBeg: nat)
    requires dividend != divider && skip < divider.Length && divider[skip] >= 1
    requires beg + (divider.Length - skip) <= dividend.Length
    requires Digits09(divider[skip..]) && Digits09(T) && Dv == Num(divider[skip..])
    requires realBeg0 == (if beg == 0 then 0 else beg - 1)
    requires DivState(dividend[..], T, beg, divider.Length - skip, Val(Q), Dv)
    modifies dividend
    ensures c <= 9 && realBeg == beg
    ensures DivState(dividend[..], T, beg + 1, divider.Length - skip, Val(Q + [CharOf(c)]), Dv)
  {
    ghost var m := beg + (divider.Length - skip);
    DigitStart(dividend[..], T, m - 1, Val(Q), Dv);
    c, realBeg := NextDigit(dividend, beg, divider, skip, realBeg0);
    DigitEnd(Q, c, Num(dividend[..m]), Num(T[..m]), Val(Q), Dv);
    NumBounds(dividend[..m]);
  }

  /** Before the first quotient digit nothing is taken yet, and the
      dividend's first `dl - 1` digits are below the divisor. */
  lemma DivStart(T: seq<int>, dl: nat, Dv: int)
    requires 1 <= dl <= |T| && Digits09(T) && Dv >= Pow10(dl - 1)
    ensures DivState(T, T, 0, dl, 0, Dv)
  {
    NumBounds(T[..dl - 1]);
  }

  /** What the outer loop keeps: the quotient digits so far, the dividend
      reduced by them, and the result buffer holding them. */
  ghost predicate Progress(s: seq<int>, T: seq<int>, dl: nat, Dv: int, b: seq<char>, resultSize: nat, curPos: nat,
                           cp0: int, scale: nat, Q: seq<char>, rd: int, rf: int) {
    && AllDigits(Q)
    && DivState(s, T, |Q|, dl, Val(Q), Dv)
    && Layout(b, resultSize, curPos, cp0, scale, Q, rd, rf)
  }

  /** The outer loop of `bc_div_positive`: one quotient digit for each power
      from `cur_pow` down to `-scale`, each taken from the dividend and
      written into the result buffer. */
  method DivisionLoop(dividend: array<int>, divider: array<int>, skip: nat, cp0: int, scale: nat,
                      buf: array<char>, resultSize: nat, curPos0: nat, resdot0: int, resfrac0: int, ghost T: seq<int>)
    returns (curPos: nat, resdot: int, resfrac: int, ghost Q: seq<char>)
    requires dividend != divider && skip < divider.Length && divider[skip] >= 1
    requires Digits09(divider[skip..]) && Digits09(T)
    requires -(scale as int) <= cp0 && cp0 + scale + (divider.Length - skip) <= dividend.Length
    requires cp0 < 0 ==> scale + 4 <= resultSize
    requires cp0 >= 0 ==> cp0 + scale + 3 + (if scale > 0 then 1 else 0) <= resultSize
    requires DivState(dividend[..], T, 0, divider.Length - skip, 0, Num(divider[skip..]))
    requires Layout(buf[..], resultSize, curPos0, cp0, scale, [], resdot0, resfrac0)
    modifies dividend, buf
    ensures |Q| == cp0 + scale + 1 && AllDigits(Q)
    ensures DivState(dividend[..], T, |Q|, divider.Length - skip, Val(Q), Num(divider[skip..]))
    ensures Layout(buf[..], resultSize, curPos, cp0, scale, Q, resdot, resfrac)
  {
    ghost var Dv := Num(divider[skip..]);
    var dl := divider.Length - skip;
    curPos, resdot, resfrac, Q := curPos0, resdot0, resfrac0, [];
    var curPow, beg, realBeg := cp0, 0, 0;
    while curPow >= -(scale as int)
      invariant 0 <= beg <= cp0 + scale + 1 && curPow == cp0 - beg && |Q| == beg
      invariant realBeg == (if beg == 0 then 0 else beg - 1)
      invariant Progress(dividend[..], T, dl, Dv, buf[..], resultSize, curPos, cp0, scale, Q, resdot, resfrac)
      decreases curPow + scale
    {
      var c;
      c, realBeg, curPos, resdot, resfrac := DivisionStep(dividend, beg, divider, skip, realBeg, cp0, curPow, scale,
                                                         buf, resultSize, curPos, resdot, resfrac, T, Q, Dv);
      Q := Q + [CharOf(c)];
      curPow, beg := curPow - 1, beg + 1;
    }
  }

  /** One pass of the outer loop: a quotient digit taken from the dividend
      and written into the result buffer. */
  method DivisionStep(dividend: array<int>, beg: nat, divider: array<int>, skip: nat, realBeg0: nat,
                      cp0: int, curPow: int, scale: nat, buf: array<char>, resultSize: nat, curPos0: nat,
                      resdot0: int, resfrac0: int, ghost T: seq<int>, ghost Q: seq<char>, ghost Dv: int)
    returns (c: nat, realBeg: nat, curPos: nat, resdot: int, resfrac: int)
    requires dividend != divider && skip < divider.Length && divider[skip] >= 1
    requires beg + (divider.Length - skip) <= dividend.Length
    requires Digits09(divider[skip..]) && Digits09(T) && Dv == Num(divider[skip..])
    requires realBeg0 == (if beg == 0 then 0 else beg - 1)
    requires |Q| == beg
    requires Progress(dividend[..], T, divider.Length - skip, Dv, buf[..], resultSize, curPos0, cp0, scale, Q, resdot0, resfrac0)
    requires curPow == cp0 - |Q| && -(scale as int) <= curPow
    requires cp0 < 0 ==> scale + 4 <= resultSize
    requires cp0 >= 0 ==> cp0 + scale + 3 + (if scale > 0 then 1 else 0) <= resultSize
    modifies dividend, buf
    ensures c <= 9 && realBeg == beg
    ensures Progress(dividend[..], T, divider.Length - skip, Dv, buf[..], resultSize, curPos, cp0, scale,
                     Q + [CharOf(c)], resdot, resfrac)
  {
    c, realBeg := QuotientDigit(dividend, beg, divider, skip, realBeg0, T, Q, Dv);
    ghost var s := dividend[..];
    curPos, resdot, resfrac := WriteDigit(buf, resultSize, curPos0, c, curPow, scale, resdot0, resfrac0, cp0, Q);
    assert dividend[..] == s;
  }

  /** The long division proper: a fresh result buffer of `result_size`
      characters (a NUL after them, as the copy handed to `bc_round` has),
      the "0." prefix when the first quotient place is below the units, and
      the outer loop. The digits `Q` are the quotient of the dividend's first
      `n` digits by the divisor, and the buffer holds them as `bc_round`
      reads them. */
  method LongDivision(dividend: array<int>, divider: array<int>, skip: nat, cp0: int, scale: nat, resultSize: nat,
                      ghost T: seq<int>, ghost Dv: int, ghost n: nat)
    returns (buf: array<char>, resdot: int, resfrac: int, curPos: nat, ghost Q: seq<char>)
    requires dividend != divider && skip < divider.Length && divider[skip] >= 1
    requires Digits09(divider[skip..]) && Dv == Num(divider[skip..])
    requires dividend[..] == T && Digits09(T)
    requires -(scale as int) <= cp0 && n == cp0 + scale + (divider.Length - skip) <= dividend.Length
    requires cp0 < 0 ==> scale + 4 <= resultSize
    requires cp0 >= 0 ==> cp0 + scale + 3 + (if scale > 0 then 1 else 0) <= resultSize
    modifies dividend
    ensures fresh(buf)
    ensures |Q| == cp0 + scale + 1 && AllDigits(Q)
    ensures Dv >= 1 && Val(Q) == Num(T[..n]) / Dv
    ensures Layout(buf[..], resultSize, curPos, cp0, scale, Q, resdot, resfrac)
  {
    var dl := divider.Length - skip;
    NumLeadingDigit(divider[skip..]);
    buf := new char[resultSize + 1](_ => '0');
    buf[resultSize] := '\0';
    var rd, rf;
    curPos, rd, rf := QuotientPrefix(buf, resultSize, cp0, scale);
    DivStart(T, dl, Dv);
    curPos, resdot, resfrac, Q := DivisionLoop(dividend, divider, skip, cp0, scale, buf, resultSize, curPos, rd, rf, T);
    assert |Q| + dl - 1 == n;
    RemainderQuotient(dividend[..], T, n, Val(Q), Dv);
  }

  // ---------------------------------------------------------------- the kernel

  /** A digit string whose first `z` characters are '0' and whose next one is
      not has exactly `z` leading zeros. */
  lemma {:induction false} LeadingZerosAt(M: seq<char>, z: nat)
    requires z <= |M| && AllZero(M[..z]) && (z < |M| ==> M[z] != '0')
    ensures LeadingZeros(M) == z
    decreases z
  {
    if z > 0 {
      assert M[0] == M[..z][0];
      assert M[1..][..z - 1] == M[1..z];
      LeadingZerosAt(M[1..], z - 1);
    }
  }

  /** The parser's numerals have no leading zero, so the divisor digits the
      kernel skips all lie in the fraction: the quotient's first place is at
      most `llen + rscale - rlen`, the bound `result_len` is sized by. */
  lemma SkipBound(rhs: string, r: Desc)
    requires Spans(rhs, r) && NoLeadingZero(rhs, r) && Magnitude(rhs, r) > 0
    ensures LeadingZeros(MagDigits(rhs, r)) <= r.lscale
  {
    var M := MagDigits(rhs, r);
    MagnitudeFloor(rhs, r);
  }

  /** A quotient of zero spells as zeros. */
  lemma {:induction false} SpellZero(w: nat)
    ensures Spell(0, w) == Zeros(w)
    decreases w
  {
    if w > 0 {
      SpellZero(w - 1);
      ZerosAppend(w - 1);
    }
  }

  /** The rendered buffer, read at `bc_round`'s spans, is the quotient digits
      split at the units place, with "0" and leading zeros when the first
      quotient place lies below the units. */
  lemma FinalLayout(b: seq<char>, resultSize: nat, curPos: nat, cp0: int, scale: nat, Q: seq<char>, rd: int, rf: int)
    requires Layout(b, resultSize, curPos, cp0, scale, Q, rd, rf)
    requires |Q| == cp0 + scale + 1 && AllDigits(Q)
    ensures 2 <= rd <= rf <= curPos
    ensures Frame(b, 2, rd, rf, curPos - rf)
    ensures b[2..rd] == IntPart(cp0, Q) && b[rf..curPos] == FracPart(cp0, Q)
  {
    var w := Written(cp0, scale, Q);
    assert b[2..curPos] == w;
    assert b[2..rd] == w[..rd - 2];
    assert b[rf..curPos] == w[rf - 2..];
    if cp0 < 0 {
      assert w == "0." + (Zeros(-1 - cp0) + Q);
      assert b[rd] == w[1];
    } else if scale > 0 {
      assert b[rd] == w[cp0 + 1];
    }
  }

  /** The quotient digits the loop produces are `DivDigits`, split at
      `DivWidth` as the buffer holds them. */
  lemma QuotientDigitsSplit(lhs: string, l: Desc, rhs: string, r: Desc, scale: nat, Q: seq<char>)
    requires Spans(lhs, l) && Spans(rhs, r) && Magnitude(rhs, r) > 0
    requires var p := FirstPower(lhs, l, rhs, r); p >= -(scale as int) && |Q| == p + scale + 1
    requires AllDigits(Q) && Val(Q) == Quotient(lhs, l, rhs, r, scale)
    ensures var p, D, W := FirstPower(lhs, l, rhs, r), DivDigits(lhs, l, rhs, r, scale), DivWidth(lhs, l, rhs, r);
      D[..W] == IntPart(p, Q) && D[W..] == FracPart(p, Q)
  {
    SpellSplit(Q, FirstPower(lhs, l, rhs, r), scale, DivWidth(lhs, l, rhs, r));
  }

  /** The digits `Q` of the places from `p` down to `-scale`, spelled over
      the places from `max(p, 0)` down: split at the units place. */
  lemma SpellSplit(Q: seq<char>, p: int, scale: nat, W: nat)
    requires AllDigits(Q) && p >= -(scale as int) && |Q| == p + scale + 1 && W == (if p < 0 then 1 else p + 1)
    ensures var D := Spell(Val(Q), W + scale); D[..W] == IntPart(p, Q) && D[W..] == FracPart(p, Q)
  {
    if p < 0 {
      SpellPadded(Q, -p);
    } else {
      DigitsOfVal(Q);
    }
  }

  /** Spelling digits' value wider by `k` places puts `k` zeros in front. */
  lemma SpellPadded(Q: seq<char>, k: nat)
    requires AllDigits(Q) && k >= 1
    ensures var D := Spell(Val(Q), k + |Q|); D[..1] == "0" && D[1..] == Zeros(k - 1) + Q
  {
    var E := Zeros(k) + Q;
    ValLeadingZeros(k, Q);
    DigitsOfVal(E);
    assert E == "0" + (Zeros(k - 1) + Q) by { ZerosAppend(k - 1); }
  }

  /** The divisor digits after the skipped zeros stand for the divisor's
      magnitude. */
  lemma DivisorValue(MR: seq<char>, skip: nat)
    requires AllDigits(MR) && skip <= |MR| && AllZero(MR[..skip])
    ensures Num(Ints(MR)[skip..]) == Val(MR)
  {
    assert Ints(MR)[skip..] == Ints(MR[skip..]);
    NumOfInts(MR[skip..]);
    assert MR[..skip] == Zeros(skip);
    assert MR == MR[..skip] + MR[skip..];
    ValLeadingZeros(skip, MR[skip..]);
  }

  /** The loaded dividend divided by the divisor's magnitude, over the
      first `llen + scale + rscale` places, is the quotient. */
  lemma QuotientOfLoad(lhs: string, l: Desc, rhs: string, r: Desc, scale: nat, z: nat, T: seq<int>, Dv: int, n: nat, q: int)
    requires Spans(lhs, l) && Spans(rhs, r) && Dv == Magnitude(rhs, r) > 0
    requires T == Ints(MagDigits(lhs, l)) + IntZeros(z)
    requires n == (l.ldot - l.lint) + scale + r.lscale <= |T| && q == Num(T[..n]) / Dv
    ensures q == Quotient(lhs, l, rhs, r, scale)
  {
    QuotientByPrefix(lhs, l, rhs, r, scale, z);
  }

  /** `DivText` when the divisor is not a literal '0' and the first quotient
      place is below the last one kept: zero. */
  lemma DivTextZero(lhs: string, l: Desc, rhs: string, r: Desc, scale: nat, sign: int)
    requires Spans(lhs, l) && Spans(rhs, r) && Magnitude(rhs, r) > 0
    requires !(r.lscale == 0 && CharAt(rhs, r.lint) == '0')
    requires FirstPower(lhs, l, rhs, r) < -(scale as int)
    ensures DivText(lhs, l, rhs, r, scale, sign) == Some(BcZero(scale))
  {
    assert DivWidth(lhs, l, rhs, r) == 1;
    assert Quotient(lhs, l, rhs, r, scale) == 0 by {
      QuotientFits(lhs, l, rhs, r, scale);
    }
    var D := DivDigits(lhs, l, rhs, r, scale);
    assert D == Zeros(1 + scale) by {
      SpellZero(1 + scale);
    }
    assert D[..1] == Zeros(1) && D[1..] == Zeros(scale);
    BcZeroIsZero(sign, 1, scale, false);
  }

  /** `DivText` when the divisor is not a literal '0' and nonzero: the
      quotient digits split at `DivWidth`, cut and signed. */
  lemma DivTextSplit(lhs: string, l: Desc, rhs: string, r: Desc, scale: nat, sign: int, cp0: int, Q: seq<char>)
    requires Spans(lhs, l) && Spans(rhs, r) && Magnitude(rhs, r) > 0
    requires !(r.lscale == 0 && CharAt(rhs, r.lint) == '0')
    requires cp0 == FirstPower(lhs, l, rhs, r) && cp0 >= -(scale as int) && |Q| == cp0 + scale + 1
    requires AllDigits(Q) && Val(Q) == Quotient(lhs, l, rhs, r, scale)
    ensures DivText(lhs, l, rhs, r, scale, sign) == Some(TruncText(sign, IntPart(cp0, Q), FracPart(cp0, Q), scale, false))
  {
    QuotientDigitsSplit(lhs, l, rhs, r, scale, Q);
  }

  /** The first-place digits and the fraction digits the buffer holds once
      the quotient digits `Q` are written from the first place `cp0` on. */
  function IntPart(cp0: int, Q: seq<char>): seq<char>
    requires cp0 < |Q|
  {
    if cp0 < 0 then "0" else Q[..cp0 + 1]
  }

  function FracPart(cp0: int, Q: seq<char>): seq<char>
    requires cp0 < |Q|
  {
    if cp0 < 0 then Zeros(-1 - cp0) + Q else Q[cp0 + 1..]
  }

  /** The divisor digits after the skip loop: it stopped at the first
      nonzero digit, so it skipped the leading zeros, and what is left stands
      for the divisor's magnitude. */
  lemma SkippedDivisor(rhs: string, r: Desc, D: seq<int>, skip: nat)
    requires Spans(rhs, r) && D == Ints(MagDigits(rhs, r))
    requires skip < |D| && AllZero(MagDigits(rhs, r)[..skip]) && D[skip] != 0
    ensures LeadingZeros(MagDigits(rhs, r)) == skip
    ensures D[skip] >= 1 && Digits09(D[skip..]) && Num(D[skip..]) == Magnitude(rhs, r) >= 1
  {
    var MR := MagDigits(rhs, r);
    LeadingZerosAt(MR, skip);
    DivisorValue(MR, skip);
    NumLeadingDigit(D[skip..]);
  }

  /** The loaded dividend holds digits only. */
  lemma LoadedDigits(M: seq<char>, z: nat)
    ensures Digits09(Ints(M) + IntZeros(z))
  {
    var T := Ints(M) + IntZeros(z);
    assert forall k :: 0 <= k < |T| ==> T[k] == if k < |M| then Ints(M)[k] else 0;
  }

  /** The closing `bc_round` call, truncating and without padding, on the
      spans the long division recorded. */
  method RoundQuotient(buf: array<char>, resultSize: nat, resdot: int, resfrac: int, curPos: nat,
                       cp0: int, scale: nat, sign: int, ghost Q: seq<char>) returns (t: string)
    requires cp0 >= -(scale as int) && |Q| == cp0 + scale + 1 && AllDigits(Q)
    requires Layout(buf[..], resultSize, curPos, cp0, scale, Q, resdot, resfrac)
    modifies buf
    ensures t == TruncText(sign, IntPart(cp0, Q), FracPart(cp0, Q), scale, false)
  {
    FinalLayout(buf[..], resultSize, curPos, cp0, scale, Q, resdot, resfrac);
    assert resfrac + (curPos - resfrac) == curPos;
    t := BcRound(buf, 2, resdot, resfrac, curPos - resfrac, scale, sign, false, false);
  }

  /** `bc_div_positive` from `cur_pow` on, once the divisor's leading zeros
      are skipped and a nonzero digit is left: zero when the first quotient
      place is below the last one kept, otherwise the long division and
      `bc_round` in truncating mode. */
  method DivideNonzero(lhs: string, l: Desc, rhs: string, r: Desc, scale: nat, sign: int,
                       dividend: array<int>, divider: array<int>, skip: nat, resultSize: nat) returns (t: string)
    requires Spans(lhs, l) && Spans(rhs, r) && NoLeadingZero(rhs, r)
    requires !(r.lscale == 0 && CharAt(rhs, r.lint) == '0')
    requires resultSize == Max((l.ldot - l.lint) + r.lscale - (r.ldot - r.lint) + 1, 1) + scale + 3
    requires dividend != divider
    requires dividend[..] == Ints(MagDigits(lhs, l)) + IntZeros(resultSize + ((r.ldot - r.lint) + r.lscale))
    requires divider[..] == Ints(MagDigits(rhs, r))
    requires skip < divider.Length && AllZero(MagDigits(rhs, r)[..skip]) && divider[skip] != 0
    modifies dividend
    ensures Magnitude(rhs, r) > 0 && DivText(lhs, l, rhs, r, scale, sign) == Some(t)
  {
    var llen := l.ldot - l.lint;
    var rlen := r.ldot - r.lint;
    ghost var T := dividend[..];
    ghost var Dv := Num(divider[skip..]);
    SkippedDivisor(rhs, r, divider[..], skip);
    assert divider[..][skip..] == divider[skip..];
    assert Dv == Magnitude(rhs, r);
    LoadedDigits(MagDigits(lhs, l), resultSize + (rlen + r.lscale));
    var cp0 := llen - rlen + skip;
    assert cp0 == FirstPower(lhs, l, rhs, r);
    if cp0 < -(scale as int) {
      DivTextZero(lhs, l, rhs, r, scale, sign);
      return BcZero(scale);
    }
    SkipBound(rhs, r);
    ghost var n := llen + scale + r.lscale;
    assert n <= |T| == dividend.Length;
    var buf, resdot, resfrac, curPos, Q := LongDivision(dividend, divider, skip, cp0, scale, resultSize, T, Dv, n);
    QuotientOfLoad(lhs, l, rhs, r, scale, resultSize + (rlen + r.lscale), T, Dv, n, Val(Q));
    t := RoundQuotient(buf, resultSize, resdot, resfrac, curPos, cp0, scale, sign, Q);
    DivTextSplit(lhs, l, rhs, r, scale, sign, cp0, Q);
  }

  /** `bc_div_positive`: the quotient of two magnitudes, truncated to `scale`
      fraction digits and signed with `sign`; "0" for a divisor written as a
      single '0', and `None` where `BC_ASSERT` would end the process (any
      other zero divisor). */
  method DivPositive(lhs: string, l: Desc, rhs: string, r: Desc, scale: nat, sign: int) returns (res: Option<string>)
    requires Spans(lhs, l) && Spans(rhs, r) && NoLeadingZero(rhs, r)
    ensures res == DivText(lhs, l, rhs, r, scale, sign)
  {
    var llen := l.ldot - l.lint;
    var rlen := r.ldot - r.lint;
    var resultLen := Max(llen + r.lscale - rlen + 1, 1);
    var resultSize := resultLen + scale + 3;
    if r.lscale == 0 && CharAt(rhs, r.lint) == '0' {
      return Some("0");
    }
    ghost var ML, MR := MagDigits(lhs, l), MagDigits(rhs, r);
    var dividend := LoadDigits(lhs, l, resultSize + (rlen + r.lscale));
    var divider := LoadDigits(rhs, r, 0);
    assert divider[..] == Ints(MR);
    var skip := 0;
    while skip < divider.Length && divider[skip] == 0
      invariant skip <= divider.Length && AllZero(MR[..skip])
    {
      assert MR[..skip + 1] == MR[..skip] + [MR[skip]];
      skip := skip + 1;
    }
    if skip == divider.Length {
      assert MR[..skip] == MR;
      ValAllZero(MR);
      assert Magnitude(rhs, r) == 0;
      return None;
    }
    var t := DivideNonzero(lhs, l, rhs, r, scale, sign, dividend, divider, skip, resultSize);
    res := Some(t);
  }
}
