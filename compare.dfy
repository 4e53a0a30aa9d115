/** The magnitude comparator `bc_comp`: it orders two parsed numerals by the
    length of their integer spans, then digit by digit, then by their fraction
    digits up to a precision, a missing digit read as '0'. Signs are ignored. */
module Comparator {
  import opened Digits
  import opened Parser

  function Min(a: int, b: int): int { if a < b then a else b }

  function Max(a: int, b: int): int { if a < b then b else a }

  /** -1, 0 or 1 as `a` is below, equal to or above `b`. */
  function Cmp(a: int, b: int): int { if a < b then -1 else if a > b then 1 else 0 }

  /** The first `p` fraction digits of a numeral, a missing digit read as '0'. */
  function FracPrefix(s: string, d: Desc, p: nat): (f: seq<char>)
    requires Spans(s, d)
    ensures |f| == p && AllDigits(f)
  {
    if p <= d.lscale then
      assert s[d.lfrac..d.lfrac + p] == FracDigits(s, d)[..p];
      s[d.lfrac..d.lfrac + p]
    else
      var f := FracDigits(s, d) + Zeros(p - d.lscale);
      assert forall i :: 0 <= i < |f| ==> IsDigit(f[i]) by {
        forall i | 0 <= i < |f| ensures IsDigit(f[i]) {
          if i >= d.lscale {
            assert f[i] == Zeros(p - d.lscale)[i - d.lscale];
          }
        }
      }
      f
  }

  /** Digit `i` of the prefix, as `bc_comp` reads it. */
  lemma FracPrefixAt(s: string, d: Desc, p: nat, i: nat)
    requires Spans(s, d) && i < p
    ensures FracPrefix(s, d, p)[i] == if i < d.lscale then s[d.lfrac + i] else '0'
  {
    if p > d.lscale && i >= d.lscale {
      assert FracPrefix(s, d, p)[i] == Zeros(p - d.lscale)[i - d.lscale];
    }
  }

  /** Position `k` of the integer span followed by a fraction prefix. */
  lemma DigitAt(s: string, d: Desc, p: nat, k: nat)
    requires Spans(s, d) && k < d.ldot - d.lint + p
    ensures var a := IntDigits(s, d) + FracPrefix(s, d, p);
      |a| == d.ldot - d.lint + p
      && a[k] == if k < d.ldot - d.lint then s[d.lint + k]
                 else if k - (d.ldot - d.lint) < d.lscale then s[d.lfrac + k - (d.ldot - d.lint)] else '0'
  {
    var n := d.ldot - d.lint;
    if k >= n {
      FracPrefixAt(s, d, p, k - n);
    }
  }

  /** What `bc_comp` returns: a longer integer span wins; between integer spans
      of one length, the values of the digits up to precision
      `min(max(lscale, rscale), scale)` decide. */
  function CompSpec(lhs: string, l: Desc, rhs: string, r: Desc, scale: nat): int
    requires Spans(lhs, l) && Spans(rhs, r)
  {
    var llen, rlen := l.ldot - l.lint, r.ldot - r.lint;
    if llen != rlen then (if llen < rlen then -1 else 1)
    else
      var p := Min(Max(l.lscale, r.lscale), scale);
      Cmp(Val(IntDigits(lhs, l) + FracPrefix(lhs, l, p)), Val(IntDigits(rhs, r) + FracPrefix(rhs, r, p)))
  }

  /** `bc_comp` as written: a scan of the integer digits, then of the fraction
      digits. */
  method BcComp(lhs: string, l: Desc, rhs: string, r: Desc, scale: nat) returns (res: int)
    requires Spans(lhs, l) && Spans(rhs, r)
    ensures res == CompSpec(lhs, l, rhs, r, scale)
  {
    var llen := l.ldot - l.lint;
    var rlen := r.ldot - r.lint;

    if llen != rlen {
      return if llen < rlen then -1 else 1;
    }

    var i := 0;
    while i < llen
      invariant 0 <= i <= llen
      invariant forall k :: 0 <= k < i ==> PaddedDigit(lhs, l, k) == PaddedDigit(rhs, r, k)
    {
      if lhs[l.lint + i] != rhs[r.lint + i] {
        FirstDifferenceDecides(lhs, l, rhs, r, scale, i);
        return if lhs[l.lint + i] < rhs[r.lint + i] then -1 else 1;
      }
      i := i + 1;
    }
    res := CompareFractions(lhs, l, rhs, r, scale);
  }

  /** The second loop of `bc_comp`: once the integer spans agree, the fraction
      digits up to `scale` are compared, a missing digit read as '0'. */
  method CompareFractions(lhs: string, l: Desc, rhs: string, r: Desc, scale: nat) returns (res: int)
    requires Spans(lhs, l) && Spans(rhs, r) && l.ldot - l.lint == r.ldot - r.lint
    requires forall k :: 0 <= k < l.ldot - l.lint ==> PaddedDigit(lhs, l, k) == PaddedDigit(rhs, r, k)
    ensures res == CompSpec(lhs, l, rhs, r, scale)
  {
    var llen := l.ldot - l.lint;
    ghost var p := Min(Max(l.lscale, r.lscale), scale);
    var i := 0;
    while (i < l.lscale || i < r.lscale) && i < scale
      invariant 0 <= i <= p
      invariant forall k :: 0 <= k < llen + i ==> PaddedDigit(lhs, l, k) == PaddedDigit(rhs, r, k)
    {
      var lchar := if i < l.lscale then lhs[l.lfrac + i] else '0';
      var rchar := if i < r.lscale then rhs[r.lfrac + i] else '0';
      assert lchar == PaddedDigit(lhs, l, llen + i) && rchar == PaddedDigit(rhs, r, llen + i);
      if lchar != rchar {
        FirstDifferenceDecides(lhs, l, rhs, r, scale, llen + i);
        return if lchar < rchar then -1 else 1;
      }
      i := i + 1;
    }

    NoDifferenceDecides(lhs, l, rhs, r, scale);
    return 0;
  }

  /** Digit `k` of a numeral's integer span followed by its fraction digits,
      a missing fraction digit read as '0'. */
  function PaddedDigit(s: string, d: Desc, k: nat): char
    requires Spans(s, d)
  {
    var n := d.ldot - d.lint;
    if k < n then s[d.lint + k]
    else if k - n < d.lscale then s[d.lfrac + k - n]
    else '0'
  }

  /** The two digit strings `CompSpec` compares when the integer spans have one
      length, described digit by digit. */
  lemma ComparedDigits(lhs: string, l: Desc, rhs: string, r: Desc, scale: nat) returns (p: nat, a: seq<char>, b: seq<char>)
    requires Spans(lhs, l) && Spans(rhs, r) && l.ldot - l.lint == r.ldot - r.lint
    ensures p == Min(Max(l.lscale, r.lscale), scale)
    ensures |a| == |b| == l.ldot - l.lint + p && AllDigits(a) && AllDigits(b)
    ensures forall k :: 0 <= k < |a| ==> a[k] == PaddedDigit(lhs, l, k) && b[k] == PaddedDigit(rhs, r, k)
    ensures CompSpec(lhs, l, rhs, r, scale) == Cmp(Val(a), Val(b))
  {
    p := Min(Max(l.lscale, r.lscale), scale);
    a := IntDigits(lhs, l) + FracPrefix(lhs, l, p);
    b := IntDigits(rhs, r) + FracPrefix(rhs, r, p);
    forall k | 0 <= k < |a|
      ensures a[k] == PaddedDigit(lhs, l, k) && b[k] == PaddedDigit(rhs, r, k)
    {
      DigitAt(lhs, l, p, k);
      DigitAt(rhs, r, p, k);
    }
  }

  /** The first position where the padded digits differ decides `CompSpec`. */
  lemma FirstDifferenceDecides(lhs: string, l: Desc, rhs: string, r: Desc, scale: nat, n: nat)
    requires Spans(lhs, l) && Spans(rhs, r) && l.ldot - l.lint == r.ldot - r.lint
    requires n < l.ldot - l.lint + Min(Max(l.lscale, r.lscale), scale)
    requires forall k :: 0 <= k < n ==> PaddedDigit(lhs, l, k) == PaddedDigit(rhs, r, k)
    requires PaddedDigit(lhs, l, n) != PaddedDigit(rhs, r, n)
    ensures CompSpec(lhs, l, rhs, r, scale) == if PaddedDigit(lhs, l, n) < PaddedDigit(rhs, r, n) then -1 else 1
  {
    var p, a, b := ComparedDigits(lhs, l, rhs, r, scale);
    assert a[..n] == b[..n] by {
      forall k | 0 <= k < n ensures a[k] == b[k] {
        assert a[k] == PaddedDigit(lhs, l, k) && b[k] == PaddedDigit(rhs, r, k);
      }
    }
    assert a[n] == PaddedDigit(lhs, l, n) && b[n] == PaddedDigit(rhs, r, n);
    ValFirstDifference(a, b, n);
    ValFirstDifference(b, a, n);
  }

  /** Padded digits that agree everywhere make `CompSpec` report equality. */
  lemma NoDifferenceDecides(lhs: string, l: Desc, rhs: string, r: Desc, scale: nat)
    requires Spans(lhs, l) && Spans(rhs, r) && l.ldot - l.lint == r.ldot - r.lint
    requires forall k :: 0 <= k < l.ldot - l.lint + Min(Max(l.lscale, r.lscale), scale) ==>
      PaddedDigit(lhs, l, k) == PaddedDigit(rhs, r, k)
    ensures CompSpec(lhs, l, rhs, r, scale) == 0
  {
    var p, a, b := ComparedDigits(lhs, l, rhs, r, scale);
    assert a == b by {
      forall k | 0 <= k < |a| ensures a[k] == b[k] {
        assert a[k] == PaddedDigit(lhs, l, k) && b[k] == PaddedDigit(rhs, r, k);
      }
    }
  }

  /** Swapping the operands negates the comparison. */
  lemma CompAntisymmetric(lhs: string, l: Desc, rhs: string, r: Desc, scale: nat)
    requires Spans(lhs, l) && Spans(rhs, r)
    ensures CompSpec(rhs, r, lhs, l, scale) == -CompSpec(lhs, l, rhs, r, scale)
  {
  }

  /** On canonical numerals the length rule agrees with the values, so
      `bc_comp` orders the magnitudes truncated to the comparison precision. */
  lemma CompOrdersTruncatedValues(lhs: string, l: Desc, rhs: string, r: Desc, scale: nat)
    requires Spans(lhs, l) && Spans(rhs, r)
    requires Canonical(lhs, l) && Canonical(rhs, r)
    ensures var p := Min(Max(l.lscale, r.lscale), scale);
      CompSpec(lhs, l, rhs, r, scale)
        == Cmp(Val(IntDigits(lhs, l) + FracPrefix(lhs, l, p)), Val(IntDigits(rhs, r) + FracPrefix(rhs, r, p)))
  {
    var p := Min(Max(l.lscale, r.lscale), scale);
    var llen, rlen := l.ldot - l.lint, r.ldot - r.lint;
    if llen < rlen {
      LongerIsLarger(lhs, l, rhs, r, p);
    } else if rlen < llen {
      LongerIsLarger(rhs, r, lhs, l, p);
    }
  }

  lemma LongerIsLarger(lhs: string, l: Desc, rhs: string, r: Desc, p: nat)
    requires Spans(lhs, l) && Spans(rhs, r)
    requires Canonical(lhs, l) && Canonical(rhs, r)
    requires l.ldot - l.lint < r.ldot - r.lint
    ensures Val(IntDigits(lhs, l) + FracPrefix(lhs, l, p)) < Val(IntDigits(rhs, r) + FracPrefix(rhs, r, p))
  {
    var a := IntDigits(lhs, l) + FracPrefix(lhs, l, p);
    var bi, bf := IntDigits(rhs, r), FracPrefix(rhs, r, p);
    ValBounds(a);
    Pow10Mono(|a|, |bi| - 1 + p);
    LeadingDigitBound(bi);
    ValAppend(bi, bf);
    Pow10Add(|bi| - 1, p);
    MulLe(Pow10(|bi| - 1), Val(bi), Pow10(p));
  }

  // ---------------------------------------------------------------- empty integer spans

  /** `bc_comp` as written misranks a numeral with an empty integer span, such
      as ".5", below one with the integer span "0": it compares span lengths
      before any digit. */
  lemma EmptySpanRankedLow(a: string, l: Desc, b: string, r: Desc)
    requires a == ".5" && l == Desc(1, 0, 0, 1, 1) && b == "0.1" && r == Desc(1, 0, 1, 2, 1)
    ensures Spans(a, l) && Spans(b, r)
    ensures Magnitude(a, l) == 5 && Magnitude(b, r) == 1
    ensures CompSpec(a, l, b, r, 6) == -1
  {
    assert a[0..0] == [] && a[1..2] == "5";
    assert b[0..1] == "0" && b[2..3] == "1";
    assert Val("5") == 5 by { assert "5" == [] + ['5']; }
    assert Val("01") == 1 by {
      assert "01" == "0" + ['1'];
      assert "0" == [] + ['0'];
    }
    assert IntDigits(a, l) + FracDigits(a, l) == "5";
    assert IntDigits(b, r) + FracDigits(b, r) == "01";
  }

  /** A numeral with an empty integer span rewritten with the integer span
      "0": a '0' is put in front of the '.', so it reads as `bc_comp` expects. */
  function ZeroFilled(s: string, d: Desc): (p: (string, Desc))
    requires Spans(s, d)
    ensures Spans(p.0, p.1) && p.1.lint < p.1.ldot && p.1.lscale == d.lscale && p.1.sign == d.sign
  {
    if d.lint < d.ldot then (s, d)
    else
      var t := s[..d.lint] + "0" + s[d.lint..];
      assert t[d.lint..d.ldot + 1] == "0";
      InsertKeepsTail(s, d.lint, "0", d.lfrac, d.lfrac + d.lscale);
      (t, Desc(d.sign, d.lint, d.ldot + 1, d.lfrac + 1, d.lscale))
  }

  /** Text inserted at `at` moves what follows it right by its length. */
  lemma InsertKeepsTail(s: string, at: nat, x: string, i: nat, j: nat)
    requires at <= i <= j <= |s|
    ensures (s[..at] + x + s[at..])[i + |x|..j + |x|] == s[i..j]
  {
    var t := s[..at] + x + s[at..];
    var u, v := t[i + |x|..j + |x|], s[i..j];
    forall k | 0 <= k < j - i ensures u[k] == v[k] {
      assert u[k] == s[at..][i - at + k];
    }
  }

  /** `bc_comp` with an empty integer span read as "0": the comparison the
      dispatch in `bc_add` needs. */
  function CompZeroFilled(lhs: string, l: Desc, rhs: string, r: Desc, scale: nat): (c: int)
    requires Spans(lhs, l) && Spans(rhs, r)
  {
    var (a, la) := ZeroFilled(lhs, l);
    var (b, rb) := ZeroFilled(rhs, r);
    CompSpec(a, la, b, rb, scale)
  }

  /** Filling in the "0" changes neither the value of the integer digits nor
      the fraction digits. */
  lemma ZeroFilledDigits(s: string, d: Desc, p: nat)
    requires Spans(s, d)
    ensures var (t, e) := ZeroFilled(s, d);
      && (NoLeadingZero(s, d) ==> Canonical(t, e))
      && Val(IntDigits(t, e) + FracPrefix(t, e, p)) == Val(IntDigits(s, d) + FracPrefix(s, d, p))
  {
    var (t, e) := ZeroFilled(s, d);
    if d.lint == d.ldot {
      assert IntDigits(t, e) == "0" && IntDigits(s, d) == [];
      assert FracPrefix(t, e, p) == FracPrefix(s, d, p) by {
        forall i | 0 <= i < p ensures FracPrefix(t, e, p)[i] == FracPrefix(s, d, p)[i] {
          FracPrefixAt(t, e, p, i);
          FracPrefixAt(s, d, p, i);
          if i < d.lscale {
            assert t[e.lfrac + i] == s[d.lfrac + i];
          }
        }
      }
      assert IntDigits(t, e) + FracPrefix(t, e, p) == Zeros(1) + (IntDigits(s, d) + FracPrefix(s, d, p));
      ValLeadingZeros(1, IntDigits(s, d) + FracPrefix(s, d, p));
    }
  }

  /** The corrected comparison orders every pair of parsed numerals by their
      magnitudes truncated to the comparison precision, empty integer spans
      included. */
  lemma CompZeroFilledOrdersValues(lhs: string, l: Desc, rhs: string, r: Desc, scale: nat)
    requires Spans(lhs, l) && Spans(rhs, r) && NoLeadingZero(lhs, l) && NoLeadingZero(rhs, r)
    ensures var p := Min(Max(l.lscale, r.lscale), scale);
      CompZeroFilled(lhs, l, rhs, r, scale)
        == Cmp(Val(IntDigits(lhs, l) + FracPrefix(lhs, l, p)), Val(IntDigits(rhs, r) + FracPrefix(rhs, r, p)))
  {
    var p := Min(Max(l.lscale, r.lscale), scale);
    var (a, la) := ZeroFilled(lhs, l);
    var (b, rb) := ZeroFilled(rhs, r);
    ZeroFilledDigits(lhs, l, p);
    ZeroFilledDigits(rhs, r, p);
    CompOrdersTruncatedValues(a, la, b, rb, scale);
  }
}
