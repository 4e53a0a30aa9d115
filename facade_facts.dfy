/** What the public operations of `BCMath` promise, stated over the functions
    the facade methods are proved against: the scale of sums and differences,
    the exact values behind every result, the order `bccomp` decides, and the
    integer results of `bcmod` and `bcpow`. */
module FacadeFacts {
  import opened Digits
  import opened Wrappers
  import opened Parser
  import opened ParserFacts
  import opened Normalizer
  import opened NormalizerFacts
  import opened Alignment
  import opened Facade
  import Comparator
  import Dispatch
  import Adder
  import Subtractor
  import Multiplier
  import Divider

  // ---------------------------------------------------------------- scale of sums

  /** A text with exactly `scale` fraction digits: none and no '.' for scale
      0, otherwise a '.' followed by `scale` digits at the end. */
  predicate HasScale(t: string, scale: nat) {
    if scale == 0 then forall i :: 0 <= i < |t| ==> t[i] != '.'
    else scale < |t| && t[|t| - scale - 1] == '.' && AllDigits(t[|t| - scale..])
  }

  /** Truncation with padding leaves exactly `scale` fraction digits. */
  lemma TruncPadded(sign: int, D: seq<char>, W: nat, scale: nat)
    requires W <= |D| && AllDigits(D)
    ensures HasScale(TruncText(sign, D[..W], D[W..], scale, true), scale)
  {
    var I, F := D[..W], D[W..];
    var J := StripLeading(I);
    StripKeepsValue(I, []);
    var K := F[..Min(|F|, scale)];
    var neg := KeepsMinus(sign, J, F);
    var head := (if neg then "-" else "") + J;
    RenderPadded(neg, J, K, scale);
    var t := TruncText(sign, I, F, scale, true);
    if scale == 0 {
      assert t == head;
      forall i | 0 <= i < |t| ensures t[i] != '.' {
        if i >= |t| - |J| {
          assert t[i] == J[i - (|t| - |J|)];
        }
      }
    } else {
      var tail := K + Zeros(scale - |K|);
      assert t == head + ("." + tail);
      assert AllDigits(tail) by {
        forall i | 0 <= i < |tail| ensures IsDigit(tail[i]) {
          if i < |K| {
            assert tail[i] == D[W + i];
          }
        }
      }
      assert t[|t| - scale..] == tail;
    }
  }

  /** `bc_zero(scale)` has exactly `scale` fraction digits. */
  lemma BcZeroHasScale(scale: nat)
    ensures HasScale(BcZero(scale), scale)
  {
    if scale > 0 {
      assert BcZero(scale)[|BcZero(scale)| - scale..] == Zeros(scale);
    }
  }

  /** Every text `bc_add` returns has exactly `scale` fraction digits. */
  lemma AddDispatchHasScale(lhs: string, l: Desc, rhs: string, r: Desc, scale: nat)
    requires Spans(lhs, l) && Spans(rhs, r) && Dispatch.Signed(l) && Dispatch.Signed(r)
    ensures HasScale(Dispatch.AddDispatch(lhs, l, rhs, r, scale), scale)
  {
    if l.sign == r.sign {
      var D, W := Dispatch.DispatchSum(lhs, l, rhs, r, scale);
      TruncPadded(l.sign, D, W, scale);
    } else {
      Dispatch.DispatchCases(lhs, l, rhs, r, scale);
      if Dispatch.LeftFirst(lhs, l, rhs, r) {
        Subtractor.SubTextDigits(lhs, l, rhs, r, scale, l.sign);
        TruncPadded(l.sign, Subtractor.SubDigits(lhs, l, rhs, r), Subtractor.IntLen(l), scale);
      } else {
        Subtractor.SubTextDigits(rhs, r, lhs, l, scale, r.sign);
        TruncPadded(r.sign, Subtractor.SubDigits(rhs, r, lhs, l), Subtractor.IntLen(r), scale);
      }
    }
  }

  /** `bcadd` and `bcsub` always answer with exactly `scale` fraction digits,
      whatever the operands, the text for a failed parse included. */
  lemma SumsHaveScale(lhs: string, rhs: string, scale: nat)
    ensures HasScale(AddResult(lhs, rhs, scale), scale)
    ensures HasScale(SubResult(lhs, rhs, scale), scale)
  {
    var a, b := Operand(lhs), Operand(rhs);
    BcZeroHasScale(scale);
    if Numeral(a).Some? && Numeral(b).Some? {
      var l, r := Numeral(a).value, Numeral(b).value;
      AddDispatchHasScale(a, l, b, r, scale);
      Dispatch.FlipKeepsSpan(b, r);
      AddDispatchHasScale(a, l, b, r.(sign := -r.sign), scale);
    }
  }

  // ---------------------------------------------------------------- exact values

  /** `bcadd` of two numerals with non-empty integer spans: the digits behind
      the text spell the exact sum of the signed operands, both brought to the
      larger scale, and the text keeps them cut to `scale` fraction digits
      (`TruncValue`: the sum truncated toward zero). */
  lemma AddResultValue(lhs: string, rhs: string, scale: nat, l: Desc, r: Desc)
    returns (sg: int, D: seq<char>, W: nat)
    requires Numeral(Operand(lhs)) == Some(l) && Numeral(Operand(rhs)) == Some(r)
    requires l.lint < l.ldot && r.lint < r.ldot && FracWidth(l, r) <= Dispatch.FullPrecision
    ensures W <= |D| && |D| - W == FracWidth(l, r) && AllDigits(D) && (sg == 1 || sg == -1)
    ensures AddResult(lhs, rhs, scale) == TruncText(sg, D[..W], D[W..], scale, true)
    ensures sg * Val(D) == Dispatch.Scaled(Operand(lhs), l, FracWidth(l, r)) + Dispatch.Scaled(Operand(rhs), r, FracWidth(l, r))
  {
    var a, b := Operand(lhs), Operand(rhs);
    sg, D, W := Dispatch.AddDispatchExact(a, l, b, r, scale);
  }

  /** `bcsub` likewise: the digits spell the exact difference. */
  lemma SubResultValue(lhs: string, rhs: string, scale: nat, l: Desc, r: Desc)
    returns (sg: int, D: seq<char>, W: nat)
    requires Numeral(Operand(lhs)) == Some(l) && Numeral(Operand(rhs)) == Some(r)
    requires l.lint < l.ldot && r.lint < r.ldot && FracWidth(l, r) <= Dispatch.FullPrecision
    ensures W <= |D| && |D| - W == FracWidth(l, r) && AllDigits(D) && (sg == 1 || sg == -1)
    ensures SubResult(lhs, rhs, scale) == TruncText(sg, D[..W], D[W..], scale, true)
    ensures sg * Val(D) == Dispatch.Scaled(Operand(lhs), l, FracWidth(l, r)) - Dispatch.Scaled(Operand(rhs), r, FracWidth(l, r))
  {
    var a, b := Operand(lhs), Operand(rhs);
    var r' := r.(sign := -r.sign);
    assert SubResult(lhs, rhs, scale) == Dispatch.AddDispatch(a, l, b, r', scale);
    ScaledNegated(b, r, FracWidth(l, r));
    sg, D, W := Dispatch.AddDispatchExact(a, l, b, r', scale);
  }

  /** Flipping the parsed sign negates the operand's value. */
  lemma ScaledNegated(s: string, d: Desc, rs: nat)
    requires Spans(s, d) && d.lscale <= rs
    ensures Dispatch.Scaled(s, d.(sign := -d.sign), rs) == -Dispatch.Scaled(s, d, rs)
  {
    var X := Magnitude(s, d) * Pow10(rs - d.lscale);
    assert Dispatch.Scaled(s, d.(sign := -d.sign), rs) == -d.sign * X;
  }

  /** `bcmul`: the digits spell the exact product of the magnitudes with
      `lscale + rscale` fraction digits, cut to `scale` of them and not
      padded, under the product of the signs. */
  lemma MulResultValue(lhs: string, rhs: string, scale: nat, l: Desc, r: Desc) returns (D: seq<char>, W: nat)
    requires Numeral(Operand(lhs)) == Some(l) && Numeral(Operand(rhs)) == Some(r)
    ensures W == (l.ldot - l.lint) + (r.ldot - r.lint) && W <= |D| && |D| - W == l.lscale + r.lscale && AllDigits(D)
    ensures MulResult(lhs, rhs, scale) == TruncText(l.sign * r.sign, D[..W], D[W..], scale, false)
    ensures Val(D) == Magnitude(Operand(lhs), l) * Magnitude(Operand(rhs), r)
  {
    var a, b := Operand(lhs), Operand(rhs);
    D, W := Multiplier.MulDigits(a, l, b, r), Multiplier.MulWidth(l, r);
    Multiplier.MulExact(a, l, b, r);
  }

  /** `bcdiv` by a nonzero divisor: the digits behind the text spell the
      quotient truncated to `scale` fraction digits, and exactly `scale` of
      them follow the integer digits. */
  lemma DivResultValue(lhs: string, rhs: string, scale: nat, l: Desc, r: Desc) returns (D: seq<char>, W: nat)
    requires lhs != "" && rhs != "" && Numeral(lhs) == Some(l) && Numeral(rhs) == Some(r)
    requires Magnitude(rhs, r) > 0
    ensures W <= |D| && |D| - W == scale && AllDigits(D)
    ensures DivResult(lhs, rhs, scale) == Some(TruncText(l.sign * r.sign, D[..W], D[W..], scale, false))
    ensures Val(StripLeading(D[..W]) + D[W..]) == Divider.Quotient(lhs, l, rhs, r, scale)
  {
    ZeroTestPassesOnlyZero(rhs, r);
    D, W := Divider.DivDigits(lhs, l, rhs, r, scale), Divider.DivWidth(lhs, l, rhs, r);
    Divider.DivRendersQuotient(lhs, l, rhs, r, scale);
  }

  /** The integer-zero test of `bc_div_positive` (a scale-0 divisor whose
      first integer digit is '0') passes only for a zero divisor. */
  lemma ZeroTestPassesOnlyZero(rhs: string, r: Desc)
    requires Numeral(rhs) == Some(r)
    ensures r.lscale == 0 && Divider.CharAt(rhs, r.lint) == '0' ==> Magnitude(rhs, r) == 0
  {
    ParseSpans(rhs);
    if r.lscale == 0 && Divider.CharAt(rhs, r.lint) == '0' {
      assert r.lint < r.ldot;
      assert IntDigits(rhs, r) == "0";
      assert FracDigits(rhs, r) == [];
      assert IntDigits(rhs, r) + FracDigits(rhs, r) == "0";
      assert Val("0") == 0 by {
        assert "0"[..0] == "";
      }
    }
  }

  /** `bcdiv` by the integer "0" answers "0". */
  lemma DivByIntegerZero(lhs: string, scale: nat)
    requires lhs != "" && Numeral(lhs).Some?
    ensures DivResult(lhs, "0", scale) == Some(Zero)
  {
    assert Parse("0") == Some(Desc(1, 0, 1, 1, 0)) by {
      assert DigitRunEnd("0", 1) == 1;
      assert DigitRunEnd("0", 0) == 1;
    }
  }

  /** `bcdiv` by "0.0" passes the zero test and ends the process. */
  lemma DivByFractionalZero(lhs: string, scale: nat)
    requires lhs != "" && Numeral(lhs).Some?
    ensures DivResult(lhs, "0.0", scale) == None
  {
    var d := Desc(1, 0, 1, 2, 1);
    assert Parse("0.0") == Some(d) by {
      assert DigitRunEnd("0.0", 3) == 3;
      assert DigitRunEnd("0.0", 2) == 3;
      assert DigitRunEnd("0.0", 1) == 1;
      assert DigitRunEnd("0.0", 0) == 1;
    }
    assert IntDigits("0.0", d) + FracDigits("0.0", d) == "00";
    assert Val("00") == Val("0") * 10 == 0 by {
      assert "00"[..1] == "0";
      assert "0"[..0] == "";
    }
  }
  // ---------------------------------------------------------------- bccomp

  /** Swapping the operands of `bccomp` negates its answer. */
  lemma BccompAntisymmetric(lhs: string, rhs: string, scale: nat)
    ensures CompResult(rhs, lhs, scale) == -CompResult(lhs, rhs, scale)
  {
    var a, b := Operand(lhs), Operand(rhs);
    if Numeral(a).Some? && Numeral(b).Some? {
      var l, r := Numeral(a).value, Numeral(b).value;
      if l.sign == r.sign {
        SameSignComp(lhs, rhs, scale, l, r);
        SameSignComp(rhs, lhs, scale, r, l);
        Comparator.CompAntisymmetric(a, l, b, r, scale);
      }
    }
  }

  /** Between numerals of one sign `bccomp` is `bc_comp` of the magnitudes,
      negated for two negative numerals. */
  lemma SameSignComp(lhs: string, rhs: string, scale: nat, l: Desc, r: Desc)
    requires Numeral(Operand(lhs)) == Some(l) && Numeral(Operand(rhs)) == Some(r) && l.sign == r.sign
    ensures var c := Comparator.CompSpec(Operand(lhs), l, Operand(rhs), r, scale);
      CompResult(lhs, rhs, scale) == if l.sign < 0 then -c else c
  {
  }

  /** Between two numerals of one sign with non-empty integer spans,
      `bccomp` orders the signed values cut to the precision it compares at:
      `min(max(lscale, rscale), scale)` fraction digits. */
  lemma BccompOrdersValues(lhs: string, rhs: string, scale: nat, l: Desc, r: Desc)
    requires Numeral(Operand(lhs)) == Some(l) && Numeral(Operand(rhs)) == Some(r)
    requires l.lint < l.ldot && r.lint < r.ldot && l.sign == r.sign
    ensures var a, b, p := Operand(lhs), Operand(rhs), Comparator.Min(Comparator.Max(l.lscale, r.lscale), scale);
      CompResult(lhs, rhs, scale)
        == Comparator.Cmp(l.sign * Val(IntDigits(a, l) + Comparator.FracPrefix(a, l, p)),
                          r.sign * Val(IntDigits(b, r) + Comparator.FracPrefix(b, r, p)))
  {
    var a, b := Operand(lhs), Operand(rhs);
    Comparator.CompOrdersTruncatedValues(a, l, b, r, scale);
  }

  /** "-0.00" keeps its '-' through the parser, and between numerals of
      opposite signs `bccomp` answers with the sign of the left one: "-0.00"
      ranks below "0" although both are zero. */
  lemma NegativeZeroRanksLow(scale: nat)
    ensures CompResult("-0.00", "0", scale) == -1
  {
    assert Parse("-0.00") == Some(Desc(-1, 1, 2, 3, 2)) by {
      assert DigitRunEnd("-0.00", 5) == 5;
      assert DigitRunEnd("-0.00", 4) == 5;
      assert DigitRunEnd("-0.00", 3) == 5;
      assert DigitRunEnd("-0.00", 2) == 2;
      assert DigitRunEnd("-0.00", 1) == 2;
    }
    assert Parse("0") == Some(Desc(1, 0, 1, 1, 0)) by {
      assert DigitRunEnd("0", 1) == 1;
      assert DigitRunEnd("0", 0) == 1;
    }
  }

  /** `bccomp` as written ranks ".5" below "0.1", and "-.5" above "-0.1":
      `bc_comp` orders by the length of the integer spans before it reads a
      digit, and the parser leaves ".5" an empty integer span. */
  lemma BccompMisranksEmptySpan(scale: nat)
    ensures CompResult(".5", "0.1", scale) == -1
    ensures CompResult("-.5", "-0.1", scale) == 1
  {
    ParsePointFive();
    assert Parse("-.5") == Some(Desc(-1, 1, 1, 2, 1)) by {
      assert DigitRunEnd("-.5", 3) == 3;
      assert DigitRunEnd("-.5", 2) == 3;
      assert DigitRunEnd("-.5", 1) == 1;
    }
    assert Parse("-0.1") == Some(Desc(-1, 1, 2, 3, 1)) by {
      assert DigitRunEnd("-0.1", 4) == 4;
      assert DigitRunEnd("-0.1", 3) == 4;
      assert DigitRunEnd("-0.1", 2) == 2;
      assert DigitRunEnd("-0.1", 1) == 2;
    }
  }

  /** The descriptors the parser gives ".5" and "0.1". */
  lemma ParsePointFive()
    ensures Parse(".5") == Some(Desc(1, 0, 0, 1, 1))
    ensures Parse("0.1") == Some(Desc(1, 0, 1, 2, 1))
  {
    assert DigitRunEnd(".5", 2) == 2;
    assert DigitRunEnd(".5", 1) == 2;
    assert DigitRunEnd(".5", 0) == 0;
    assert DigitRunEnd("0.1", 3) == 3;
    assert DigitRunEnd("0.1", 2) == 3;
    assert DigitRunEnd("0.1", 1) == 1;
    assert DigitRunEnd("0.1", 0) == 1;
  }

  /** `bccomp` as evidently intended: an empty integer span is read as "0"
      before `bc_comp` ranks the magnitudes. */
  function FilledCompResult(lhs: string, rhs: string, scale: nat): int {
    var a, b := Operand(lhs), Operand(rhs);
    match Numeral(a)
    case None => 0
    case Some(l) =>
      match Numeral(b)
      case None => 0
      case Some(r) =>
        if l.sign != r.sign then (l.sign - r.sign) / 2
        else (1 - 2 * (if l.sign < 0 then 1 else 0)) * Comparator.CompZeroFilled(a, l, b, r, scale)
  }

  /** The intended `bccomp` orders the signed values cut to
      `min(max(lscale, rscale), scale)` fraction digits for every pair of
      numerals of one sign, empty integer spans included. */
  lemma FilledBccompOrdersValues(lhs: string, rhs: string, scale: nat, l: Desc, r: Desc)
    requires Numeral(Operand(lhs)) == Some(l) && Numeral(Operand(rhs)) == Some(r) && l.sign == r.sign
    ensures var a, b, p := Operand(lhs), Operand(rhs), Comparator.Min(Comparator.Max(l.lscale, r.lscale), scale);
      FilledCompResult(lhs, rhs, scale)
        == Comparator.Cmp(l.sign * Val(IntDigits(a, l) + Comparator.FracPrefix(a, l, p)),
                          r.sign * Val(IntDigits(b, r) + Comparator.FracPrefix(b, r, p)))
  {
    var a, b := Operand(lhs), Operand(rhs);
    Comparator.CompZeroFilledOrdersValues(a, l, b, r, scale);
  }

  /** With at least one fraction place compared, the intended `bccomp` ranks
      ".5" above "0.1". */
  lemma FilledBccompExample(scale: nat)
    requires scale >= 1
    ensures FilledCompResult(".5", "0.1", scale) == 1
  {
    ParsePointFive();
    var l, r := Desc(1, 0, 0, 1, 1), Desc(1, 0, 1, 2, 1);
    FilledBccompOrdersValues(".5", "0.1", scale, l, r);
    assert IntDigits(".5", l) + Comparator.FracPrefix(".5", l, 1) == "5";
    assert IntDigits("0.1", r) + Comparator.FracPrefix("0.1", r, 1) == "01";
    assert Val("5") == 5 by { assert "5" == [] + ['5']; }
    assert Val("01") == 1 by {
      assert "01" == "0" + ['1'];
      assert "0" == [] + ['0'];
    }
  }
  // ---------------------------------------------------------------- integer texts

  /** A numeral for the integer `v`: it parses with a non-empty integer span
      and no fraction digits, and its signed value is `v`. */
  predicate IntegerText(t: string, v: int) {
    match Numeral(t)
    case None => false
    case Some(d) => d.lscale == 0 && d.lint < d.ldot && v == WithSign(d.sign < 0, Val(IntDigits(t, d)))
  }

  function Abs(v: int): nat { if v < 0 then -v else v }

  /** The integer of a sign and a magnitude. */
  function WithSign(neg: bool, m: nat): int { if neg then -(m as int) else m }

  /** What `bcmod` and `bcpow` read from an integer numeral: it is not empty,
      `bc_parse_number` returns 0 for it, its integer digits spell `|v|`, its
      sign is negative exactly for a negative `v`, and it has at most 18
      integer digits when `|v| < 10^18`. */
  lemma IntegerTextFacts(t: string, v: int)
    requires IntegerText(t, v)
    ensures t != "" && IsInteger(Numeral(t))
    ensures var d := Numeral(t).value;
      && Val(IntDigits(t, d)) == Abs(v)
      && (d.sign < 0 <==> v < 0)
      && (Abs(v) < 1_000_000_000_000_000_000 ==> d.ldot - d.lint <= 18)
  {
    var d := Numeral(t).value;
    var J := IntDigits(t, d);
    ParseSign(t);
    if d.sign < 0 {
      assert J != "0";
      NonzeroCanonical(J);
    }
    if Abs(v) < 1_000_000_000_000_000_000 && |J| > 18 {
      LeadingDigitBound(J);
      Pow10Mono(18, |J| - 1);
      Facade.Pow18();
    }
  }

  /** A canonical digit string other than "0" has a positive value. */
  lemma NonzeroCanonical(J: seq<char>)
    requires |J| >= 1 && AllDigits(J) && (|J| >= 2 ==> J[0] != '0') && J != "0"
    ensures Val(J) > 0
  {
    if |J| >= 2 {
      LeadingDigitBound(J);
    } else {
      assert J[..0] == [];
    }
  }

  /** A sign and a canonical digit string parse back as that integer; "-0"
      reads as 0. */
  lemma ParseIntegerText(neg: bool, J: seq<char>)
    requires |J| >= 1 && AllDigits(J) && (|J| >= 2 ==> J[0] != '0')
    ensures IntegerText((if neg then "-" else "") + J, WithSign(neg, Val(J)))
  {
    var t, d := IntegerDesc(neg, J);
    if neg && J[0] == '0' {
      LoneZero(J);
    }
  }

  /** The description `bc_parse_number` gives a sign and a canonical digit
      string. */
  lemma IntegerDesc(neg: bool, J: seq<char>) returns (t: string, d: Desc)
    requires |J| >= 1 && AllDigits(J) && (|J| >= 2 ==> J[0] != '0')
    ensures t == (if neg then "-" else "") + J && Numeral(t) == Some(d)
    ensures d.lscale == 0 && d.lint < d.ldot && IntDigits(t, d) == J
    ensures d.sign < 0 <==> neg && J[0] != '0'
  {
    t := (if neg then "-" else "") + J;
    ParseOfInteger(neg, J);
    d := Numeral(t).value;
  }

  /** A canonical digit string starting with '0' is "0". */
  lemma LoneZero(J: seq<char>)
    requires |J| >= 1 && AllDigits(J) && (|J| >= 2 ==> J[0] != '0') && J[0] == '0'
    ensures Val(J) == 0
  {
    assert J == "0";
    assert J[..0] == [];
  }

  /** How `bc_parse_number` splits a sign and a canonical digit string. */
  lemma ParseOfInteger(neg: bool, J: seq<char>)
    requires |J| >= 1 && AllDigits(J) && (|J| >= 2 ==> J[0] != '0')
    ensures var t, k := (if neg then "-" else "") + J, if neg then 1 else 0;
      Parse(t) == Some(Desc(if neg && J[0] != '0' then -1 else 1, k, |t|, |t|, 0))
  {
    var t := (if neg then "-" else "") + J;
    var k := if neg then 1 else 0;
    assert t[k] == J[0];
    assert SignLength(t) == k;
    assert t[k..] == J;
    RunToEnd(t, k);
    assert DigitRunEnd(t, |t|) == |t|;
    assert SkipZeros(t, k, |t|) == k;
  }

  /** The decimal text of `n` is a canonical digit string of value `n`. */
  lemma {:induction false} DecimalTextValue(n: nat)
    ensures var t := DecimalText(n);
      AllDigits(t) && Val(t) == n && (|t| >= 2 ==> t[0] != '0')
  {
    var t := DecimalText(n);
    if n < 10 {
      assert t[..0] == [];
    } else {
      var h := DecimalText(n / 10);
      DecimalTextValue(n / 10);
      assert t[..|t| - 1] == h;
      assert t[0] == h[0];
      if |h| == 1 {
        assert h == [CharOf(n / 10)];
      }
    }
  }
  // ---------------------------------------------------------------- bcmod

  /** The remainder C's `%` gives: the sign of the dividend, the magnitude of
      the remainder of the magnitudes. */
  function TruncRem(x: int, y: int): int
    requires y != 0
  {
    if x < 0 then -(Abs(x) % Abs(y)) else x % Abs(y)
  }

  /** `bcmod` of integer numerals with a nonzero divisor below `10^18` in
      magnitude: the remainder of the magnitudes, the divisor's sign ignored,
      after a '-' for a negative dividend; read back, it is C's remainder. */
  lemma ModResultValue(lhs: string, rhs: string, x: int, y: int)
    requires IntegerText(lhs, x) && IntegerText(rhs, y)
    requires y != 0 && Abs(y) < 1_000_000_000_000_000_000
    ensures ModResult(lhs, rhs) == (if x < 0 then "-" else "") + DecimalText(Abs(x) % Abs(y))
    ensures IntegerText(ModResult(lhs, rhs), TruncRem(x, y))
  {
    IntegerTextFacts(lhs, x);
    IntegerTextFacts(rhs, y);
    var n := Abs(x) % Abs(y);
    DecimalTextValue(n);
    ParseIntegerText(x < 0, DecimalText(n));
  }

  /** A negative dividend keeps its '-' even when nothing remains: when the
      divisor divides it, `bcmod` answers "-0" (so `bcmod("-10", "5")` is
      "-0"). */
  lemma NegativeZeroRemainder(lhs: string, rhs: string, x: int, y: int)
    requires IntegerText(lhs, x) && IntegerText(rhs, y)
    requires x < 0 && y != 0 && Abs(y) < 1_000_000_000_000_000_000 && Abs(x) % Abs(y) == 0
    ensures ModResult(lhs, rhs) == "-0"
  {
    ModResultValue(lhs, rhs, x, y);
    assert DecimalText(0) == "0";
  }

  // ---------------------------------------------------------------- bcpow

  function Power(b: int, e: nat): int {
    if e == 0 then 1 else b * Power(b, e - 1)
  }

  /** `bcmul` at scale 0 of two integer numerals is the numeral of their
      product. */
  lemma MulIntegers(a: string, b: string, x: int, y: int)
    requires IntegerText(a, x) && IntegerText(b, y)
    ensures IntegerText(MulResult(a, b, 0), x * y)
  {
    var l := IntegerParts(a, x);
    var r := IntegerParts(b, y);
    var D, W := MulResultValue(a, b, 0, l, r);
    assert D[..W] == D && D[W..] == [];
    assert |D| >= 1;
    UnitProduct(l.sign, r.sign);
    var neg, J := IntegerRendered(l.sign * r.sign, D);
    ParseIntegerText(neg, J);
    SignedProduct(l.sign, Magnitude(a, l), r.sign, Magnitude(b, r));
  }

  /** The description of an integer numeral, its magnitude read with the
      sign. */
  lemma IntegerParts(t: string, v: int) returns (d: Desc)
    requires IntegerText(t, v)
    ensures Numeral(t) == Some(d) && d.lscale == 0 && d.lint < d.ldot
    ensures (d.sign == 1 || d.sign == -1) && WithSign(d.sign < 0, Magnitude(t, d)) == v
  {
    d := Numeral(t).value;
    assert IntDigits(t, d) + FracDigits(t, d) == IntDigits(t, d);
  }

  /** An integer rendered at scale 0: a canonical digit string after a '-'
      when the value is negative. */
  lemma IntegerRendered(sg: int, D: seq<char>) returns (neg: bool, J: seq<char>)
    requires |D| >= 1 && AllDigits(D) && (sg == 1 || sg == -1)
    ensures TruncText(sg, D, [], 0, false) == (if neg then "-" else "") + J
    ensures |J| >= 1 && AllDigits(J) && (|J| >= 2 ==> J[0] != '0')
    ensures WithSign(neg, Val(J)) == WithSign(sg < 0, Val(D))
  {
    J := StripLeading(D);
    StripKeepsValue(D, []);
    assert D + [] == D && J + [] == J;
    neg := KeepsMinus(sg, J, []);
    if Val(J) != 0 {
      assert neg == (sg < 0);
    }
  }

  /** A product of two signs is a sign. */
  lemma UnitProduct(sl: int, sr: int)
    requires (sl == 1 || sl == -1) && (sr == 1 || sr == -1)
    ensures sl * sr == if (sl < 0) == (sr < 0) then 1 else -1
  {
  }

  lemma SignedProduct(sl: int, ml: nat, sr: int, mr: nat)
    requires (sl == 1 || sl == -1) && (sr == 1 || sr == -1)
    ensures WithSign(sl < 0, ml) * WithSign(sr < 0, mr) == WithSign(sl * sr < 0, ml * mr)
  {
  }

  lemma {:induction false} PowerSquare(y: int, k: nat)
    ensures Power(y * y, k) == Power(y, 2 * k)
  {
    if k > 0 {
      PowerSquare(y, k - 1);
      assert Power(y, 2 * k) == y * (y * Power(y, 2 * (k - 1)));
    }
  }

  /** The square-and-multiply loop of `bcpow` from integer numerals computes
      `result * mul^deg`. */
  lemma {:induction false} PowLoopValue(result: string, mul: string, deg: nat, x: int, y: int)
    requires IntegerText(result, x) && IntegerText(mul, y)
    ensures IntegerText(PowLoop(result, mul, deg), x * Power(y, deg))
    decreases deg
  {
    if deg > 0 {
      var odd := deg % 2 == 1;
      if odd {
        MulIntegers(result, mul, x, y);
      }
      MulIntegers(mul, mul, y, y);
      PowLoopValue(if odd then MulResult(result, mul, 0) else result, MulResult(mul, mul, 0), deg / 2,
                   if odd then x * y else x, y * y);
      PowerHalves(x, y, deg);
    }
  }

  /** One step of square-and-multiply keeps `result * mul^deg`. */
  lemma PowerHalves(x: int, y: int, deg: nat)
    requires deg > 0
    ensures (if deg % 2 == 1 then x * y else x) * Power(y * y, deg / 2) == x * Power(y, deg)
  {
    var k := deg / 2;
    PowerSquare(y, k);
    if deg % 2 == 1 {
      assert Power(y, deg) == y * Power(y, 2 * k);
      assert x * y * Power(y, 2 * k) == x * (y * Power(y, 2 * k));
    }
  }

  /** "1" is the numeral of 1. */
  lemma OneIsInteger()
    ensures IntegerText(One, 1)
  {
    assert Val("1") == 1 by {
      assert "1"[..0] == [];
    }
    ParseIntegerText(false, "1");
    assert "" + "1" == One;
  }

  /** `bcpow` of integer numerals, the exponent non-negative and below
      `10^18`: the numeral of the power. */
  lemma PowResultValue(lhs: string, rhs: string, x: int, e: int)
    requires IntegerText(lhs, x) && IntegerText(rhs, e) && 0 <= e < 1_000_000_000_000_000_000
    ensures IntegerText(PowResult(lhs, rhs), Power(x, e))
  {
    IntegerTextFacts(lhs, x);
    IntegerTextFacts(rhs, e);
    OneIsInteger();
    if e > 0 {
      PowLoopValue(One, lhs, e, 1, x);
    }
  }

  /** A negative exponent gives "0". */
  lemma NegativeExponent(lhs: string, rhs: string, x: int, e: int)
    requires IntegerText(lhs, x) && IntegerText(rhs, e) && e < 0
    ensures PowResult(lhs, rhs) == Zero
  {
    IntegerTextFacts(lhs, x);
    IntegerTextFacts(rhs, e);
  }

  // ---------------------------------------------------------------- rounding quirks

  /** Half-up rounding carries through the integer 9s into a new leading
      digit: "9.5" at scale 0 reads "10". */
  lemma RoundCarriesIntoNewDigit()
    ensures RoundText(1, "9", "5", 0, true) == "10"
  {
    assert StripLeading("9") == "9";
    assert WalkBack("5", 0) == 0;
    assert IncDigits("9") == "10";
  }

  /** Walking back over 9s lowers the target scale: "0.996" at scale 2 reads
      "1", with no fraction at all. */
  lemma RoundLowersScale()
    ensures RoundText(1, "0", "996", 2, true) == "1"
  {
    assert StripLeading("0") == "0";
    assert WalkBack("996", 2) == 0;
    assert IncDigits("0") == "1";
  }

  /** With no digit to drop, the fraction is padded to the scale: "1" at
      scale 2 reads "1.00", so rounding "0.996" twice at scale 2 differs from
      rounding it once. */
  lemma RoundPadsShortFraction()
    ensures RoundText(1, "1", "", 2, true) == "1.00"
  {
    assert StripLeading("1") == "1";
    assert TrimTrailing("") == "";
  }

  /** The sign is settled on the digits before truncation: -0.001 cut to two
      fraction digits reads "-0.00". */
  lemma SignBeforeTruncation()
    ensures TruncText(-1, "0", "001", 2, true) == "-0.00"
  {
    assert StripLeading("0") == "0";
    assert "001"[2] == '1';
    assert "001"[..2] == "00";
  }

  /** `bcround("0.996", 2)` is "1" while `bcround("1", 2)` is "1.00": rounding
      is not idempotent. */
  lemma BcroundNotIdempotent()
    ensures RoundResult("0.996", 2) == Some("1")
    ensures RoundResult("1", 2) == Some("1.00")
  {
    var t, u := "0.996", "1";
    var d := NumeralOfPointNineNineSix(t);
    assert IntDigits(t, d) == "0" && FracDigits(t, d) == "996";
    RoundLowersScale();
    var e := NumeralOfOne(u);
    assert IntDigits(u, e) == "1" && FracDigits(u, e) == "";
    RoundPadsShortFraction();
  }

  lemma NumeralOfPointNineNineSix(t: string) returns (d: Desc)
    requires t == "0.996"
    ensures Numeral(t) == Some(d) && d == Desc(1, 0, 1, 2, 3)
  {
    assert SignLength(t) == 0;
    RunToStop(t, 0, 1);
    RunToEnd(t, 2);
    assert SkipZeros(t, 0, 1) == 0;
    d := Desc(1, 0, 1, 2, 3);
  }

  lemma NumeralOfOne(t: string) returns (d: Desc)
    requires t == "1"
    ensures Numeral(t) == Some(d) && d == Desc(1, 0, 1, 1, 0)
  {
    assert SignLength(t) == 0;
    RunToEnd(t, 0);
    assert SkipZeros(t, 0, 1) == 0;
    d := Desc(1, 0, 1, 1, 0);
  }
}
