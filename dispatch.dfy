/** The sign dispatch `bc_add`: two parsed numerals with their signs go to the
    adder when the signs agree, and otherwise to the subtractor, the operand
    `bc_comp` ranks larger first, with that operand's sign. */
module Dispatch {
  import opened Digits
  import opened Parser
  import opened Normalizer
  import opened NormalizerFacts
  import opened Alignment
  import opened Adder
  import opened Subtractor
  import Comparator

  /** The precision `bc_add` hands to `bc_comp`: every fraction digit. */
  const FullPrecision: nat := 1000000000

  /** A sign as the parser leaves it. */
  predicate Signed(d: Desc) { d.sign == 1 || d.sign == -1 }

  /** The description with the sign turned still spans the same text. */
  lemma FlipKeepsSpan(s: string, d: Desc)
    requires Spans(s, d) && Signed(d)
    ensures Spans(s, d.(sign := -d.sign)) && Signed(d.(sign := -d.sign))
  {
  }

  /** `bc_comp` at full precision. */
  function Rank(lhs: string, l: Desc, rhs: string, r: Desc): int
    requires Spans(lhs, l) && Spans(rhs, r)
  {
    Comparator.CompSpec(lhs, l, rhs, r, FullPrecision)
  }

  /** `bc_comp` never ranks an operand with the shorter integer span first. */
  lemma RankedFirstIsLonger(lhs: string, l: Desc, rhs: string, r: Desc)
    requires Spans(lhs, l) && Spans(rhs, r)
    ensures Rank(lhs, l, rhs, r) >= 0 ==> IntLen(r) <= IntLen(l)
    ensures Rank(lhs, l, rhs, r) <= 0 ==> IntLen(l) <= IntLen(r)
  {
  }

  /** Between operands of opposite signs, whether `bc_add` hands the left one
      to the subtractor first: it is ranked larger, or ties with it and is the
      positive one. */
  predicate LeftFirst(lhs: string, l: Desc, rhs: string, r: Desc)
    requires Spans(lhs, l) && Spans(rhs, r)
  {
    var c := Rank(lhs, l, rhs, r);
    (l.sign > 0 && c >= 0) || (l.sign < 0 && c > 0)
  }

  /** What `bc_add` returns. */
  function AddDispatch(lhs: string, l: Desc, rhs: string, r: Desc, scale: nat): string
    requires Spans(lhs, l) && Spans(rhs, r) && Signed(l) && Signed(r)
  {
    RankedFirstIsLonger(lhs, l, rhs, r);
    if l.sign > 0 && r.sign > 0 then AddText(lhs, l, rhs, r, scale, 1)
    else if l.sign > 0 && r.sign < 0 then
      if Rank(lhs, l, rhs, r) >= 0 then SubText(lhs, l, rhs, r, scale, 1)
      else SubText(rhs, r, lhs, l, scale, -1)
    else if l.sign < 0 && r.sign > 0 then
      if Rank(lhs, l, rhs, r) <= 0 then SubText(rhs, r, lhs, l, scale, 1)
      else SubText(lhs, l, rhs, r, scale, -1)
    else AddText(lhs, l, rhs, r, scale, -1)
  }

  /** `bc_add` as written; the `BC_ASSERT (0)` after the four sign cases is
      unreachable for the signs the parser produces. */
  method BcAdd(lhs: string, l: Desc, rhs: string, r: Desc, scale: nat) returns (res: string)
    requires Spans(lhs, l) && Spans(rhs, r) && Signed(l) && Signed(r)
    ensures res == AddDispatch(lhs, l, rhs, r, scale)
  {
    if l.sign > 0 && r.sign > 0 {
      res := AddPositive(lhs, l, rhs, r, scale, 1);
      return;
    }
    if l.sign > 0 && r.sign < 0 {
      var c := Comparator.BcComp(lhs, l, rhs, r, FullPrecision);
      RankedFirstIsLonger(lhs, l, rhs, r);
      if c >= 0 {
        res := SubPositive(lhs, l, rhs, r, scale, 1);
      } else {
        res := SubPositive(rhs, r, lhs, l, scale, -1);
      }
      return;
    }
    if l.sign < 0 && r.sign > 0 {
      var c := Comparator.BcComp(lhs, l, rhs, r, FullPrecision);
      RankedFirstIsLonger(lhs, l, rhs, r);
      if c <= 0 {
        res := SubPositive(rhs, r, lhs, l, scale, 1);
      } else {
        res := SubPositive(lhs, l, rhs, r, scale, -1);
      }
      return;
    }
    res := AddPositive(lhs, l, rhs, r, scale, -1);
  }

  // ---------------------------------------------------------------- meaning

  /** A numeral's signed magnitude brought to `rs` fraction places. */
  function Scaled(s: string, d: Desc, rs: nat): int
    requires Spans(s, d) && d.lscale <= rs
  {
    d.sign * (Magnitude(s, d) * Pow10(rs - d.lscale))
  }

  /** The fraction read to `p >= lscale` places is the magnitude scaled up. */
  lemma PrefixValue(s: string, d: Desc, p: nat)
    requires Spans(s, d) && d.lscale <= p
    ensures Val(IntDigits(s, d) + Comparator.FracPrefix(s, d, p)) == Magnitude(s, d) * Pow10(p - d.lscale)
  {
    var I, F := IntDigits(s, d), FracDigits(s, d);
    if p == d.lscale {
      assert Comparator.FracPrefix(s, d, p) == F;
    } else {
      assert I + Comparator.FracPrefix(s, d, p) == (I + F) + Zeros(p - d.lscale);
      ValAppend(I + F, Zeros(p - d.lscale));
      ValAllZero(Zeros(p - d.lscale));
    }
  }

  /** On canonical operands whose fraction digits `bc_comp` reads in full,
      its rank is the order of the magnitudes. */
  lemma RankOrdersMagnitudes(lhs: string, l: Desc, rhs: string, r: Desc)
    requires Spans(lhs, l) && Spans(rhs, r) && Canonical(lhs, l) && Canonical(rhs, r)
    requires FracWidth(l, r) <= FullPrecision
    ensures var rs := FracWidth(l, r);
      Rank(lhs, l, rhs, r)
        == Comparator.Cmp(Magnitude(lhs, l) * Pow10(rs - l.lscale), Magnitude(rhs, r) * Pow10(rs - r.lscale))
  {
    var rs := FracWidth(l, r);
    assert Comparator.Min(Comparator.Max(l.lscale, r.lscale), FullPrecision) == rs;
    Comparator.CompOrdersTruncatedValues(lhs, l, rhs, r, FullPrecision);
    PrefixValue(lhs, l, rs);
    PrefixValue(rhs, r, rs);
  }

  /** The larger magnitude minus the smaller, as the subtractor writes it. */
  lemma Difference(lhs: string, l: Desc, rhs: string, r: Desc, A: int, B: int)
    requires Spans(lhs, l) && Spans(rhs, r) && IntLen(r) <= IntLen(l)
    requires A == Magnitude(lhs, l) * Pow10(FracWidth(l, r) - l.lscale)
    requires B == Magnitude(rhs, r) * Pow10(FracWidth(l, r) - r.lscale)
    requires A >= B
    ensures Val(SubDigits(lhs, l, rhs, r)) == A - B
  {
    SubExact(lhs, l, rhs, r);
  }

  /** `bc_add` computes the signed sum exactly before the normaliser cuts it:
      the result is the truncated text of digits `D` (`W` integer places, the
      larger scale in fraction places) whose value, with sign `sg`, is the sum
      of the two signed operands. Equal signs keep that sign; a sum of opposite
      signs that cancels is positive. This needs canonical integer spans: see
      `EmptySpanMisranked` for an operand with none. */
  lemma AddDispatchExact(lhs: string, l: Desc, rhs: string, r: Desc, scale: nat)
    returns (sg: int, D: seq<char>, W: nat)
    requires Spans(lhs, l) && Spans(rhs, r) && Signed(l) && Signed(r)
    requires Canonical(lhs, l) && Canonical(rhs, r) && FracWidth(l, r) <= FullPrecision
    ensures W <= |D| && |D| - W == FracWidth(l, r) && AllDigits(D)
    ensures AddDispatch(lhs, l, rhs, r, scale) == TruncText(sg, D[..W], D[W..], scale, true)
    ensures sg * Val(D) == Scaled(lhs, l, FracWidth(l, r)) + Scaled(rhs, r, FracWidth(l, r))
    ensures l.sign == r.sign ==> sg == l.sign
    ensures l.sign != r.sign ==> (sg == 1 || sg == -1) && (Val(D) == 0 ==> sg == 1)
  {
    var A, B := Operands(lhs, l, rhs, r);
    if l.sign == r.sign {
      sg := l.sign;
      D, W := DispatchSum(lhs, l, rhs, r, scale);
    } else if LeftFirst(lhs, l, rhs, r) {
      sg := l.sign;
      D, W := DispatchLeft(lhs, l, rhs, r, scale, A, B);
    } else {
      sg := r.sign;
      D, W := DispatchRight(lhs, l, rhs, r, scale, A, B);
    }
    SignedTotal(lhs, l, rhs, r, sg, Val(D), A, B);
  }

  /** Both magnitudes brought to the larger scale. */
  lemma Operands(lhs: string, l: Desc, rhs: string, r: Desc) returns (A: nat, B: nat)
    requires Spans(lhs, l) && Spans(rhs, r)
    ensures A == Magnitude(lhs, l) * Pow10(FracWidth(l, r) - l.lscale)
    ensures B == Magnitude(rhs, r) * Pow10(FracWidth(l, r) - r.lscale)
  {
    A, B := Magnitude(lhs, l) * Pow10(FracWidth(l, r) - l.lscale), Magnitude(rhs, r) * Pow10(FracWidth(l, r) - r.lscale);
  }

  /** The signed total of the two operands, from the value the kernel was
      handed: the sum of the magnitudes under equal signs, otherwise their
      difference, with the sign of the operand that went first. */
  lemma SignedTotal(lhs: string, l: Desc, rhs: string, r: Desc, sg: int, v: int, A: int, B: int)
    requires Spans(lhs, l) && Spans(rhs, r) && Signed(l) && Signed(r)
    requires A == Magnitude(lhs, l) * Pow10(FracWidth(l, r) - l.lscale)
    requires B == Magnitude(rhs, r) * Pow10(FracWidth(l, r) - r.lscale)
    requires l.sign == r.sign ==> sg == l.sign && v == A + B
    requires l.sign != r.sign ==> (sg == l.sign && v == A - B) || (sg == r.sign && v == B - A)
    ensures sg * v == Scaled(lhs, l, FracWidth(l, r)) + Scaled(rhs, r, FracWidth(l, r))
  {
    assert Scaled(lhs, l, FracWidth(l, r)) == l.sign * A && Scaled(rhs, r, FracWidth(l, r)) == r.sign * B;
    if sg == 1 {
      assert sg * v == v;
    } else {
      assert sg * v == -v;
    }
  }

  /** Equal signs: the adder's digits, with that sign. */
  lemma DispatchSum(lhs: string, l: Desc, rhs: string, r: Desc, scale: nat) returns (D: seq<char>, W: nat)
    requires Spans(lhs, l) && Spans(rhs, r) && Signed(l) && Signed(r) && l.sign == r.sign
    ensures W <= |D| && |D| - W == FracWidth(l, r) && AllDigits(D)
    ensures Val(D) == Magnitude(lhs, l) * Pow10(FracWidth(l, r) - l.lscale)
                    + Magnitude(rhs, r) * Pow10(FracWidth(l, r) - r.lscale)
    ensures AddDispatch(lhs, l, rhs, r, scale) == TruncText(l.sign, D[..W], D[W..], scale, true)
  {
    D, W := AddDigits(lhs, l, rhs, r), IntWidth(l, r);
    AddExact(lhs, l, rhs, r);
  }

  /** Opposite signs, the left operand ranked larger (or a tie with a
      positive left operand): it goes first. */
  lemma DispatchLeft(lhs: string, l: Desc, rhs: string, r: Desc, scale: nat, A: int, B: int)
    returns (D: seq<char>, W: nat)
    requires Spans(lhs, l) && Spans(rhs, r) && Signed(l) && Signed(r) && l.sign != r.sign
    requires LeftFirst(lhs, l, rhs, r)
    requires Canonical(lhs, l) && Canonical(rhs, r) && FracWidth(l, r) <= FullPrecision
    requires A == Magnitude(lhs, l) * Pow10(FracWidth(l, r) - l.lscale)
    requires B == Magnitude(rhs, r) * Pow10(FracWidth(l, r) - r.lscale)
    ensures W <= |D| && |D| - W == FracWidth(l, r) && AllDigits(D)
    ensures Val(D) == A - B && (Val(D) == 0 ==> l.sign == 1)
    ensures AddDispatch(lhs, l, rhs, r, scale) == TruncText(l.sign, D[..W], D[W..], scale, true)
  {
    DispatchCases(lhs, l, rhs, r, scale);
    D, W := SubDigits(lhs, l, rhs, r), IntLen(l);
    SubTextDigits(lhs, l, rhs, r, scale, l.sign);
    RankOrdersMagnitudes(lhs, l, rhs, r);
    Difference(lhs, l, rhs, r, A, B);
  }

  /** Opposite signs, the right operand ranked larger (or a tie with a
      negative left operand): it goes first. */
  lemma DispatchRight(lhs: string, l: Desc, rhs: string, r: Desc, scale: nat, A: int, B: int)
    returns (D: seq<char>, W: nat)
    requires Spans(lhs, l) && Spans(rhs, r) && Signed(l) && Signed(r) && l.sign != r.sign
    requires !LeftFirst(lhs, l, rhs, r)
    requires Canonical(lhs, l) && Canonical(rhs, r) && FracWidth(l, r) <= FullPrecision
    requires A == Magnitude(lhs, l) * Pow10(FracWidth(l, r) - l.lscale)
    requires B == Magnitude(rhs, r) * Pow10(FracWidth(l, r) - r.lscale)
    ensures W <= |D| && |D| - W == FracWidth(l, r) && AllDigits(D)
    ensures Val(D) == B - A && (Val(D) == 0 ==> r.sign == 1)
    ensures AddDispatch(lhs, l, rhs, r, scale) == TruncText(r.sign, D[..W], D[W..], scale, true)
  {
    DispatchCases(lhs, l, rhs, r, scale);
    D, W := SubDigits(rhs, r, lhs, l), IntLen(r);
    SubTextDigits(rhs, r, lhs, l, scale, r.sign);
    RankOrdersMagnitudes(lhs, l, rhs, r);
    OperandsSwapped(lhs, l, rhs, r);
    Difference(rhs, r, lhs, l, B, A);
  }

  /** The operands brought to the larger scale do not depend on the order
      they are named in. */
  lemma OperandsSwapped(lhs: string, l: Desc, rhs: string, r: Desc)
    requires Spans(lhs, l) && Spans(rhs, r)
    ensures Magnitude(lhs, l) * Pow10(FracWidth(r, l) - l.lscale) == Magnitude(lhs, l) * Pow10(FracWidth(l, r) - l.lscale)
    ensures Magnitude(rhs, r) * Pow10(FracWidth(r, l) - r.lscale) == Magnitude(rhs, r) * Pow10(FracWidth(l, r) - r.lscale)
  {
    assert FracWidth(r, l) == FracWidth(l, r);
  }

  /** Between opposite signs `bc_add` hands the operand going first, with its
      sign, to the subtractor. */
  lemma DispatchCases(lhs: string, l: Desc, rhs: string, r: Desc, scale: nat)
    requires Spans(lhs, l) && Spans(rhs, r) && Signed(l) && Signed(r) && l.sign != r.sign
    ensures LeftFirst(lhs, l, rhs, r) ==>
      IntLen(r) <= IntLen(l) && AddDispatch(lhs, l, rhs, r, scale) == SubText(lhs, l, rhs, r, scale, l.sign)
    ensures !LeftFirst(lhs, l, rhs, r) ==>
      IntLen(l) <= IntLen(r) && AddDispatch(lhs, l, rhs, r, scale) == SubText(rhs, r, lhs, l, scale, r.sign)
  {
    RankedFirstIsLonger(lhs, l, rhs, r);
  }

  // ---------------------------------------------------------------- an empty integer span

  /** Without canonical integer spans `AddDispatchExact` fails: ".5" plus
      "-0.1" ranks ".5" lower, so the subtractor takes 0.5 from 0.1 and, having
      no final borrow, writes the ten's complement 9.6. */
  lemma EmptySpanMisranked(a: string, l: Desc, b: string, r: Desc)
    requires a == ".5" && l == Desc(1, 0, 0, 1, 1) && b == "-0.1" && r == Desc(-1, 1, 2, 3, 1)
    ensures Spans(a, l) && Spans(b, r) && Signed(l) && Signed(r)
    ensures Scaled(a, l, 1) + Scaled(b, r, 1) == 4
    ensures AddDispatch(a, l, b, r, 6) == "-9.600000"
  {
    var D := MisrankedDigits(a, l, b, r);
    assert Rank(a, l, b, r) == -1;
    assert AddDispatch(a, l, b, r, 6) == TruncText(-1, D[..1], D[1..], 6, true);
    NinePointSix(D[..1], D[1..]);
  }

  /** The operands' values, and the digits the subtractor writes for them. */
  lemma MisrankedDigits(a: string, l: Desc, b: string, r: Desc) returns (D: seq<char>)
    requires a == ".5" && l == Desc(1, 0, 0, 1, 1) && b == "-0.1" && r == Desc(-1, 1, 2, 3, 1)
    ensures Spans(a, l) && Spans(b, r) && Signed(l) && Signed(r)
    ensures Magnitude(a, l) == 5 && Magnitude(b, r) == 1
    ensures IntLen(r) == 1 && IntLen(l) == 0 && FracWidth(r, l) == 1
    ensures D == SubDigits(b, r, a, l) && D == "96"
  {
    ExampleMagnitudes(a, l, b, r);
    D := ExampleDigits(a, l, b, r);
  }

  lemma ExampleMagnitudes(a: string, l: Desc, b: string, r: Desc)
    requires a == ".5" && l == Desc(1, 0, 0, 1, 1) && b == "-0.1" && r == Desc(-1, 1, 2, 3, 1)
    ensures Spans(a, l) && Spans(b, r)
    ensures Magnitude(a, l) == 5 && Magnitude(b, r) == 1
  {
    assert Spans(a, l) && Spans(b, r);
    var Ma := IntDigits(a, l) + FracDigits(a, l);
    assert |Ma| == 1 && Ma[0] == '5';
    assert Ma[..0] == [];
    assert Val(Ma) == Val(Ma[..0]) * 10 + DigitOf(Ma[0]);
    var Mb := IntDigits(b, r) + FracDigits(b, r);
    assert |Mb| == 2 && Mb[0] == '0' && Mb[1] == '1';
    TwoDigitValue(Mb);
  }

  lemma ExampleDigits(a: string, l: Desc, b: string, r: Desc) returns (D: seq<char>)
    requires a == ".5" && l == Desc(1, 0, 0, 1, 1) && b == "-0.1" && r == Desc(-1, 1, 2, 3, 1)
    requires Spans(a, l) && Spans(b, r)
    ensures D == SubDigits(b, r, a, l) && D == "96"
  {
    var A, B := Aligned(b, r, 1, 1), Aligned(a, l, 1, 1);
    assert A[0] == '0' && A[1] == '1' && B[0] == '0' && B[1] == '5';
    assert Borrow(A, B, 1) == 1 && Borrow(A, B, 0) == 1;
    D := SubDigits(b, r, a, l);
    assert D == [CharOf(DiffDigit(A, B, 0))] + ([CharOf(DiffDigit(A, B, 1))] + DiffCols(A, B, 2, 2));
  }

  lemma TwoDigitValue(M: seq<char>)
    requires |M| == 2
    ensures Val(M) == DigitOf(M[0]) * 10 + DigitOf(M[1])
  {
    var M1 := M[..1];
    assert M1[..0] == [] && M1[0] == M[0];
    assert Val(M1) == DigitOf(M[0]);
  }

  /** The text `bc_round` makes of the negative sign and the digits 9.6 at
      scale 6. */
  lemma NinePointSix(I: seq<char>, F: seq<char>)
    requires I == "9" && F == "6"
    ensures TruncText(-1, I, F, 6, true) == "-9.600000"
  {
    OneDigitEach(I, F, 6);
    NineSpelt(I, F, Zeros(5));
  }


  lemma NineSpelt(I: seq<char>, F: seq<char>, z: seq<char>)
    requires I == "9" && F == "6" && z == Zeros(5)
    ensures "-" + I + ("." + F) + z == "-9.600000"
  {
    assert |z| == 5 && forall i :: 0 <= i < 5 ==> z[i] == '0';
    assert z == "00000";
  }

  // ---------------------------------------------------------------- the intended dispatch

  /** `bc_add` as evidently intended: an operand with an empty integer span
      is read with a "0" there before `bc_comp` ranks the two. */
  function FilledDispatch(lhs: string, l: Desc, rhs: string, r: Desc, scale: nat): string
    requires Spans(lhs, l) && Spans(rhs, r) && Signed(l) && Signed(r)
  {
    var (a, la) := Comparator.ZeroFilled(lhs, l);
    var (b, rb) := Comparator.ZeroFilled(rhs, r);
    AddDispatch(a, la, b, rb, scale)
  }

  /** Filling in the "0" keeps the signed value at every scale. */
  lemma FilledScaled(s: string, d: Desc, rs: nat)
    requires Spans(s, d) && d.lscale <= rs
    ensures var (t, e) := Comparator.ZeroFilled(s, d);
      NoLeadingZero(s, d) ==> Canonical(t, e)
    ensures var (t, e) := Comparator.ZeroFilled(s, d);
      Scaled(t, e, rs) == Scaled(s, d, rs)
  {
    var (t, e) := Comparator.ZeroFilled(s, d);
    Comparator.ZeroFilledDigits(s, d, d.lscale);
    PrefixValue(s, d, d.lscale);
    PrefixValue(t, e, d.lscale);
  }

  /** With the "0" filled in, every pair of parsed operands gets the exact
      signed sum, ".5" and "-0.1" included: the result is the truncated text
      of digits whose signed value is the sum of the two operands. */
  lemma FilledDispatchExact(lhs: string, l: Desc, rhs: string, r: Desc, scale: nat)
    returns (sg: int, D: seq<char>, W: nat)
    requires Spans(lhs, l) && Spans(rhs, r) && Signed(l) && Signed(r)
    requires NoLeadingZero(lhs, l) && NoLeadingZero(rhs, r) && FracWidth(l, r) <= FullPrecision
    ensures W <= |D| && |D| - W == FracWidth(l, r) && AllDigits(D) && (sg == 1 || sg == -1)
    ensures FilledDispatch(lhs, l, rhs, r, scale) == TruncText(sg, D[..W], D[W..], scale, true)
    ensures sg * Val(D) == Scaled(lhs, l, FracWidth(l, r)) + Scaled(rhs, r, FracWidth(l, r))
  {
    var (a, la) := Comparator.ZeroFilled(lhs, l);
    var (b, rb) := Comparator.ZeroFilled(rhs, r);
    var rs := FracWidth(l, r);
    FilledScaled(lhs, l, rs);
    FilledScaled(rhs, r, rs);
    sg, D, W := AddDispatchExact(a, la, b, rb, scale);
  }

  /** The operands of `EmptySpanMisranked` under the intended dispatch: the
      digits written are worth 0.4, one fraction place, with sign `sg`. */
  lemma FilledExample(a: string, l: Desc, b: string, r: Desc) returns (sg: int, D: seq<char>, W: nat)
    requires a == ".5" && l == Desc(1, 0, 0, 1, 1) && b == "-0.1" && r == Desc(-1, 1, 2, 3, 1)
    ensures Spans(a, l) && Spans(b, r) && Signed(l) && Signed(r)
    ensures W <= |D| && |D| - W == 1 && AllDigits(D) && sg * Val(D) == 4
    ensures FilledDispatch(a, l, b, r, 6) == TruncText(sg, D[..W], D[W..], 6, true)
  {
    EmptySpanMisranked(a, l, b, r);
    sg, D, W := FilledDispatchExact(a, l, b, r, 6);
  }
}
