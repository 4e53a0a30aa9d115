/** The public operations of `BCMath` (and of `QBCMath`, its Qt copy): each
    one resolves the scale argument, reads an empty operand as "0" (or gives
    up early), parses both operands, and hands the parsed spans to a kernel.
    The default scale, a static global of the source, is a field of the class
    here. */
module Facade {
  import opened Digits
  import opened Wrappers
  import opened Parser
  import opened ParserFacts
  import opened Normalizer
  import opened NormalizerFacts
  import opened RoundBuffer
  import Comparator
  import Dispatch
  import Multiplier
  import Divider

  /** `INT_MIN`, the default scale argument: it stands for the default scale. */
  const IntMin: int := -0x8000_0000

  const Zero: string := "0"
  const One: string := "1"

  /** The 64-bit `long long` the `bcmod` accumulator is declared with. */
  newtype int64 = x: int | -0x8000_0000_0000_0000 <= x < 0x8000_0000_0000_0000

  /** The scale an operation works at: `INT_MIN` means the default scale, and
      any other negative scale is taken as 0. */
  function EffectiveScale(scale: int, default: nat): nat {
    if scale == IntMin then default else if scale < 0 then 0 else scale
  }

  /** An empty operand, read as "0" by the facades that retry with `ZERO`. */
  function Operand(s: string): string {
    if s == "" then Zero else s
  }

  /** `bc_parse_number` on a facade operand, with what the parser guarantees
      about the descriptor it returns. */
  function Numeral(s: string): (o: Option<Desc>)
    ensures o == Parse(s)
    ensures o.Some? ==> Spans(s, o.value) && Dispatch.Signed(o.value) && NoLeadingZero(s, o.value)
  {
    match Parse(s)
    case None => None
    case Some(d) =>
      ParseSign(s);
      ParseStripsLeadingZeros(s);
      Some(d)
  }

  /** What `bcadd` returns: `bc_zero(scale)` when an operand is not a number,
      otherwise `bc_add` of the two parsed operands. */
  function AddResult(lhs: string, rhs: string, scale: nat): string {
    var a, b := Operand(lhs), Operand(rhs);
    match Numeral(a)
    case None => BcZero(scale)
    case Some(l) =>
      match Numeral(b)
      case None => BcZero(scale)
      case Some(r) => Dispatch.AddDispatch(a, l, b, r, scale)
  }

  /** What `bcsub` returns: `bcadd` with the parsed sign of the second operand
      flipped. */
  function SubResult(lhs: string, rhs: string, scale: nat): string {
    var a, b := Operand(lhs), Operand(rhs);
    match Numeral(a)
    case None => BcZero(scale)
    case Some(l) =>
      match Numeral(b)
      case None => BcZero(scale)
      case Some(r) => Dispatch.AddDispatch(a, l, b, r.(sign := -r.sign), scale)
  }

  /** What `bcmul` returns: "0" (not `bc_zero`) when an operand is not a
      number, otherwise the product of `bc_mul_positive` with the product of
      the signs. */
  function MulResult(lhs: string, rhs: string, scale: nat): string {
    var a, b := Operand(lhs), Operand(rhs);
    match Numeral(a)
    case None => Zero
    case Some(l) =>
      match Numeral(b)
      case None => Zero
      case Some(r) => Multiplier.MulText(a, l, b, r, scale, l.sign * r.sign)
  }

  /** What `bcdiv` returns: `bc_zero(scale)` for an empty operand, "0" when an
      operand is not a number, otherwise `bc_div_positive`, whose `None` is the
      process ending on a fractional zero divisor. */
  function DivResult(lhs: string, rhs: string, scale: nat): Option<string> {
    if lhs == "" || rhs == "" then Some(BcZero(scale))
    else
      match Numeral(lhs)
      case None => Some(Zero)
      case Some(l) =>
        match Numeral(rhs)
        case None => Some(Zero)
        case Some(r) => Divider.DivText(lhs, l, rhs, r, scale, l.sign * r.sign)
  }

  /** What `bccomp` returns: 0 when an operand is not a number; the sign of
      the left operand when the signs differ; otherwise `bc_comp` of the
      magnitudes, negated for two negative operands. */
  function CompResult(lhs: string, rhs: string, scale: nat): int {
    var a, b := Operand(lhs), Operand(rhs);
    match Numeral(a)
    case None => 0
    case Some(l) =>
      match Numeral(b)
      case None => 0
      case Some(r) =>
        if l.sign != r.sign then (l.sign - r.sign) / 2
        else (1 - 2 * (if l.sign < 0 then 1 else 0)) * Comparator.CompSpec(a, l, b, r, scale)
  }

  /** The decimal text of a non-negative number, without leading zeros. */
  function DecimalText(n: nat): (t: string)
    ensures |t| >= 1
  {
    if n < 10 then [CharOf(n)] else DecimalText(n / 10) + [CharOf(n % 10)]
  }

  /** The digits still to be written for `n` by a do-while loop that has
      already written its last digit: none once `n` is 0. */
  function Pending(n: nat): string {
    if n == 0 then [] else DecimalText(n)
  }

  /** Whether a parsed operand is an integer to `bcmod` and `bcpow`:
      `bc_parse_number` returned 0, that is, it parsed with no fraction
      digits. */
  predicate IsInteger(o: Option<Desc>) {
    o.Some? && o.value.lscale == 0
  }

  /** What `bcmod` returns: "0" for an empty operand, an operand that is not
      an integer, or a divisor of more than 18 digits or of value 0; otherwise
      the remainder of the magnitudes, the divisor's sign ignored, with a '-'
      in front whenever the dividend is negative. */
  function ModResult(lhs: string, rhs: string): string {
    if lhs == "" || rhs == "" then Zero
    else if !IsInteger(Numeral(lhs)) || !IsInteger(Numeral(rhs)) then Zero
    else
      var l, r := Numeral(lhs).value, Numeral(rhs).value;
      var m := Val(IntDigits(rhs, r));
      if r.ldot - r.lint > 18 || m == 0 then Zero
      else (if l.sign < 0 then "-" else "") + DecimalText(Val(IntDigits(lhs, l)) % m)
  }

  /** The square-and-multiply loop of `bcpow`, from the accumulated `result`,
      the running square `mul` and the exponent bits `deg` still to go; every
      product goes through `bcmul` at scale 0. */
  function PowLoop(result: string, mul: string, deg: nat): string
    decreases deg
  {
    if deg == 0 then result
    else
      var result' := if deg % 2 == 1 then MulResult(result, mul, 0) else result;
      PowLoop(result', MulResult(mul, mul, 0), deg / 2)
  }

  /** What `bcpow` returns: "0" for an empty base, "1" for an empty exponent,
      "0" when an operand is not an integer or the exponent has more than 18
      digits or is negative, "1" for exponent 0, and otherwise the
      square-and-multiply product. */
  function PowResult(lhs: string, rhs: string): string {
    if lhs == "" then Zero
    else if rhs == "" then One
    else if !IsInteger(Numeral(lhs)) || !IsInteger(Numeral(rhs)) then Zero
    else
      var r := Numeral(rhs).value;
      var deg := Val(IntDigits(rhs, r));
      if r.ldot - r.lint > 18 || (r.sign < 0 && deg != 0) then Zero
      else if deg == 0 then One
      else PowLoop(One, lhs, deg)
  }

  /** What `bcround` returns: `None` when the operand is not a number (the
      source builds its result from a null pointer there), otherwise the
      half-up rounding of `bc_round` in `round_last` mode, padded. */
  function RoundResult(lhs: string, scale: nat): Option<string> {
    var a := Operand(lhs);
    match Numeral(a)
    case None => None
    case Some(d) => Some(RoundText(d.sign, IntDigits(a, d), FracDigits(a, d), scale, true))
  }

  /** The facade object; `bcScale` is the default scale `bc_scale`. */
  class BCMath {
    var bcScale: nat

    /** The default scale starts at 6. */
    constructor()
      ensures bcScale == 6
    {
      bcScale := 6;
    }

    /** `bcscale`: a negative default scale is stored as 0. */
    method Bcscale(scale: int)
      modifies this
      ensures bcScale == if scale < 0 then 0 else scale
    {
      if scale < 0 {
        bcScale := 0;
      } else {
        bcScale := scale;
      }
    }

    /** The scale argument as every facade resolves it. */
    method ResolveScale(scale: int) returns (sc: nat)
      ensures sc == EffectiveScale(scale, bcScale)
    {
      var s := scale;
      if s == IntMin {
        s := bcScale;
      }
      if s < 0 {
        s := 0;
      }
      sc := s;
    }

    /** `bcadd`. */
    method Bcadd(lhs: string, rhs: string, scale: int) returns (res: string)
      ensures res == AddResult(lhs, rhs, EffectiveScale(scale, bcScale))
      decreases |lhs| == 0, |rhs| == 0
    {
      if lhs == "" {
        res := Bcadd(Zero, rhs, scale);
        return;
      }
      if rhs == "" {
        res := Bcadd(lhs, Zero, scale);
        return;
      }
      var sc := ResolveScale(scale);
      var lret, l := ParseNumber(lhs);
      if lret < 0 {
        return BcZero(sc);
      }
      ParseSign(lhs);
      var rret, r := ParseNumber(rhs);
      if rret < 0 {
        return BcZero(sc);
      }
      ParseSign(rhs);
      res := Dispatch.BcAdd(lhs, l, rhs, r, sc);
    }

    /** `bcsub`. */
    method Bcsub(lhs: string, rhs: string, scale: int) returns (res: string)
      ensures res == SubResult(lhs, rhs, EffectiveScale(scale, bcScale))
      decreases |lhs| == 0, |rhs| == 0
    {
      if lhs == "" {
        res := Bcsub(Zero, rhs, scale);
        return;
      }
      if rhs == "" {
        res := Bcsub(lhs, Zero, scale);
        return;
      }
      var sc := ResolveScale(scale);
      var lret, l := ParseNumber(lhs);
      if lret < 0 {
        return BcZero(sc);
      }
      ParseSign(lhs);
      var rret, r := ParseNumber(rhs);
      if rret < 0 {
        return BcZero(sc);
      }
      ParseSign(rhs);
      Dispatch.FlipKeepsSpan(rhs, r);
      r := r.(sign := -r.sign);
      res := Dispatch.BcAdd(lhs, l, rhs, r, sc);
    }

    /** `bcmul`. */
    method Bcmul(lhs: string, rhs: string, scale: int) returns (res: string)
      ensures res == MulResult(lhs, rhs, EffectiveScale(scale, bcScale))
      decreases |lhs| == 0, |rhs| == 0
    {
      if lhs == "" {
        res := Bcmul(Zero, rhs, scale);
        return;
      }
      if rhs == "" {
        res := Bcmul(lhs, Zero, scale);
        return;
      }
      var sc := ResolveScale(scale);
      var lret, l := ParseNumber(lhs);
      if lret < 0 {
        return Zero;
      }
      ParseSign(lhs);
      var rret, r := ParseNumber(rhs);
      if rret < 0 {
        return Zero;
      }
      ParseSign(rhs);
      res := Multiplier.MulPositive(lhs, l, rhs, r, sc, l.sign * r.sign);
    }

    /** `bcdiv`; `None` where `BC_ASSERT` ends the process. */
    method Bcdiv(lhs: string, rhs: string, scale: int) returns (res: Option<string>)
      ensures res == DivResult(lhs, rhs, EffectiveScale(scale, bcScale))
    {
      var sc := ResolveScale(scale);
      if lhs == "" || rhs == "" {
        return Some(BcZero(sc));
      }
      var lret, l := ParseNumber(lhs);
      if lret < 0 {
        return Some(Zero);
      }
      ParseSign(lhs);
      var rret, r := ParseNumber(rhs);
      if rret < 0 {
        return Some(Zero);
      }
      ParseStripsLeadingZeros(rhs);
      res := Divider.DivPositive(lhs, l, rhs, r, sc, l.sign * r.sign);
    }

    /** `bcmod`: the divisor's digits are read into `mod`; the remainder is
        accumulated over the dividend's digits in a 64-bit `res` kept below
        `mod` (doubling, then five times plus the digit, so that no step
        leaves 64 bits), and is then written right to left into a buffer of
        20 characters, a '-' in front for a negative dividend. */
    method Bcmod(lhs: string, rhs: string) returns (res: string)
      ensures res == ModResult(lhs, rhs)
    {
      if lhs == "" {
        return Zero;
      }
      if rhs == "" {
        return Zero;
      }
      var lok, l := ParseInteger(lhs);
      if !lok {
        return Zero;
      }
      var rok, r := ParseInteger(rhs);
      if !rok {
        return Zero;
      }
      var mod := IntValue(rhs, r);
      if r.ldot - r.lint > 18 || mod == 0 {
        return Zero;
      }
      DivisorBelow(IntDigits(rhs, r));
      var rem := Remainder(lhs, l.lint, l.ldot, mod as int64);
      res := WriteRemainder(rem, l.sign < 0);
    }

    /** `bcpow`: the exponent's digits are read into `deg`, and the result is
        built by square-and-multiply, each product through `bcmul` at scale 0;
        `deg & 1` and `deg >>= 1` on the positive `deg` are `deg % 2` and
        `deg / 2`. */
    method Bcpow(lhs: string, rhs: string) returns (res: string)
      ensures res == PowResult(lhs, rhs)
    {
      if lhs == "" {
        return Zero;
      }
      if rhs == "" {
        return One;
      }
      var lok, l := ParseInteger(lhs);
      if !lok {
        return Zero;
      }
      var rok, r := ParseInteger(rhs);
      if !rok {
        return Zero;
      }
      var deg := IntValue(rhs, r);
      if r.ldot - r.lint > 18 || (r.sign < 0 && deg != 0) {
        return Zero;
      }
      if deg == 0 {
        return One;
      }

      res := SquareAndMultiply(lhs, deg);
    }

    /** The square-and-multiply loop of `bcpow`, each product through `bcmul`
        at scale 0. */
    method SquareAndMultiply(base: string, deg0: nat) returns (result: string)
      ensures result == PowLoop(One, base, deg0)
    {
      result := One;
      var mul := base;
      var deg := deg0;
      while deg > 0
        invariant PowLoop(result, mul, deg) == PowLoop(One, base, deg0)
      {
        if deg % 2 == 1 {
          result := Bcmul(result, mul, 0);
        }
        mul := Bcmul(mul, mul, 0);
        deg := deg / 2;
      }
    }

    /** `bccomp`. */
    method Bccomp(lhs: string, rhs: string, scale: int) returns (res: int)
      ensures res == CompResult(lhs, rhs, EffectiveScale(scale, bcScale))
      decreases |lhs| == 0, |rhs| == 0
    {
      if lhs == "" {
        res := Bccomp(Zero, rhs, scale);
        return;
      }
      if rhs == "" {
        res := Bccomp(lhs, Zero, scale);
        return;
      }
      var sc := ResolveScale(scale);
      var lret, l := ParseNumber(lhs);
      if lret < 0 {
        return 0;
      }
      ParseSign(lhs);
      var rret, r := ParseNumber(rhs);
      if rret < 0 {
        return 0;
      }
      ParseSign(rhs);
      if l.sign != r.sign {
        return (l.sign - r.sign) / 2;
      }
      var c := Comparator.BcComp(lhs, l, rhs, r, sc);
      res := (1 - 2 * (if l.sign < 0 then 1 else 0)) * c;
    }

    /** `bcround`: the operand is copied one place to the right over a buffer
        of '0's, so that a carry out of the integer digits lands on the spare
        '0' in front of them, and `bc_round` runs in `round_last` mode with
        padding. The buffer ends in the terminator its C-string copy has. */
    method Bcround(lhs: string, scale: int) returns (res: Option<string>)
      ensures res == RoundResult(lhs, EffectiveScale(scale, bcScale))
      decreases |lhs| == 0
    {
      if lhs == "" {
        res := Bcround(Zero, scale);
        return;
      }
      var sc := ResolveScale(scale);
      var ret, d := ParseNumber(lhs);
      if ret < 0 {
        return None;
      }
      var t := RoundCopy(lhs, d, sc);
      res := Some(t);
    }
  }

  /** `bc_parse_number` followed by the `ret != 0` test of `bcmod` and
      `bcpow`: whether the operand is a number without fraction digits. */
  method ParseInteger(s: string) returns (ok: bool, d: Desc)
    ensures ok == IsInteger(Numeral(s))
    ensures ok ==> Numeral(s) == Some(d) && Spans(s, d)
  {
    var ret;
    ret, d := ParseNumber(s);
    ok := ret == 0;
    if ok {
      ParseSpans(s);
    }
  }

  /** The loop `v = v * 10 + s[i] - '0'` over the integer digits, as `bcmod`
      and `bcpow` read the divisor and the exponent; the source's `long long`
      is not bounded here, since more than 18 digits are refused right after
      the loop. */
  method IntValue(s: string, d: Desc) returns (v: nat)
    requires Spans(s, d)
    ensures v == Val(IntDigits(s, d))
  {
    v := 0;
    for i := d.lint to d.ldot
      invariant v == Val(s[d.lint..i])
    {
      assert IsDigit(s[d.lint..d.ldot][i - d.lint]);
      ValStep(s, d.lint, i);
      v := v * 10 + DigitOf(s[i]);
    }
  }

  lemma ValStep(s: string, i: nat, j: nat)
    requires i <= j < |s|
    ensures Val(s[i..j + 1]) == Val(s[i..j]) * 10 + DigitOf(s[j])
  {
    assert s[i..j + 1][..j - i] == s[i..j];
  }

  /** The remainder loop of `bcmod` over the dividend digits `s[lo..hi)`. */
  method Remainder(s: string, lo: nat, hi: nat, m: int64) returns (acc: int64)
    requires lo <= hi <= |s| && AllDigits(s[lo..hi])
    requires 0 < m as int < 1_000_000_000_000_000_000
    ensures acc as int == Val(s[lo..hi]) % m as int
  {
    acc := 0;
    for i := lo to hi
      invariant 0 <= acc < m
      invariant acc as int == Val(s[lo..i]) % m as int
    {
      ghost var v := Val(s[lo..i]);
      var d := DigitOf(s[i]);
      assert d <= 9 by {
        assert IsDigit(s[lo..hi][i - lo]);
      }
      acc := acc * 2;
      if acc >= m {
        acc := acc - m;
      }
      ModStep(v, acc as int, m as int, d);
      acc := acc * 5 + d as int64;
      while acc >= m
        invariant 0 <= acc
        invariant acc as int % m as int == (10 * v + d) % m as int
      {
        ModMinus(acc as int, m as int);
        acc := acc - m;
      }
      DivModUnique(acc as int, m as int, 0, acc as int);
      ValStep(s, lo, i);
    }
  }

  /** The do-while loop that writes `res` right to left into `buffer[20]`,
      then the '-' of a negative dividend. */
  method WriteRemainder(n: int64, negative: bool) returns (t: string)
    requires 0 <= n as int < 1_000_000_000_000_000_000
    ensures t == (if negative then "-" else "") + DecimalText(n as int)
  {
    var acc := n;
    Below18(n as int);
    DecimalTextShort(n as int, 18);
    DecimalLast(n as int);
    var buffer := new char[20];
    var curPos := 20;
    WriteBefore(buffer, curPos, CharOf((acc % 10) as int));
    curPos := curPos - 1;
    acc := acc / 10;
    while acc > 0
      invariant 2 <= curPos <= 19 && 0 <= acc
      invariant Pending(acc as int) + buffer[curPos..] == DecimalText(n as int)
    {
      ghost var tail := buffer[curPos..];
      assert |Pending(acc as int)| + |tail| <= 18;
      PendingStep(acc as int, tail, n as int);
      WriteBefore(buffer, curPos, CharOf((acc % 10) as int));
      curPos := curPos - 1;
      acc := acc / 10;
    }
    assert buffer[curPos..] == DecimalText(n as int);
    if negative {
      WriteBefore(buffer, curPos, '-');
      curPos := curPos - 1;
    }
    t := buffer[curPos..];
  }

  /** `buffer[--cur_pos] = c`: the text from the new position on is `c`
      followed by the text before the write. */
  method WriteBefore(buffer: array<char>, pos: nat, c: char)
    requires 0 < pos <= buffer.Length
    modifies buffer
    ensures buffer[pos - 1..] == [c] + old(buffer[pos..])
  {
    ghost var tail := buffer[pos..];
    buffer[pos - 1] := c;
    assert buffer[pos..] == tail;
  }

  /** Writing the last pending digit moves it from the pending number to the
      written text. */
  lemma PendingStep(a: nat, tail: string, n: nat)
    requires a > 0 && Pending(a) + tail == DecimalText(n)
    ensures Pending(a / 10) + ([CharOf(a % 10)] + tail) == DecimalText(n)
  {
    DecimalLast(a);
    assert Pending(a / 10) + ([CharOf(a % 10)] + tail) == (Pending(a / 10) + [CharOf(a % 10)]) + tail;
  }

  lemma Below18(n: int)
    requires n < 1_000_000_000_000_000_000
    ensures n < Pow10(18)
  {
    Pow18();
  }

  lemma Pow18()
    ensures Pow10(18) == 1_000_000_000_000_000_000
  {
    assert Pow10(6) == 1_000_000;
    Pow10Add(6, 6);
    Pow10Add(12, 6);
  }

  /** A divisor of at most 18 digits is below `10^18`, so it fits in 64 bits. */
  lemma DivisorBelow(M: seq<char>)
    requires |M| <= 18 && AllDigits(M)
    ensures Val(M) < 1_000_000_000_000_000_000
  {
    ValBounds(M);
    Pow10Mono(|M|, 18);
    Pow18();
  }

  /** One digit of the `bcmod` loop: doubling (less `mod` when that reaches
      it), then five times plus the digit, keeps the residue of ten times the
      prefix plus the digit. */
  lemma ModStep(v: int, acc: int, m: int, d: int)
    requires m > 0 && v >= 0 && 0 <= (v % m) * 2 < 2 * m
    requires acc == (if 2 * (v % m) >= m then 2 * (v % m) - m else 2 * (v % m))
    ensures (5 * acc + d) % m == (10 * v + d) % m
  {
    var q, r := v / m, v % m;
    var f := if 2 * r >= m then 1 else 0;
    assert acc == 2 * r - m * f;
    var k, e := (5 * acc + d) / m, (5 * acc + d) % m;
    assert 5 * acc + d == m * k + e;
    assert 10 * v + d == 10 * (m * q) + 10 * r + d;
    assert 10 * v + d == m * (k + 10 * q + 5 * f) + e;
    DivModUnique(10 * v + d, m, k + 10 * q + 5 * f, e);
  }

  lemma ModMinus(a: int, m: int)
    requires 0 < m <= a
    ensures (a - m) % m == a % m
  {
    DivModUnique(a, m, (a - m) / m + 1, (a - m) % m);
  }

  /** A number below `10^k` has at most `k` decimal digits. */
  lemma {:induction false} DecimalTextShort(n: nat, k: nat)
    requires 1 <= k && n < Pow10(k)
    ensures |DecimalText(n)| <= k
  {
    if n >= 10 {
      assert Pow10(k) == 10 * Pow10(k - 1);
      DecimalTextShort(n / 10, k - 1);
    }
  }

  /** The last digit of a decimal text, and the digits before it. */
  lemma DecimalLast(n: nat)
    ensures DecimalText(n) == Pending(n / 10) + [CharOf(n % 10)]
  {
  }

  /** The body of `bcround` once the operand has parsed: `bc_round` in
      `round_last` mode on the shifted copy. */
  method RoundCopy(s: string, d: Desc, scale: nat) returns (t: string)
    requires Parse(s) == Some(d)
    ensures Spans(s, d) && t == RoundText(d.sign, IntDigits(s, d), FracDigits(s, d), scale, true)
  {
    var buf := ShiftedCopy(s, d.lint);
    CopiedFrame(buf[..], s, d);
    t := BcRoundHalfUp(buf, d.lint + 1, d.ldot + 1, d.lfrac + 1, d.lscale, scale, d.sign, IntDigits(s, d), FracDigits(s, d));
  }

  /** The buffer `bcround` builds: `|s| + 1` '0's with `s[lint..]` copied one
      place to the right, followed by a terminator. */
  method ShiftedCopy(s: string, lint: nat) returns (buf: array<char>)
    requires lint <= |s|
    ensures fresh(buf) && buf.Length == |s| + 2 && buf[|s| + 1] == '\0'
    ensures forall k :: 0 <= k <= lint ==> buf[k] == '0'
    ensures forall k :: lint < k <= |s| ==> buf[k] == s[k - 1]
  {
    var len := |s|;
    buf := new char[len + 2](_ => '0');
    buf[len + 1] := '\0';
    var i := len;
    while i > lint
      invariant lint <= i <= len
      invariant buf[len + 1] == '\0'
      invariant forall k :: 0 <= k <= i ==> buf[k] == '0'
      invariant forall k :: i < k <= len ==> buf[k] == s[k - 1]
    {
      i := i - 1;
      buf[i + 1] := s[i];
    }
  }

  /** The buffer `bcround` hands to `bc_round`: '0's up to the integer digits,
      the operand from there on shifted one place right, and a terminator. */
  lemma CopiedFrame(b: seq<char>, s: string, d: Desc)
    requires Parse(s) == Some(d)
    requires |b| == |s| + 2 && b[|s| + 1] == '\0'
    requires forall k :: 0 <= k <= d.lint ==> b[k] == '0'
    requires forall k :: d.lint < k <= |s| ==> b[k] == s[k - 1]
    ensures Frame(b, d.lint + 1, d.ldot + 1, d.lfrac + 1, d.lscale)
    ensures b[d.lint + 1..d.ldot + 1] == IntDigits(s, d)
    ensures b[d.lfrac + 1..d.lfrac + 1 + d.lscale] == FracDigits(s, d)
    ensures d.sign < 0 ==> d.lint + 1 >= 2
  {
    ParseSpans(s);
    ParseSign(s);
    assert b[d.lint + 1..d.ldot + 1] == IntDigits(s, d);
    assert b[d.lfrac + 1..d.lfrac + 1 + d.lscale] == FracDigits(s, d);
  }
}
