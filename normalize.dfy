/** The normaliser `bc_round`: given the integer digits `I` and fraction digits
    `F` a kernel (or `bcround`) left in a buffer, it strips leading zeros,
    settles the sign, truncates the fraction to `scale` digits or rounds it half
    up, and pads it with zeros. This module states what it produces as functions
    on digit strings. */
module Normalizer {
  import opened Digits

  function Min(a: int, b: int): int { if a < b then a else b }

  /** Where the run of leading zeros from position `k` ends, at least one
      digit being left after it. */
  function ZeroRunEnd(I: seq<char>, k: nat): (e: nat)
    requires k < |I|
    ensures k <= e < |I|
    ensures forall i :: k <= i < e ==> I[i] == '0'
    ensures e + 1 < |I| ==> I[e] != '0'
    decreases |I| - k
  {
    if k + 1 < |I| && I[k] == '0' then ZeroRunEnd(I, k + 1) else k
  }

  /** Leading zeros dropped, one digit kept (the first loop of `bc_round`). */
  function StripLeading(I: seq<char>): (J: seq<char>)
    ensures |J| <= |I|
    ensures |I| > 0 ==> |J| > 0
    ensures |J| >= 2 ==> J[0] != '0'
  {
    if |I| == 0 then I else I[ZeroRunEnd(I, 0)..]
  }

  /** Whether the '-' survives: a negative sign is dropped only when the
      stripped integer part is "0" and every fraction digit present (before any
      truncation) is '0'. */
  predicate KeepsMinus(sign: int, J: seq<char>, F: seq<char>) {
    sign < 0 && !(|J| > 0 && J[0] == '0' && AllZero(F))
  }

  /** The zeros (and the '.', when no fraction digit was kept) that bring a
      fraction of `k` digits up to `scale` digits, when padding is asked for. */
  function Padding(k: nat, scale: nat, pad: bool): seq<char>
    requires k <= scale
  {
    if k == scale || !pad then [] else (if k == 0 then "." else "") + Zeros(scale - k)
  }

  /** The text `bc_round` returns for a sign, kept integer digits `J` and kept
      fraction digits `K`. */
  function Render(neg: bool, J: seq<char>, K: seq<char>, scale: nat, pad: bool): string
    requires |K| <= scale
  {
    (if neg then "-" else "") + J + (if |K| > 0 then "." + K else "") + Padding(|K|, scale, pad)
  }

  /** Truncating mode: the fraction is cut to `min(|F|, scale)` digits. */
  function TruncText(sign: int, I: seq<char>, F: seq<char>, scale: nat, pad: bool): string {
    var J := StripLeading(I);
    Render(KeepsMinus(sign, J, F), J, F[..Min(|F|, scale)], scale, pad)
  }

  // ---------------------------------------------------------------- half-up mode

  /** The walk back over 9s: while the kept digit before position `s` is '9'
      and the digit at `s` is at least '5', one fewer digit is kept. */
  function WalkBack(F: seq<char>, s: nat): (t: nat)
    requires s < |F|
    ensures t <= s
  {
    if s > 0 && F[s - 1] == '9' && F[s] >= '5' then WalkBack(F, s - 1) else s
  }

  /** The next digit character (`c++` on a digit other than '9'). */
  function Succ(c: char): (d: char)
    requires IsDigit(c) && c != '9'
    ensures IsDigit(d) && DigitOf(d) == DigitOf(c) + 1
  {
    (c as int + 1) as char
  }

  /** A digit string plus one, the carry running through trailing 9s and
      possibly into a new leading '1'. */
  function IncDigits(J: seq<char>): (R: seq<char>)
    requires AllDigits(J)
    ensures AllDigits(R) && |J| <= |R| <= |J| + 1
  {
    if |J| == 0 then "1"
    else
      var p := J[..|J| - 1];
      var c := J[|J| - 1];
      if c == '9' then
        var R := IncDigits(p) + "0";
        assert R[..|R| - 1] == IncDigits(p);
        R
      else
        var R := p + [Succ(c)];
        assert R[..|R| - 1] == p;
        R
  }

  /** `IncDigits` adds one. */
  lemma {:induction false} IncDigitsValue(J: seq<char>)
    requires AllDigits(J)
    ensures Val(IncDigits(J)) == Val(J) + 1
  {
    if |J| > 0 {
      var p := J[..|J| - 1];
      var R := IncDigits(J);
      assert R[..|R| - 1] == (if J[|J| - 1] == '9' then IncDigits(p) else p);
      if J[|J| - 1] == '9' {
        IncDigitsValue(p);
      }
    }
  }

  /** Where the run of trailing zeros before position `e` starts. */
  function ZeroTailStart(K: seq<char>, e: nat): (b: nat)
    requires e <= |K|
    ensures b <= e
    ensures forall i :: b <= i < e ==> K[i] == '0'
    ensures b > 0 ==> K[b - 1] != '0'
  {
    if e > 0 && K[e - 1] == '0' then ZeroTailStart(K, e - 1) else e
  }

  /** Trailing '0' fraction digits dropped (the last loop of the rounding
      branch). */
  function TrimTrailing(K: seq<char>): (T: seq<char>)
    ensures |T| <= |K| && T == K[..|T|]
    ensures |T| > 0 ==> T[|T| - 1] != '0'
  {
    K[..ZeroTailStart(K, |K|)]
  }

  /** Half-up mode (`round_last`) on stripped integer digits `J`: the integer
      digits, fraction digits and scale the text is rendered with. With more
      than `scale` fraction digits the kept digits are rounded half up, `scale`
      being lowered by the walk back over 9s; trailing zeros are then dropped. */
  function RoundParts(J: seq<char>, F: seq<char>, scale: nat): (p: (seq<char>, seq<char>, nat))
    requires AllDigits(J) && AllDigits(F)
    ensures AllDigits(p.0) && AllDigits(p.1) && |p.1| <= p.2 <= scale
  {
    if |F| > scale then
      WalkBackStopsOnDigit(F, scale);
      RoundAt(J, F, WalkBack(F, scale))
    else (J, TrimTrailing(F), scale)
  }

  /** Rounding once the walk back has settled on keeping `t` digits. */
  function RoundAt(J: seq<char>, F: seq<char>, t: nat): (p: (seq<char>, seq<char>, nat))
    requires AllDigits(J) && AllDigits(F) && t < |F|
    requires F[t] >= '5' && t > 0 ==> F[t - 1] != '9'
    ensures AllDigits(p.0) && AllDigits(p.1) && |p.1| <= p.2 == t
  {
    var k := Kept(J, F, t);
    (k.0, TrimTrailing(k.1), t)
  }

  /** The integer and fraction digits kept before trailing zeros go: the first
      dropped digit decides between truncation, raising the last kept fraction
      digit, and a carry into the integer digits when no fraction digit is
      kept. */
  function Kept(J: seq<char>, F: seq<char>, t: nat): (k: (seq<char>, seq<char>))
    requires AllDigits(J) && AllDigits(F) && t < |F|
    requires F[t] >= '5' && t > 0 ==> F[t - 1] != '9'
    ensures AllDigits(k.0) && AllDigits(k.1) && |k.1| == t
  {
    if F[t] < '5' then (J, F[..t])
    else if t == 0 then (IncDigits(J), [])
    else (J, Bump(F, t))
  }

  /** The first `t` digits with the last one raised by one. */
  function Bump(F: seq<char>, t: nat): (K: seq<char>)
    requires AllDigits(F) && 0 < t <= |F| && F[t - 1] != '9'
    ensures |K| == t && AllDigits(K)
  {
    var K := F[..t - 1] + [Succ(F[t - 1])];
    assert forall k :: 0 <= k < t - 1 ==> K[k] == F[k];
    K
  }

  /** Half-up mode: the text `bcround` gets back. */
  function RoundText(sign: int, I: seq<char>, F: seq<char>, scale: nat, pad: bool): string
    requires AllDigits(I) && AllDigits(F)
  {
    var J := StripLeading(I);
    AllDigitsSuffix(I, |I| - |J|);
    var p := RoundParts(J, F, scale);
    Render(KeepsMinus(sign, J, F), p.0, p.1, p.2, pad)
  }

  lemma AllDigitsSuffix(s: seq<char>, i: nat)
    requires AllDigits(s) && i <= |s|
    ensures AllDigits(s[i..])
  {
    assert forall k :: 0 <= k < |s| - i ==> s[i..][k] == s[i + k];
  }

  /** The walk back stops before a '9' whenever the digit it stops at rounds
      up. */
  lemma {:induction false} WalkBackStopsOnDigit(F: seq<char>, s: nat)
    requires s < |F| && AllDigits(F)
    ensures var t := WalkBack(F, s);
      F[t] >= '5' && t > 0 ==> IsDigit(F[t - 1]) && F[t - 1] != '9'
  {
    if s > 0 && F[s - 1] == '9' && F[s] >= '5' {
      WalkBackStopsOnDigit(F, s - 1);
    }
  }
}
