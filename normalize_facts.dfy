/** What the normaliser's output means: the kept digits are the value
    truncated (or rounded half up) to the kept places, and the padded text
    has exactly `scale` fraction digits. */
module NormalizerFacts {
  import opened Digits
  import opened Normalizer

  /** The zeros `StripLeading` drops. */
  lemma StripDropsZeros(I: seq<char>)
    ensures var J := StripLeading(I); J == I[|I| - |J|..] && AllZero(I[..|I| - |J|])
  {
    if |I| > 0 {
      var e := ZeroRunEnd(I, 0);
      assert forall i :: 0 <= i < e ==> I[..e][i] == I[i];
    }
  }

  /** Stripping leading zeros keeps the value of the digits and of any
      digits written after them. */
  lemma StripKeepsValue(I: seq<char>, K: seq<char>)
    requires AllDigits(I)
    ensures var J := StripLeading(I); AllDigits(J) && Val(J + K) == Val(I + K)
  {
    var J := StripLeading(I);
    var m := |I| - |J|;
    StripDropsZeros(I);
    assert I == I[..m] + J;
    assert I[..m] == Zeros(m);
    assert I + K == Zeros(m) + (J + K);
    ValLeadingZeros(m, J + K);
    AllDigitsSuffix(I, m);
  }

  /** Stripped digit strings are canonical: two of them with one value are
      equal, so digit strings of one value strip alike. */
  lemma StripByValue(a: seq<char>, b: seq<char>)
    requires AllDigits(a) && AllDigits(b) && |a| >= 1 && |b| >= 1 && Val(a) == Val(b)
    ensures StripLeading(a) == StripLeading(b)
  {
    var ja, jb := StripLeading(a), StripLeading(b);
    StripKeepsValue(a, []);
    StripKeepsValue(b, []);
    assert a + [] == a && b + [] == b && ja + [] == ja && jb + [] == jb;
    if |ja| < |jb| {
      LongerCanonicalIsLarger(ja, jb);
    } else if |jb| < |ja| {
      LongerCanonicalIsLarger(jb, ja);
    } else {
      ValInjective(ja, jb);
    }
  }

  lemma LongerCanonicalIsLarger(a: seq<char>, b: seq<char>)
    requires AllDigits(a) && AllDigits(b) && 1 <= |a| < |b| && b[0] != '0'
    ensures Val(a) < Val(b)
  {
    ValBounds(a);
    LeadingDigitBound(b);
    Pow10Mono(|a|, |b| - 1);
  }

  /** Truncation: the kept digits spell the value of all the digits divided by
      ten to the number of dropped fraction digits, rounded toward zero. */
  lemma TruncValue(I: seq<char>, F: seq<char>, scale: nat)
    requires AllDigits(I) && AllDigits(F)
    ensures var K := F[..Min(|F|, scale)];
      Val(StripLeading(I) + K) == Val(I + F) / Pow10(|F| - |K|)
  {
    var K := F[..Min(|F|, scale)];
    var R := F[|K|..];
    assert I + F == (I + K) + R;
    AllDigitsSuffix(F, |K|);
    ValSplitDiv(I + K, R);
    StripKeepsValue(I, K);
  }

  /** With padding, the text carries exactly `scale` fraction digits: the kept
      ones followed by zeros. */
  lemma RenderPadded(neg: bool, J: seq<char>, K: seq<char>, scale: nat)
    requires |K| <= scale
    ensures Render(neg, J, K, scale, true)
         == (if neg then "-" else "") + J + (if scale > 0 then "." + (K + Zeros(scale - |K|)) else "")
  {
    if |K| == 0 && scale > 0 {
      assert K + Zeros(scale) == Zeros(scale);
    }
  }

  /** Padding makes trailing zero fraction digits irrelevant: the kernels that
      skip writing them get the text they would have got with them. */
  lemma TruncIgnoresTrailingZeros(sign: int, I: seq<char>, F: seq<char>, w: nat, scale: nat)
    requires w <= |F| && AllZero(F[w..])
    ensures TruncText(sign, I, F[..w], scale, true) == TruncText(sign, I, F, scale, true)
  {
    var J := StripLeading(I);
    var F1 := F[..w];
    var K1, K2 := F1[..Min(|F1|, scale)], F[..Min(|F|, scale)];
    assert AllZero(F1) <==> AllZero(F) by {
      if AllZero(F1) {
        forall i | 0 <= i < |F| ensures F[i] == '0' {
          if i >= w {
            assert F[i] == F[w..][i - w];
          } else {
            assert F[i] == F1[i];
          }
        }
      }
    }
    var neg := KeepsMinus(sign, J, F);
    assert KeepsMinus(sign, J, F1) == neg;
    assert TruncText(sign, I, F1, scale, true) == Render(neg, J, K1, scale, true);
    assert TruncText(sign, I, F, scale, true) == Render(neg, J, K2, scale, true);
    RenderPadded(neg, J, K1, scale);
    RenderPadded(neg, J, K2, scale);
    assert K1 + Zeros(scale - |K1|) == K2 + Zeros(scale - |K2|) by {
      var x, y := K1 + Zeros(scale - |K1|), K2 + Zeros(scale - |K2|);
      forall i | 0 <= i < scale ensures x[i] == y[i] {
        if i < |K1| {
          assert x[i] == F[i] && y[i] == F[i];
        } else if i < |K2| {
          assert x[i] == '0' && y[i] == F[i] == F[w..][i - w];
        }
      }
    }
  }

  // ---------------------------------------------------------------- half-up mode

  lemma TrimDropsZeros(K: seq<char>)
    ensures var T := TrimTrailing(K); AllZero(K[|T|..])
  {
    var T := TrimTrailing(K);
    assert forall i :: 0 <= i < |K| - |T| ==> K[|T|..][i] == K[|T| + i];
  }

  /** Trailing zeros carry no value beyond their weight, whatever digits `J`
      stand before them. */
  lemma TrimValue(J: seq<char>, K: seq<char>)
    ensures var T := TrimTrailing(K);
      AllZero(K[|T|..]) && Val(J + K) == Val(J + T) * Pow10(|K| - |T|)
  {
    var T := TrimTrailing(K);
    var Z := K[|T|..];
    TrimDropsZeros(K);
    assert J + K == (J + T) + Z;
    ValAppend(J + T, Z);
    ValAllZero(Z);
  }

  /** The walk back only passes nines, and only when the first dropped digit
      rounds up. */
  lemma {:induction false} WalkBackFacts(F: seq<char>, s: nat)
    requires s < |F|
    ensures var t := WalkBack(F, s);
      && (forall k :: t <= k < s ==> F[k] == '9')
      && (t < s ==> F[s] >= '5')
      && (F[t] < '5' ==> t == s)
      && (F[t] >= '5' <==> F[s] >= '5')
  {
    if s > 0 && F[s - 1] == '9' && F[s] >= '5' {
      WalkBackFacts(F, s - 1);
    }
  }

  /** The kept digits spell the truncated value plus one unit in the last kept
      place when the first dropped digit is '5' or more. */
  lemma KeptValue(J: seq<char>, F: seq<char>, t: nat)
    requires AllDigits(J) && AllDigits(F) && t < |F|
    requires F[t] >= '5' && t > 0 ==> F[t - 1] != '9'
    ensures var k := Kept(J, F, t);
      Val(k.0 + k.1) == Val(J + F[..t]) + (if F[t] >= '5' then 1 else 0)
  {
    if F[t] >= '5' {
      if t == 0 {
        IncDigitsValue(J);
        assert J + F[..0] == J && IncDigits(J) + [] == IncDigits(J);
      } else {
        var c := F[t - 1];
        assert J + F[..t] == (J + F[..t - 1]) + [c];
        assert J + Bump(F, t) == (J + F[..t - 1]) + [Succ(c)];
        ValAppend(J + F[..t - 1], [c]);
        ValAppend(J + F[..t - 1], [Succ(c)]);
        assert [c][..0] == [] && [Succ(c)][..0] == [];
      }
    }
  }

  /** Half-up rounding of `J.F` to `scale` fraction digits: the kept digits,
      scaled back to `scale` places, spell the digits up to the last kept place
      plus one when the first dropped digit is '5' or more; with no more than
      `scale` digits nothing is dropped and only trailing zeros go. */
  lemma RoundValue(J: seq<char>, F: seq<char>, scale: nat)
    requires AllDigits(J) && AllDigits(F)
    ensures var p := RoundParts(J, F, scale);
      && (|F| > scale ==>
            Val(p.0 + p.1) * Pow10(scale - |p.1|) == Val(J + F[..scale]) + (if F[scale] >= '5' then 1 else 0))
      && (|F| <= scale ==> p.0 == J && p.2 == scale && Val(p.0 + p.1) * Pow10(|F| - |p.1|) == Val(J + F))
  {
    if |F| > scale {
      RoundDropping(J, F, scale);
    } else {
      var p := RoundParts(J, F, scale);
      assert p == (J, TrimTrailing(F), scale);
      TrimValue(J, F);
    }
  }

  lemma RoundDropping(J: seq<char>, F: seq<char>, scale: nat)
    requires AllDigits(J) && AllDigits(F) && |F| > scale
    ensures var p := RoundParts(J, F, scale);
      Val(p.0 + p.1) * Pow10(scale - |p.1|) == Val(J + F[..scale]) + (if F[scale] >= '5' then 1 else 0)
  {
    WalkBackStopsOnDigit(F, scale);
    WalkBackFacts(F, scale);
    var t := WalkBack(F, scale);
    var p := RoundAt(J, F, t);
    assert RoundParts(J, F, scale) == p;
    RoundAtValue(J, F, t);
    RoundAfterWalk(J, F, scale, t, Val(p.0 + p.1), |p.1|);
  }

  /** `RoundDropping` once the walk back has settled on `t`, for kept digits
      of value `A` with `m` fraction digits: the digits from `t` to `scale`
      are nines, passed only when rounding up. */
  lemma RoundAfterWalk(J: seq<char>, F: seq<char>, scale: nat, t: nat, A: nat, m: nat)
    requires AllDigits(J) && AllDigits(F) && m <= t <= scale < |F|
    requires forall k :: t <= k < scale ==> F[k] == '9'
    requires (F[t] >= '5' <==> F[scale] >= '5') && (F[t] < '5' ==> t == scale)
    requires A * Pow10(t - m) == Val(J + F[..t]) + (if F[t] >= '5' then 1 else 0)
    ensures A * Pow10(scale - m) == Val(J + F[..scale]) + (if F[scale] >= '5' then 1 else 0)
  {
    var vN := NinesAfter(J, F, t, scale);
    RoundCombine(A, t - m, scale - t, scale - m, Val(J + F[..t]), Val(J + F[..scale]), vN,
                 if F[t] >= '5' then 1 else 0);
  }

  /** The value step of `RoundDropping`, on plain numbers: the kept value
      scaled to `a` places, then past the `b` nines of the walk back. */
  lemma RoundCombine(A: int, a: nat, b: nat, n: nat, Vt: int, Vs: int, vN: int, c: int)
    requires A * Pow10(a) == Vt + c && (c == 0 || c == 1) && (c == 0 ==> b == 0)
    requires Vs == Vt * Pow10(b) + vN && vN + 1 == Pow10(b) && n == a + b
    ensures A * Pow10(n) == Vs + c
  {
    Pow10Add(a, b);
    RoundArith(A, Pow10(a), Pow10(b), Vt, vN, c);
  }

  /** Rounding at `t` kept digits: the kept digits, scaled back to `t`
      places, are the first `t` digits plus the rounding unit. */
  lemma RoundAtValue(J: seq<char>, F: seq<char>, t: nat)
    requires AllDigits(J) && AllDigits(F) && t < |F|
    requires F[t] >= '5' && t > 0 ==> F[t - 1] != '9'
    ensures var p := RoundAt(J, F, t);
      Val(p.0 + p.1) * Pow10(t - |p.1|) == Val(J + F[..t]) + (if F[t] >= '5' then 1 else 0)
  {
    var k := Kept(J, F, t);
    KeptValue(J, F, t);
    TrimValue(k.0, k.1);
  }

  /** The digits the walk back passed over are nines: they extend the kept
      value by one less than a power of ten. */
  lemma NinesAfter(J: seq<char>, F: seq<char>, t: nat, scale: nat) returns (vN: nat)
    requires t <= scale < |F| && forall k :: t <= k < scale ==> F[k] == '9'
    ensures vN + 1 == Pow10(scale - t)
    ensures Val(J + F[..scale]) == Val(J + F[..t]) * Pow10(scale - t) + vN
  {
    var N := F[t..scale];
    assert forall i :: 0 <= i < |N| ==> N[i] == F[t + i];
    ValNines(N);
    assert J + F[..scale] == (J + F[..t]) + N;
    ValAppend(J + F[..t], N);
    vN := Val(N);
  }

  /** The arithmetic of a carry through nines: a value `Vt + c` scaled by
      `Q = vN + 1` is the value followed by the nines `vN`, plus `c`. */
  lemma RoundArith(A: int, Pe: int, Q: int, Vt: int, vN: int, c: int)
    requires A * Pe == Vt + c && (c == 0 || c == 1) && vN + 1 == Q && (c == 0 ==> Q == 1)
    ensures A * (Pe * Q) == Vt * Q + vN + c
  {
    calc {
      A * (Pe * Q);
      (A * Pe) * Q;
      (Vt + c) * Q;
      Vt * Q + c * Q;
    }
  }

  /** A negative numeral with one non-zero integer digit and one fraction
      digit, padded to `scale` places. */
  lemma OneDigitEach(I: seq<char>, F: seq<char>, scale: nat)
    requires |I| == 1 && I[0] != '0' && |F| == 1 && scale >= 1
    ensures TruncText(-1, I, F, scale, true) == "-" + I + ("." + F) + Zeros(scale - 1)
  {
    OneDigitKept(I, F, scale);
    OneFractionDigit(I, F, scale);
  }

  lemma OneDigitKept(I: seq<char>, F: seq<char>, scale: nat)
    requires |I| == 1 && I[0] != '0' && |F| == 1 && scale >= 1
    ensures TruncText(-1, I, F, scale, true) == Render(true, I, F, scale, true)
  {
    var J := StripLeading(I);
    assert J == I by {
      assert !(|I| >= 2);
    }
    assert F[..Min(|F|, scale)] == F;
    assert KeepsMinus(-1, J, F) by {
      assert J[0] != '0';
    }
  }

  lemma OneFractionDigit(I: seq<char>, F: seq<char>, scale: nat)
    requires |F| == 1 && scale >= 1
    ensures Render(true, I, F, scale, true) == "-" + I + ("." + F) + Zeros(scale - 1)
  {
  }

  // ---------------------------------------------------------------- bc_zero

  /** `bc_zero`: zero written with `scale` fraction digits. */
  function BcZero(scale: nat): string {
    if scale == 0 then "0" else "0." + Zeros(scale)
  }

  lemma StripZeros(W: nat)
    requires W >= 1
    ensures StripLeading(Zeros(W)) == "0"
  {
    var e := ZeroRunEnd(Zeros(W), 0);
    assert e == W - 1;
  }

  /** `bc_zero(scale)` is what the normaliser makes of an all-zero numeral of
      any width, sign and padding mode with `scale` fraction digits. */
  lemma BcZeroIsZero(sign: int, W: nat, scale: nat, pad: bool)
    requires W >= 1
    ensures BcZero(scale) == TruncText(sign, Zeros(W), Zeros(scale), scale, pad)
  {
    TruncOfZeros(sign, W, scale, pad);
    RenderZero(scale, pad);
  }

  lemma TruncOfZeros(sign: int, W: nat, scale: nat, pad: bool)
    requires W >= 1
    ensures TruncText(sign, Zeros(W), Zeros(scale), scale, pad) == Render(false, "0", Zeros(scale), scale, pad)
  {
    StripZeros(W);
    assert !KeepsMinus(sign, "0", Zeros(scale));
    assert Zeros(scale)[..Min(scale, scale)] == Zeros(scale);
  }

  lemma RenderZero(scale: nat, pad: bool)
    ensures Render(false, "0", Zeros(scale), scale, pad) == BcZero(scale)
  {
    assert Padding(scale, scale, pad) == [];
    if scale == 0 {
      assert Render(false, "0", Zeros(scale), scale, pad) == "" + "0" + "" + [];
    } else {
      assert Render(false, "0", Zeros(scale), scale, pad) == "" + "0" + ("." + Zeros(scale)) + [];
    }
  }
}
