/** `bc_round` as written: it edits a character buffer in place (moving its
    start index, writing the rounded digit, the carry and the '-') and returns a
    substring of it, padded with zeros. */
module RoundBuffer {
  import opened Digits
  import opened Normalizer

  /** The layout every caller leaves in the buffer: a non-empty prefix before
      the integer digits `b[lint..ldot)` (room for a '-'), the fraction digits
      `b[lfrac..lfrac + lscale)` after a '.' at `ldot` when there are any, and a
      terminator slot after them. The character at `ldot` is never '0' when the
      integer span is empty (it is the '.' or the terminator). */
  predicate Frame(b: seq<char>, lint: nat, ldot: nat, lfrac: nat, lscale: nat) {
    && 1 <= lint <= ldot <= lfrac
    && lfrac + lscale < |b|
    && (lfrac == ldot || (lfrac == ldot + 1 && b[ldot] == '.'))
    && (lscale > 0 ==> lfrac == ldot + 1)
    && AllDigits(b[lint..ldot])
    && AllDigits(b[lfrac..lfrac + lscale])
    && (lint == ldot ==> b[ldot] != '0')
  }

  /** The integer digits, fraction digits and scale the text is rendered
      with: truncation to `scale` digits, or the half-up rounding. */
  function Settled(J: seq<char>, F: seq<char>, scale: nat, roundLast: bool): (p: (seq<char>, seq<char>, nat))
    requires AllDigits(J) && AllDigits(F)
    ensures |p.1| <= p.2
  {
    if roundLast then RoundParts(J, F, scale) else (J, F[..Min(|F|, scale)], scale)
  }

  /** `bc_round`: the returned text is `TruncText` (or, in `round_last` mode,
      `RoundText`) of the integer and fraction digits the buffer held. */
  method BcRound(buf: array<char>, lint0: nat, ldot: nat, lfrac0: nat, lscale0: nat, scale: nat,
                 sign0: int, pad: bool, roundLast: bool) returns (r: string)
    requires Frame(buf[..], lint0, ldot, lfrac0, lscale0)
    requires roundLast && sign0 < 0 ==> lint0 >= 2
    modifies buf
    ensures AllDigits(old(buf[lint0..ldot])) && AllDigits(old(buf[lfrac0..lfrac0 + lscale0]))
    ensures r == if roundLast then RoundText(sign0, old(buf[lint0..ldot]), old(buf[lfrac0..lfrac0 + lscale0]), scale, pad)
                 else TruncText(sign0, old(buf[lint0..ldot]), old(buf[lfrac0..lfrac0 + lscale0]), scale, pad)
  {
    ghost var I, F := buf[lint0..ldot], buf[lfrac0..lfrac0 + lscale0];
    var lint := SkipLeadingZeros(buf, lint0, ldot);
    var sign := SettleSign(buf, lint, ldot, lfrac0, lscale0, sign0);
    ghost var J := buf[lint..ldot];
    AllDigitsSuffix(I, |I| - |J|);
    ghost var p := Settled(J, F, scale, roundLast);

    var lfrac, lscale, sc;
    lint, lfrac, lscale, sc := KeepDigits(buf, lint, ldot, lfrac0, lscale0, scale, roundLast);
    r := Emit(buf, lint, ldot, lfrac, lscale, sc, sign < 0, pad);
    assert r == Render(KeepsMinus(sign0, J, F), p.0, p.1, p.2, pad);
  }

  /** `bc_round` as `bcround` calls it: half-up rounding with zero padding,
      stated over the digit spans the buffer holds on entry. */
  method BcRoundHalfUp(buf: array<char>, lint0: nat, ldot: nat, lfrac0: nat, lscale0: nat, scale: nat,
                       sign0: int, ghost I: seq<char>, ghost F: seq<char>) returns (r: string)
    requires Frame(buf[..], lint0, ldot, lfrac0, lscale0)
    requires sign0 < 0 ==> lint0 >= 2
    requires buf[lint0..ldot] == I && buf[lfrac0..lfrac0 + lscale0] == F
    modifies buf
    ensures AllDigits(I) && AllDigits(F)
    ensures r == RoundText(sign0, I, F, scale, true)
  {
    r := BcRound(buf, lint0, ldot, lfrac0, lscale0, scale, sign0, true, true);
  }

  /** The digits kept: either the fraction cut to `scale` digits or the
      `round_last` block; a '.' with no digit after it is dropped. */
  method KeepDigits(buf: array<char>, lint: nat, ldot: nat, lfrac: nat, lscale: nat, scale: nat, roundLast: bool)
    returns (lint2: nat, lfrac2: nat, lscale2: nat, sc2: nat)
    requires Frame(buf[..], lint, ldot, lfrac, lscale)
    modifies buf
    ensures var p := Settled(old(buf[lint..ldot]), old(buf[lfrac..lfrac + lscale]), scale, roundLast);
      && (if roundLast then lint - 1 else lint) <= lint2 <= ldot
      && buf[lint2..ldot] == p.0 && lscale2 == |p.1| && sc2 == p.2
      && lfrac2 == ldot + (if lscale2 > 0 then 1 else 0) && lfrac2 + lscale2 < buf.Length
      && (lscale2 > 0 ==> buf[ldot] == '.' && buf[lfrac2..lfrac2 + lscale2] == p.1)
  {
    ghost var F := buf[lfrac..lfrac + lscale];
    if roundLast {
      lint2, lfrac2, lscale2, sc2 := RoundLast(buf, lint, ldot, lfrac, lscale, scale);
    } else {
      lint2, lfrac2, lscale2, sc2 := lint, lfrac, lscale, scale;
      if lscale2 > sc2 {
        lscale2 := sc2;
      }
      assert buf[lfrac..lfrac + lscale2] == F[..lscale2];
    }
    if lscale2 == 0 && lfrac2 > ldot {
      lfrac2 := lfrac2 - 1;
    }
  }

  /** The tail of `bc_round`: the '-' written before the integer digits, the
      substring taken, and the padding with zeros up to `sc` digits. */
  method Emit(buf: array<char>, lint: nat, ldot: nat, lfrac: nat, lscale: nat, sc: nat, neg: bool, pad: bool)
    returns (r: string)
    requires lscale <= sc && lint <= ldot && (neg ==> lint >= 1)
    requires lfrac == ldot + (if lscale > 0 then 1 else 0) && lfrac + lscale <= buf.Length
    requires lscale > 0 ==> buf[ldot] == '.'
    modifies buf
    ensures r == Render(neg, old(buf[lint..ldot]), old(buf[lfrac..lfrac + lscale]), sc, pad)
  {
    ghost var J, K := buf[lint..ldot], buf[lfrac..lfrac + lscale];
    var start := lint;
    if neg {
      start := lint - 1;
      buf[start] := '-';
    }
    assert buf[lint..ldot] == J && buf[lfrac..lfrac + lscale] == K;
    r := buf[start..lfrac + lscale];
    BodySlices(buf[..], start, ldot, lscale, neg, J, K);
    var tail := "";
    if !(lscale == sc || !pad) {
      if lscale == 0 {
        tail := ".";
      }
      tail := AppendZeros(tail, sc - lscale);
      assert tail == Padding(lscale, sc, pad);
    }
    r := r + tail;
  }

  /** The loop moving `lint` past leading zeros, one digit kept. */
  method SkipLeadingZeros(buf: array<char>, lint0: nat, ldot: nat) returns (lint: nat)
    requires lint0 <= ldot < buf.Length && AllDigits(buf[lint0..ldot])
    ensures lint0 <= lint <= ldot && buf[lint..ldot] == StripLeading(buf[lint0..ldot])
  {
    ghost var I := buf[lint0..ldot];
    lint := lint0;
    if lint0 == ldot {
      return;
    }
    while buf[lint] == '0' && lint + 1 < ldot
      invariant lint0 <= lint < ldot
      invariant ZeroRunEnd(I, lint - lint0) == ZeroRunEnd(I, 0)
    {
      assert I[lint - lint0] == buf[lint];
      lint := lint + 1;
    }
    assert I[lint - lint0] == buf[lint];
    assert buf[lint..ldot] == I[lint - lint0..];
  }

  /** The sign decision: a negative sign is dropped when the integer digits
      (already stripped) start with '0' and the scan finds no fraction digit
      other than '0'. */
  method SettleSign(buf: array<char>, lint: nat, ldot: nat, lfrac: nat, lscale: nat, sign0: int)
    returns (sign: int)
    requires lint <= ldot < buf.Length && lfrac + lscale <= buf.Length
    requires lint == ldot ==> buf[ldot] != '0'
    ensures (sign < 0) == KeepsMinus(sign0, buf[lint..ldot], buf[lfrac..lfrac + lscale])
  {
    ghost var J, F := buf[lint..ldot], buf[lfrac..lfrac + lscale];
    sign := sign0;
    if sign < 0 && buf[lint] == '0' {
      sign := 1;
      var i := 0;
      while i < lscale
        invariant 0 <= i <= lscale
        invariant forall k :: 0 <= k < i ==> F[k] == '0'
      {
        if buf[lfrac + i] != '0' {
          sign := -1;
          break;
        }
        i := i + 1;
      }
    }
    if |J| > 0 {
      assert J[0] == buf[lint];
    }
  }

  /** The padding loop appending `n` zeros. */
  method AppendZeros(s: string, n: nat) returns (r: string)
    ensures r == s + Zeros(n)
  {
    r := s;
    var k := 0;
    while k < n
      invariant 0 <= k <= n
      invariant r == s + Zeros(k)
    {
      r := r + "0";
      k := k + 1;
    }
  }

  /** How the returned substring decomposes: the optional '-', the integer
      digits, then the '.' and fraction digits when any are kept. */
  lemma BodySlices(b: seq<char>, lint: nat, ldot: nat, lscale: nat, neg: bool, J: seq<char>, K: seq<char>)
    requires (if neg then lint + 1 else lint) <= ldot && ldot + (if lscale > 0 then 1 else 0) + lscale <= |b|
    requires b[(if neg then lint + 1 else lint)..ldot] == J
    requires neg ==> b[lint] == '-'
    requires lscale > 0 ==> b[ldot] == '.' && b[ldot + 1..ldot + 1 + lscale] == K
    ensures b[lint..ldot + (if lscale > 0 then 1 else 0) + lscale]
         == (if neg then "-" else "") + J + (if lscale > 0 then "." + K else "")
  {
    var m := if neg then lint + 1 else lint;
    var e := ldot + (if lscale > 0 then 1 else 0) + lscale;
    assert b[lint..e] == b[lint..m] + b[m..ldot] + b[ldot..e];
    if neg {
      assert b[lint..m] == "-";
    }
    if lscale > 0 {
      assert b[ldot..e] == [b[ldot]] + b[ldot + 1..e];
    }
  }

  /** The `round_last` block of `bc_round`: the walk back over 9s, the
      increment of the last kept digit or the carry into the integer digits,
      and the removal of trailing zero fraction digits. It returns the new
      `lint`, `lfrac`, `lscale` and `scale`. */
  method RoundLast(buf: array<char>, lint: nat, ldot: nat, lfrac: nat, lscale: nat, scale: nat)
    returns (lint2: nat, lfrac2: nat, lscale2: nat, scale2: nat)
    requires Frame(buf[..], lint, ldot, lfrac, lscale)
    modifies buf
    ensures var p := RoundParts(old(buf[lint..ldot]), old(buf[lfrac..lfrac + lscale]), scale);
      && lint - 1 <= lint2 <= ldot && lfrac2 <= lfrac
      && buf[lint2..ldot] == p.0 && lscale2 == |p.1| && scale2 == p.2
      && (lfrac2 == ldot || (lfrac2 == ldot + 1 && buf[ldot] == '.'))
      && (lscale2 > 0 ==> lfrac2 == ldot + 1 && buf[lfrac2..lfrac2 + lscale2] == p.1)
      && lfrac2 + lscale2 < buf.Length
  {
    ghost var J, F := buf[lint..ldot], buf[lfrac..lfrac + lscale];
    lint2, lfrac2, lscale2, scale2 := lint, lfrac, lscale, scale;
    if lscale > scale {
      lint2, lfrac2, scale2 := RoundKept(buf, lint, ldot, lfrac, lscale, scale);
      lscale2 := scale2;
    }
    ghost var K := buf[lfrac2..lfrac2 + lscale2];
    assert RoundParts(J, F, scale).1 == TrimTrailing(K);
    lscale2 := TrimZeros(buf, lfrac2, lscale2);
  }

  /** The walk back over 9s and the rounding of the last kept digit: `scale`
      becomes `t`, and the buffer holds the kept digits `Kept(J, F, t)`. */
  method RoundKept(buf: array<char>, lint: nat, ldot: nat, lfrac: nat, lscale: nat, scale: nat)
    returns (lint2: nat, lfrac2: nat, t: nat)
    requires Frame(buf[..], lint, ldot, lfrac, lscale) && scale < lscale
    modifies buf
    ensures var F := old(buf[lfrac..lfrac + lscale]);
      && t == WalkBack(F, scale)
      && (F[t] >= '5' && t > 0 ==> F[t - 1] != '9')
      && var k := Kept(old(buf[lint..ldot]), F, t);
      && lint - 1 <= lint2 <= ldot && buf[lint2..ldot] == k.0
      && (lfrac2 == ldot || (lfrac2 == ldot + 1 && buf[ldot] == '.'))
      && (t > 0 ==> lfrac2 == ldot + 1)
      && lfrac2 + t < buf.Length && buf[lfrac2..lfrac2 + t] == k.1
  {
    ghost var J, F := buf[lint..ldot], buf[lfrac..lfrac + lscale];
    lint2, lfrac2 := lint, lfrac;
    t := WalkBackOverNines(buf, lfrac, lscale, scale);
    WalkBackStopsOnDigit(F, scale);
    assert buf[lfrac + t] == F[t];
    if buf[lfrac + t] >= '5' {
      if t > 0 {
        ghost var b0 := buf[..];
        buf[lfrac + t - 1] := Succ(buf[lfrac + t - 1]);
        FractionBump(b0, buf[..], lint, ldot, lfrac, t, F);
      } else {
        lfrac2 := lfrac2 - 1;
        lint2 := CarryIntoInteger(buf, lint, ldot);
      }
    } else {
      assert buf[lfrac..lfrac + t] == F[..t];
    }
  }

  /** The walk back over 9s, as a loop lowering `scale`. */
  method WalkBackOverNines(buf: array<char>, lfrac: nat, lscale: nat, scale: nat) returns (t: nat)
    requires scale < lscale && lfrac + lscale <= buf.Length
    ensures t == WalkBack(buf[lfrac..lfrac + lscale], scale)
  {
    ghost var F := buf[lfrac..lfrac + lscale];
    t := scale;
    while t > 0 && buf[lfrac + t - 1] == '9' && buf[lfrac + t] >= '5'
      invariant t <= scale && WalkBack(F, t) == WalkBack(F, scale)
    {
      assert buf[lfrac + t - 1] == F[t - 1] && buf[lfrac + t] == F[t];
      t := t - 1;
    }
    assert t > 0 ==> buf[lfrac + t - 1] == F[t - 1];
    assert buf[lfrac + t] == F[t];
  }

  /** The loop dropping trailing '0' fraction digits. */
  method TrimZeros(buf: array<char>, lfrac: nat, lscale: nat) returns (n: nat)
    requires lfrac + lscale <= buf.Length
    ensures n <= lscale
    ensures buf[lfrac..lfrac + n] == TrimTrailing(buf[lfrac..lfrac + lscale])
  {
    ghost var K := buf[lfrac..lfrac + lscale];
    n := lscale;
    while n > 0 && buf[lfrac + n - 1] == '0'
      invariant n <= lscale
      invariant ZeroTailStart(K, n) == ZeroTailStart(K, lscale)
    {
      assert buf[lfrac + n - 1] == K[n - 1];
      n := n - 1;
    }
    assert n > 0 ==> buf[lfrac + n - 1] == K[n - 1];
    assert buf[lfrac..lfrac + n] == K[..n];
  }

  /** Raising the last kept fraction digit leaves the integer digits and the
      '.' alone and puts the raised digits in the fraction span. */
  lemma FractionBump(b0: seq<char>, b1: seq<char>, lint: nat, ldot: nat, lfrac: nat, s: nat, F: seq<char>)
    requires 0 < s <= |F| && lint <= ldot < lfrac && lfrac + |F| <= |b0| && b0[lfrac..lfrac + |F|] == F
    requires AllDigits(F) && F[s - 1] != '9'
    requires b1 == b0[lfrac + s - 1 := Succ(b0[lfrac + s - 1])]
    ensures b1[lint..ldot] == b0[lint..ldot] && b1[ldot] == b0[ldot]
    ensures b1[lfrac..lfrac + s] == Bump(F, s)
  {
    assert b0[lfrac + s - 1] == F[s - 1];
    assert b1[lfrac..lfrac + s - 1] == b0[lfrac..lfrac + s - 1] == F[..s - 1];
  }

  /** The carry when rounding keeps no fraction digit: the slot before the
      integer digits becomes '0', trailing 9s become 0s and the next digit goes
      up by one; the start index moves back when the carry reaches the slot. */
  method CarryIntoInteger(buf: array<char>, lint: nat, ldot: nat) returns (lint2: nat)
    requires 1 <= lint <= ldot < buf.Length && AllDigits(buf[lint..ldot])
    modifies buf
    ensures AllDigits(old(buf[lint..ldot]))
    ensures lint - 1 <= lint2 <= lint && buf[lint2..ldot] == IncDigits(old(buf[lint..ldot]))
    ensures forall k :: ldot <= k < buf.Length ==> buf[k] == old(buf[k])
  {
    ghost var J := buf[lint..ldot];
    buf[lint - 1] := '0';
    assert buf[lint..ldot] == J;
    var i := 0;
    while buf[ldot - i - 1] == '9'
      invariant 0 <= i <= ldot - lint
      invariant buf[lint - 1] == '0' && buf[lint..ldot - i] == J[..|J| - i]
      invariant forall k :: ldot - i <= k < ldot ==> buf[k] == '0'
      invariant forall k :: |J| - i <= k < |J| ==> J[k] == '9'
      invariant forall k :: ldot <= k < buf.Length ==> buf[k] == old(buf[k])
      decreases ldot - i
    {
      assert ldot - i - 1 >= lint;
      assert J[ldot - i - 1 - lint] == buf[ldot - i - 1];
      buf[ldot - i - 1] := '0';
      i := i + 1;
    }
    ghost var b := buf[..];
    CarryLands(b, lint, ldot, i, J);
    buf[ldot - i - 1] := Succ(buf[ldot - i - 1]);
    assert buf[..] == b[ldot - i - 1 := Succ(b[ldot - i - 1])];
    lint2 := lint;
    if ldot - i - 1 < lint2 {
      lint2 := ldot - i - 1;
    }
  }

  /** Where the carry loop stops, incrementing the digit there leaves
      `IncDigits(J)` in the buffer, from the slot before `lint` when the carry
      reached it. */
  lemma CarryLands(b: seq<char>, lint: nat, ldot: nat, i: nat, J: seq<char>)
    requires 1 <= lint <= ldot <= |b| && i <= ldot - lint && |J| == ldot - lint && AllDigits(J)
    requires b[lint - 1] == '0' && b[lint..ldot - i] == J[..|J| - i]
    requires forall k :: ldot - i <= k < ldot ==> b[k] == '0'
    requires forall k :: |J| - i <= k < |J| ==> J[k] == '9'
    requires b[ldot - i - 1] != '9'
    ensures IsDigit(b[ldot - i - 1]) && b[ldot - i - 1] != '9'
    ensures var q := ldot - i - 1;
      b[q := Succ(b[q])][if q < lint then q else lint..ldot] == IncDigits(J)
  {
    var q := ldot - i - 1;
    if q >= lint {
      var m := |J| - i - 1;
      assert b[lint..ldot - i][m] == b[q];
      assert J[..|J| - i][m] == J[m];
      IncDigitsTail(J, i);
      CarryInside(b, lint, ldot, i, J);
    } else {
      assert i == |J|;
      IncDigitsTail(J, i);
      CarryReachesSlot(b, lint, ldot, i);
    }
  }

  /** The carry stops on an integer digit `J[m]`, `m = |J| - i - 1`. */
  lemma CarryInside(b: seq<char>, lint: nat, ldot: nat, i: nat, J: seq<char>)
    requires 1 <= lint < ldot - i && ldot <= |b| && |J| == ldot - lint && AllDigits(J)
    requires b[lint..ldot - i] == J[..|J| - i] && J[|J| - i - 1] != '9'
    requires forall k :: ldot - i <= k < ldot ==> b[k] == '0'
    ensures var q := ldot - i - 1;
      b[q := Succ(b[q])][lint..ldot] == J[..|J| - i - 1] + [Succ(J[|J| - i - 1])] + Zeros(i)
  {
    var q := ldot - i - 1;
    assert b[q] == b[lint..ldot - i][q - lint];
    var c := b[q := Succ(b[q])];
    assert c[q + 1..ldot] == Zeros(i);
    assert c[lint..q] == b[lint..ldot - i][..q - lint];
    assert J[..|J| - i - 1] == J[..|J| - i][..q - lint];
    assert c[lint..ldot] == c[lint..q] + [c[q]] + c[q + 1..ldot];
  }

  /** The carry runs through every integer digit into the '0' slot before
      them. */
  lemma CarryReachesSlot(b: seq<char>, lint: nat, ldot: nat, i: nat)
    requires 1 <= lint && ldot <= |b| && i == ldot - lint && b[lint - 1] == '0'
    requires forall k :: ldot - i <= k < ldot ==> b[k] == '0'
    ensures var q := lint - 1; b[q := Succ(b[q])][q..ldot] == "1" + Zeros(i)
  {
    var q := lint - 1;
    var c := b[q := Succ(b[q])];
    assert c[q + 1..ldot] == Zeros(i);
    assert c[q..ldot] == [c[q]] + c[q + 1..ldot];
  }

  /** Adding one to digits that end in `i` nines. */
  lemma {:induction false} IncDigitsTail(J: seq<char>, i: nat)
    requires AllDigits(J) && i <= |J|
    requires forall k :: |J| - i <= k < |J| ==> J[k] == '9'
    requires i < |J| ==> J[|J| - i - 1] != '9'
    ensures IncDigits(J) == (if i < |J| then J[..|J| - i - 1] + [Succ(J[|J| - i - 1])] else "1") + Zeros(i)
  {
    if i > 0 {
      var p := J[..|J| - 1];
      assert J[|J| - 1] == '9';
      assert IncDigits(J) == IncDigits(p) + "0";
      assert forall k :: |p| - (i - 1) <= k < |p| ==> p[k] == J[k];
      IncDigitsTail(p, i - 1);
      var h := if i < |J| then J[..|J| - i - 1] + [Succ(J[|J| - i - 1])] else "1";
      if i < |J| {
        assert p[..|p| - (i - 1) - 1] == J[..|J| - i - 1];
      }
      ZerosAppend(i - 1);
      calc {
        IncDigits(J);
        IncDigits(p) + "0";
        h + Zeros(i - 1) + "0";
        h + (Zeros(i - 1) + "0");
      }
    } else if |J| > 0 {
      assert J == J[..|J| - 1] + [J[|J| - 1]];
    }
  }
}
