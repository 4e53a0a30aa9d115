/** Decimal digit characters, powers of ten and the value of a digit string.
    Every numeral the library handles is, at bottom, a run of the characters
    '0'..'9'; this module gives such a run its meaning as a natural number. */
module Digits {

  predicate IsDigit(c: char) { '0' <= c <= '9' }

  /** The digit a character stands for (`c - '0'` in the source); the source
      only ever applies it to digit characters. */
  function DigitOf(c: char): nat { if IsDigit(c) then c as int - '0' as int else 0 }

  /** The character for a digit (`d + '0'` in the source). */
  function CharOf(d: int): (c: char)
    requires 0 <= d <= 9
    ensures IsDigit(c) && DigitOf(c) == d
  {
    (d + '0' as int) as char
  }

  predicate AllDigits(s: seq<char>) { forall i :: 0 <= i < |s| ==> IsDigit(s[i]) }

  predicate AllZero(s: seq<char>) { forall i :: 0 <= i < |s| ==> s[i] == '0' }

  function Pow10(n: nat): (p: nat)
    ensures p >= 1
  {
    if n == 0 then 1 else 10 * Pow10(n - 1)
  }

  /** Value of a string of decimal digits, most significant digit first. */
  function Val(s: seq<char>): nat {
    if |s| == 0 then 0 else Val(s[..|s| - 1]) * 10 + DigitOf(s[|s| - 1])
  }

  function Zeros(n: nat): (z: seq<char>)
    ensures |z| == n && AllZero(z) && AllDigits(z)
  {
    seq(n, _ => '0')
  }

  lemma ZerosAppend(n: nat)
    ensures Zeros(n) + "0" == Zeros(n + 1) && "0" + Zeros(n) == Zeros(n + 1)
  {
  }

  /** The `w` lowest decimal digits of `n`, most significant first: the text a
      kernel writes into a digit buffer of width `w`. A negative `n` is spelt
      modulo `10^w`, as its ten's complement. */
  function Spell(n: int, w: nat): (s: seq<char>)
    ensures |s| == w && AllDigits(s)
    decreases w
  {
    if w == 0 then [] else Spell(n / 10, w - 1) + [CharOf(n % 10)]
  }

  /** `Spell` keeps the value modulo `10^w`. */
  lemma {:induction false} SpellValue(n: int, w: nat)
    ensures Val(Spell(n, w)) == n % Pow10(w)
    decreases w
  {
    if w > 0 {
      var s := Spell(n, w);
      assert s[..|s| - 1] == Spell(n / 10, w - 1);
      SpellValue(n / 10, w - 1);
      ModTen(n, Pow10(w - 1));
    }
  }

  /** A number below `10^w` is spelt exactly. */
  lemma SpellSmall(n: nat, w: nat)
    requires n < Pow10(w)
    ensures Val(Spell(n, w)) == n
  {
    SpellValue(n, w);
    DivModUnique(n, Pow10(w), 0, n);
  }

  // ---------------------------------------------------------------- arithmetic

  lemma DivModUnique(n: int, d: int, q: int, r: int)
    requires d > 0 && n == d * q + r && 0 <= r < d
    ensures n / d == q && n % d == r
  {
    var q0, r0 := n / d, n % d;
    assert n == d * q0 + r0 && 0 <= r0 < d;
    MulStep(d, q, q0);
    MulStep(d, q0, q);
  }

  /** A larger factor gives a product larger by at least the other factor. */
  lemma MulStep(d: int, a: int, b: int)
    requires d > 0
    ensures a < b ==> d * a + d <= d * b
  {
    if a < b {
      assert d * b == d * a + d + d * (b - a - 1);
      assert d * (b - a - 1) >= 0;
    }
  }

  lemma MulLe(x: int, y: int, t: int)
    requires x <= y && t >= 0
    ensures x * t <= y * t
  {
    assert y * t - x * t == (y - x) * t;
  }

  /** Splitting off the last decimal digit: `n % (10 m)` from `n / 10` and `n % 10`. */
  lemma ModTen(n: int, m: nat)
    requires m >= 1
    ensures n % (10 * m) == (n / 10) % m * 10 + n % 10
  {
    var q, r := n / 10, n % 10;
    var a, b := q / m, q % m;
    assert n == 10 * q + r;
    assert q == m * a + b;
    assert n == (10 * m) * a + (b * 10 + r);
    DivModUnique(n, 10 * m, a, b * 10 + r);
  }

  lemma Pow10Add(a: nat, b: nat)
    ensures Pow10(a + b) == Pow10(a) * Pow10(b)
  {
    if b > 0 {
      Pow10Add(a, b - 1);
      assert Pow10(a + b) == 10 * Pow10(a + b - 1);
    }
  }

  lemma Pow10Mono(a: nat, b: nat)
    requires a <= b
    ensures Pow10(a) <= Pow10(b)
  {
    if a < b {
      Pow10Mono(a, b - 1);
    }
  }

  // ---------------------------------------------------------------- digit strings

  /** Concatenation shifts the left part by the width of the right part. */
  lemma {:induction false} ValAppend(a: seq<char>, b: seq<char>)
    ensures Val(a + b) == Val(a) * Pow10(|b|) + Val(b)
  {
    if |b| == 0 {
      assert a + b == a;
    } else {
      var ab, b' := a + b, b[..|b| - 1];
      assert ab[..|ab| - 1] == a + b' && ab[|ab| - 1] == b[|b| - 1];
      ValAppend(a, b');
      ShiftDigit(Val(a), Pow10(|b'|), Val(b'), DigitOf(b[|b| - 1]));
    }
  }

  /** The arithmetic step of `ValAppend`: appending one digit below a split. */
  lemma ShiftDigit(x: int, p: int, y: int, d: int)
    ensures (x * p + y) * 10 + d == x * (10 * p) + (y * 10 + d)
  {
  }

  /** A digit string of width `w` spells a number below `10^w`. */
  lemma {:induction false} ValBounds(s: seq<char>)
    requires AllDigits(s)
    ensures 0 <= Val(s) < Pow10(|s|)
  {
    if |s| > 0 {
      ValBounds(s[..|s| - 1]);
    }
  }

  lemma {:induction false} ValAllZero(s: seq<char>)
    requires AllZero(s)
    ensures Val(s) == 0
  {
    if |s| > 0 {
      ValAllZero(s[..|s| - 1]);
    }
  }

  /** Only a string of zeros spells zero. */
  lemma {:induction false} ValZeroIsAllZero(s: seq<char>)
    requires AllDigits(s) && Val(s) == 0
    ensures AllZero(s)
  {
    if |s| > 0 {
      ValBounds(s[..|s| - 1]);
      ValZeroIsAllZero(s[..|s| - 1]);
    }
  }

  /** Leading zeros do not change the value. */
  lemma ValLeadingZeros(k: nat, s: seq<char>)
    ensures Val(Zeros(k) + s) == Val(s)
  {
    ValAppend(Zeros(k), s);
    ValAllZero(Zeros(k));
  }

  /** A digit string is recovered from its value and its width. */
  lemma {:induction false} DigitsOfVal(s: seq<char>)
    requires AllDigits(s)
    ensures Spell(Val(s), |s|) == s
  {
    if |s| > 0 {
      var p := s[..|s| - 1];
      ValBounds(p);
      DigitsOfVal(p);
      var v := Val(s);
      assert v == Val(p) * 10 + DigitOf(s[|s| - 1]);
      DivModUnique(v, 10, Val(p), DigitOf(s[|s| - 1]));
    }
  }

  /** The value of a digit string split around position `i`. */
  lemma ValSplitAt(a: seq<char>, i: nat)
    requires i < |a|
    ensures Val(a[..i + 1]) == Val(a[..i]) * 10 + DigitOf(a[i])
    ensures Val(a) == Val(a[..i + 1]) * Pow10(|a| - i - 1) + Val(a[i + 1..])
  {
    assert a == a[..i + 1] + a[i + 1..];
    assert a[..i + 1][..i] == a[..i];
    ValAppend(a[..i + 1], a[i + 1..]);
  }

  /** Two digit strings of one width are ordered by the first position where
      they differ. */
  lemma ValFirstDifference(a: seq<char>, b: seq<char>, i: nat)
    requires |a| == |b| && AllDigits(a) && AllDigits(b)
    requires i < |a| && a[..i] == b[..i] && a[i] != b[i]
    ensures Val(a) < Val(b) <==> a[i] < b[i]
  {
    ValSplitAt(a, i);
    ValSplitAt(b, i);
    ValBounds(a[i + 1..]);
    ValBounds(b[i + 1..]);
    assert IsDigit(a[i]) && IsDigit(b[i]);
    var t := Pow10(|a| - i - 1);
    if a[i] < b[i] {
      HeadDecides(Val(a[..i + 1]), Val(b[..i + 1]), Val(a[i + 1..]), Val(b[i + 1..]), t);
    } else {
      HeadDecides(Val(b[..i + 1]), Val(a[..i + 1]), Val(b[i + 1..]), Val(a[i + 1..]), t);
    }
  }

  /** A smaller head stays smaller whatever tails of one width follow it. */
  lemma HeadDecides(ha: int, hb: int, ra: int, rb: int, t: int)
    requires ha < hb && 0 <= ra < t && 0 <= rb < t
    ensures ha * t + ra < hb * t + rb
  {
    MulLe(ha + 1, hb, t);
  }

  /** Equal digit strings of one width have equal values, and conversely. */
  lemma ValInjective(a: seq<char>, b: seq<char>)
    requires |a| == |b| && AllDigits(a) && AllDigits(b)
    ensures Val(a) == Val(b) <==> a == b
  {
    if Val(a) == Val(b) {
      DigitsOfVal(a);
      DigitsOfVal(b);
    }
  }

  /** A digit string of `n >= 2` digits without a leading zero is at least `10^(n-1)`. */
  lemma LeadingDigitBound(s: seq<char>)
    requires |s| >= 1 && AllDigits(s) && (|s| >= 2 ==> s[0] != '0')
    ensures |s| >= 2 ==> Val(s) >= Pow10(|s| - 1)
  {
    if |s| >= 2 {
      ValSplitAt(s, 0);
      assert s[..0] == [];
      assert DigitOf(s[0]) >= 1;
      MulLe(1, Val(s[..1]), Pow10(|s| - 1));
    }
  }

  /** Prepending a digit adds it at the weight of the string's width. */
  lemma ValCons(c: char, s: seq<char>)
    ensures Val([c] + s) == DigitOf(c) * Pow10(|s|) + Val(s)
  {
    ValAppend([c], s);
    assert [c][..0] == [];
  }

  /** A run of nines is one below the next power of ten. */
  lemma {:induction false} ValNines(s: seq<char>)
    requires forall i :: 0 <= i < |s| ==> s[i] == '9'
    ensures Val(s) + 1 == Pow10(|s|)
  {
    if |s| > 0 {
      ValNines(s[..|s| - 1]);
    }
  }

  /** Dividing by ten to the width of a tail cuts the tail off. */
  lemma ValSplitDiv(a: seq<char>, b: seq<char>)
    requires AllDigits(b)
    ensures Val(a + b) / Pow10(|b|) == Val(a) && Val(a + b) % Pow10(|b|) == Val(b)
  {
    var n: int, d: int, q: int, r: int := Val(a + b), Pow10(|b|), Val(a), Val(b);
    ValAppend(a, b);
    ValBounds(b);
    assert n == q * d + r;
    DivModUnique(n, d, q, r);
  }
}
