/** The numeral parser, `bc_parse_number`: it splits `[+|-] digits [. digits]`
    into a sign and four indices, and strips leading zeros of the integer part
    by moving the start index. */
module Parser {
  import opened Digits
  import opened Wrappers

  /** The out-parameters of `bc_parse_number`: the integer digits are
      `s[lint..ldot)`, the fraction digits `s[lfrac..lfrac + lscale)`. */
  datatype Desc = Desc(sign: int, lint: nat, ldot: nat, lfrac: nat, lscale: nat)

  /** The spans of a descriptor lie inside the text and hold digits only; the
      fraction starts right at `ldot` or just after a '.' there. */
  predicate Spans(s: string, d: Desc) {
    && d.lint <= d.ldot <= d.lfrac
    && d.lfrac + d.lscale <= |s|
    && (d.lfrac == d.ldot || (d.lfrac == d.ldot + 1 && s[d.ldot] == '.'))
    && AllDigits(s[d.lint..d.ldot])
    && AllDigits(s[d.lfrac..d.lfrac + d.lscale])
  }

  function IntDigits(s: string, d: Desc): seq<char>
    requires Spans(s, d)
  {
    s[d.lint..d.ldot]
  }

  function FracDigits(s: string, d: Desc): seq<char>
    requires Spans(s, d)
  {
    s[d.lfrac..d.lfrac + d.lscale]
  }

  /** The magnitude as a scaled integer: the numeral stands for
      `sign * Magnitude(s, d) / 10^lscale`. */
  function Magnitude(s: string, d: Desc): nat
    requires Spans(s, d)
  {
    Val(IntDigits(s, d) + FracDigits(s, d))
  }

  /** No leading zero in an integer span of two or more digits, as the parser
      leaves every numeral. */
  predicate NoLeadingZero(s: string, d: Desc)
    requires Spans(s, d)
  {
    d.ldot - d.lint >= 2 ==> s[d.lint] != '0'
  }

  /** A descriptor whose integer span is non-empty and carries no leading zero
      unless it is the single digit "0". */
  predicate Canonical(s: string, d: Desc)
    requires Spans(s, d)
  {
    d.lint < d.ldot && (d.ldot - d.lint >= 2 ==> s[d.lint] != '0')
  }

  function SignLength(s: string): nat {
    if |s| > 0 && (s[0] == '-' || s[0] == '+') then 1 else 0
  }

  /** The end of the run of digits that starts at `i`. */
  function DigitRunEnd(s: string, i: nat): (e: nat)
    requires i <= |s|
    ensures i <= e <= |s| && AllDigits(s[i..e])
    ensures e < |s| ==> !IsDigit(s[e])
    decreases |s| - i
  {
    if i < |s| && IsDigit(s[i]) then
      var e := DigitRunEnd(s, i + 1);
      assert s[i..e] == [s[i]] + s[i + 1..e];
      e
    else i
  }

  /** Where the integer digits start once leading zeros are skipped; at least
      one digit is kept. */
  function SkipZeros(s: string, i: nat, dot: nat): (j: nat)
    requires i <= dot <= |s|
    ensures i <= j <= dot && (i < dot ==> j < dot)
    decreases dot - i
  {
    if i + 1 < dot && s[i] == '0' then SkipZeros(s, i + 1, dot) else i
  }

  /** What `bc_parse_number` computes: `None` where it returns -1, otherwise the
      descriptor it leaves in its out-parameters (its return value is `lscale`). */
  function Parse(s: string): Option<Desc> {
    var k := SignLength(s);
    if k >= |s| then None
    else
      var dot := DigitRunEnd(s, k);
      var hasDot := dot < |s| && s[dot] == '.';
      var fracStart := if hasDot then dot + 1 else dot;
      if DigitRunEnd(s, fracStart) < |s| then None
      else
        var lscale := if hasDot then |s| - dot - 1 else 0;
        var lint := SkipZeros(s, k, dot);
        var lfrac := if lscale == 0 then dot else fracStart;
        var sign := if k == 1 && s[0] == '-' then -1 else 1;
        var sign' := if sign < 0 && lscale == 0 && s[lint] == '0' then 1 else sign;
        Some(Desc(sign', lint, dot, lfrac, lscale))
  }

  /** `bc_parse_number` as written: index scans over the text. */
  method ParseNumber(s: string) returns (ret: int, d: Desc)
    ensures Parse(s).None? ==> ret == -1
    ensures Parse(s).Some? ==> ret == Parse(s).value.lscale && d == Parse(s).value
  {
    var i: nat := 0;
    var lsign := 1;
    // the source reads s[0] even of an empty string, where it is the terminator
    if |s| > 0 && (s[i] == '-' || s[i] == '+') {
      if s[i] == '-' {
        lsign := -1;
      }
      i := i + 1;
    }
    var len := |s|;
    if i >= len {
      return -1, Desc(lsign, 0, 0, 0, 0);
    }
    var lint := i;

    while i < len && '0' <= s[i] <= '9'
      invariant lint <= i <= len
      invariant DigitRunEnd(s, i) == DigitRunEnd(s, lint)
    {
      i := i + 1;
    }
    var ldot := i;
    assert ldot == DigitRunEnd(s, SignLength(s));

    var lscale := 0;
    if i < len && s[i] == '.' {
      lscale := len - i - 1;
      i := i + 1;
    }
    var lfrac := i;

    while i < len && '0' <= s[i] <= '9'
      invariant lfrac <= i <= len
      invariant DigitRunEnd(s, i) == DigitRunEnd(s, lfrac)
    {
      i := i + 1;
    }

    assert i == DigitRunEnd(s, lfrac);
    if i < len {
      return -1, Desc(lsign, lint, ldot, lfrac, lscale);
    }
    d := TrimNumber(s, lsign, lint, ldot, lfrac, lscale);
    return lscale, d;
  }

  /** The end of `bc_parse_number` once the text is known to be a numeral:
      leading zeros are skipped, an empty fraction drops its '.', and a
      negative zero loses its sign. */
  method TrimNumber(s: string, lsign: int, lint0: nat, ldot: nat, lfrac0: nat, lscale: nat) returns (d: Desc)
    requires lint0 == SignLength(s) < |s| && ldot == DigitRunEnd(s, lint0)
    requires lsign == (if lint0 == 1 && s[0] == '-' then -1 else 1)
    requires ldot < |s| && s[ldot] == '.' ==> lfrac0 == ldot + 1 && lscale == |s| - ldot - 1
    requires !(ldot < |s| && s[ldot] == '.') ==> lfrac0 == ldot && lscale == 0
    requires DigitRunEnd(s, lfrac0) == |s|
    ensures Parse(s) == Some(d)
  {
    var lint := lint0;
    while s[lint] == '0' && lint + 1 < ldot
      invariant lint0 <= lint <= ldot && lint < |s|
      invariant SkipZeros(s, lint, ldot) == SkipZeros(s, lint0, ldot)
      decreases ldot - lint
    {
      lint := lint + 1;
    }
    var lfrac := lfrac0;
    if lscale == 0 && lfrac > ldot {
      lfrac := lfrac - 1;
      assert lfrac == ldot;
    }
    var sign := lsign;
    if sign < 0 && (lscale == 0 && s[lint] == '0') {
      sign := 1;
    }
    d := Desc(sign, lint, ldot, lfrac, lscale);
  }
}

/** What the parser promises, stated against an independent grammar. */
module ParserFacts {
  import opened Digits
  import opened Wrappers
  import opened Parser

  /** The numeral grammar `[+|-] digit* ['.' digit*]` with something after the
      sign. */
  predicate IsNumeral(s: string) {
    var k := SignLength(s);
    && k < |s|
    && (|| AllDigits(s[k..])
        || exists p :: k <= p < |s| && s[p] == '.' && AllDigits(s[k..p]) && AllDigits(s[p + 1..]))
  }

  lemma {:induction false} RunToEnd(s: string, i: nat)
    requires i <= |s| && AllDigits(s[i..])
    ensures DigitRunEnd(s, i) == |s|
    decreases |s| - i
  {
    if i < |s| {
      assert s[i] == s[i..][0];
      assert s[i + 1..] == s[i..][1..];
      RunToEnd(s, i + 1);
    }
  }

  lemma {:induction false} RunToStop(s: string, i: nat, p: nat)
    requires i <= p < |s| && AllDigits(s[i..p]) && !IsDigit(s[p])
    ensures DigitRunEnd(s, i) == p
    decreases p - i
  {
    if i < p {
      assert s[i] == s[i..p][0];
      assert s[i + 1..p] == s[i..p][1..];
      RunToStop(s, i + 1, p);
    }
  }

  /** `bc_parse_number` returns -1 exactly on text outside the grammar. */
  lemma ParseAcceptsExactlyNumerals(s: string)
    ensures Parse(s).Some? <==> IsNumeral(s)
  {
    var k := SignLength(s);
    if k < |s| {
      var dot := DigitRunEnd(s, k);
      if Parse(s).Some? {
        if dot < |s| && s[dot] == '.' {
          assert s[dot + 1..] == s[dot + 1..DigitRunEnd(s, dot + 1)];
        } else {
          assert s[k..] == s[k..dot];
        }
      }
      if IsNumeral(s) {
        if AllDigits(s[k..]) {
          RunToEnd(s, k);
        } else {
          var p :| k <= p < |s| && s[p] == '.' && AllDigits(s[k..p]) && AllDigits(s[p + 1..]);
          RunToStop(s, k, p);
          RunToEnd(s, p + 1);
        }
      }
    }
  }

  /** The spans lie inside the text; a non-zero `lscale` counts the digits after
      a '.' that run to the end; a zero `lscale` (no '.' or a bare trailing '.')
      puts the fraction at `ldot`. */
  lemma ParseSpans(s: string)
    requires Parse(s).Some?
    ensures var d := Parse(s).value;
      && Spans(s, d)
      && SignLength(s) <= d.lint
      && (d.lscale > 0 ==> s[d.ldot] == '.' && d.lfrac == d.ldot + 1 && d.lfrac + d.lscale == |s|)
      && (d.lscale == 0 ==> d.lfrac == d.ldot && (d.ldot == |s| || (s[d.ldot] == '.' && d.ldot + 1 == |s|)))
  {
    var d := Parse(s).value;
    var k := SignLength(s);
    var dot := DigitRunEnd(s, k);
    assert s[d.lint..d.ldot] == s[k..dot][d.lint - k..];
    if dot < |s| && s[dot] == '.' {
      assert DigitRunEnd(s, dot + 1) == |s|;
    } else {
      assert DigitRunEnd(s, dot) == dot;
    }
  }

  lemma {:induction false} SkipZerosFacts(s: string, i: nat, dot: nat)
    requires i <= dot <= |s| && AllDigits(s[i..dot])
    ensures var j := SkipZeros(s, i, dot);
      && AllZero(s[i..j])
      && Val(s[j..dot]) == Val(s[i..dot])
      && (dot - j >= 2 ==> s[j] != '0')
    decreases dot - i
  {
    var j := SkipZeros(s, i, dot);
    if i + 1 < dot && s[i] == '0' {
      assert s[i + 1..dot] == s[i..dot][1..];
      SkipZerosFacts(s, i + 1, dot);
      assert s[i..j] == [s[i]] + s[i + 1..j];
      assert s[i..dot] == Zeros(1) + s[i + 1..dot];
      ValLeadingZeros(1, s[i + 1..dot]);
    }
  }

  /** The integer span loses its leading zeros but keeps at least one digit,
      and its value is that of all the integer digits written. */
  lemma ParseStripsLeadingZeros(s: string)
    requires Parse(s).Some?
    ensures var d := Parse(s).value;
      && Spans(s, d)
      && Val(IntDigits(s, d)) == Val(s[SignLength(s)..d.ldot])
      && (SignLength(s) < d.ldot ==> Canonical(s, d))
      && NoLeadingZero(s, d)
      && AllZero(s[SignLength(s)..d.lint])
  {
    ParseSpans(s);
    var d := Parse(s).value;
    var k := SignLength(s);
    assert AllDigits(s[k..d.ldot]) by {
      assert s[k..d.ldot] == s[k..DigitRunEnd(s, k)];
    }
    SkipZerosFacts(s, k, d.ldot);
  }

  /** The sign is negative exactly when the text starts with '-' and the numeral
      is not a scale-0 zero: "-0" and "-00." parse as positive, "-0.00" and "-."
      stay negative. */
  lemma ParseSign(s: string)
    requires Parse(s).Some?
    ensures var d := Parse(s).value;
      && Spans(s, d)
      && (d.sign == -1 <==> s[0] == '-' && !(d.lscale == 0 && IntDigits(s, d) == "0"))
      && (d.sign == 1 || d.sign == -1)
  {
    ParseSpans(s);
    ParseStripsLeadingZeros(s);
    var d := Parse(s).value;
    if d.lscale == 0 && s[d.lint] == '0' {
      assert d.lint < d.ldot;
      assert IntDigits(s, d) == "0";
    }
    if IntDigits(s, d) == "0" {
      assert s[d.lint] == '0';
    }
  }
}
