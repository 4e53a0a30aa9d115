/** The column layout shared by `bc_add_positive` and `bc_sub_positive`: two
    magnitudes lined up on the '.', with `L` integer columns and `rs` fraction
    columns, a column outside a numeral's spans reading as '0'; the buffer
    writes of the kernels; and the operand digits by weight that the
    multiplier and the divider read. */
module Alignment {
  import opened Digits
  import opened Parser
  import opened Normalizer
  import opened RoundBuffer

  function Max(a: int, b: int): int { if a < b then b else a }

  /** Fraction columns of a sum or a difference: the larger scale. */
  function FracWidth(l: Desc, r: Desc): nat { Max(l.lscale, r.lscale) }

  /** A magnitude written out over `L` integer and `rs` fraction columns,
      a column outside the numeral's spans reading as '0'. */
  function Aligned(s: string, d: Desc, L: nat, rs: nat): (A: seq<char>)
    requires Spans(s, d) && d.ldot - d.lint <= L && d.lscale <= rs
    ensures |A| == L + rs
  {
    seq(L + rs, k requires 0 <= k < L + rs => AlignedAt(s, d, L, rs, k))
  }

  /** Column `k` of `Aligned`, counted from the left. */
  function AlignedAt(s: string, d: Desc, L: nat, rs: nat, k: nat): char
    requires Spans(s, d) && d.ldot - d.lint <= L && d.lscale <= rs && k < L + rs
  {
    if k < L - (d.ldot - d.lint) then '0'
    else if k < L then s[d.ldot - (L - k)]
    else if k - L < d.lscale then s[d.lfrac + (k - L)]
    else '0'
  }

  /** `Aligned` is the magnitude's digits with '0's on either side. */
  lemma AlignedSplit(s: string, d: Desc, L: nat, rs: nat)
    requires Spans(s, d) && d.ldot - d.lint <= L && d.lscale <= rs
    ensures Aligned(s, d, L, rs)
         == Zeros(L - (d.ldot - d.lint)) + (IntDigits(s, d) + FracDigits(s, d) + Zeros(rs - d.lscale))
  {
    var A := Aligned(s, d, L, rs);
    var llen := d.ldot - d.lint;
    var Y, I, F, Z := Zeros(L - llen), IntDigits(s, d), FracDigits(s, d), Zeros(rs - d.lscale);
    var R := Y + (I + F + Z);
    forall k | 0 <= k < L + rs ensures A[k] == R[k] {
      if k < L - llen {
        assert R[k] == Y[k];
      } else if k < L {
        assert R[k] == I[k - (L - llen)];
      } else if k - L < d.lscale {
        assert R[k] == F[k - L];
      } else {
        assert R[k] == Z[k - L - d.lscale];
      }
    }
  }

  /** Integer column `i` counted leftwards from the '.', the units column
      being column 0. */
  function IntCol(A: seq<char>, L: nat, i: nat): char
    requires i < L <= |A|
  {
    A[L - (i + 1)]
  }

  /** Fraction column `i` counted rightwards from the '.'. */
  function FracCol(A: seq<char>, L: nat, i: nat): char
    requires L + i < |A|
  {
    A[L + i]
  }

  /** The columns as the kernels read them: integer column `i` holds
      `s[ldot - i - 1]` while `i` is within the integer span, fraction column
      `i` holds `s[lfrac + i]` while `i < lscale`, and every other column
      holds '0'. */
  predicate Columns(s: string, d: Desc, L: nat, rs: nat, A: seq<char>)
    requires Spans(s, d) && d.ldot - d.lint <= L && d.lscale <= rs
  {
    && |A| == L + rs && AllDigits(A)
    && (forall i :: 0 <= i < L ==> IntCol(A, L, i) == if i < d.ldot - d.lint then s[d.ldot - i - 1] else '0')
    && (forall i :: 0 <= i < rs ==> FracCol(A, L, i) == if i < d.lscale then s[d.lfrac + i] else '0')
  }

  /** `Aligned` lays the columns out as the kernels read them. */
  lemma AlignedColumns(s: string, d: Desc, L: nat, rs: nat)
    requires Spans(s, d) && d.ldot - d.lint <= L && d.lscale <= rs
    ensures Columns(s, d, L, rs, Aligned(s, d, L, rs))
  {
    var A := Aligned(s, d, L, rs);
    forall k | 0 <= k < L + rs ensures IsDigit(A[k]) {
      assert A[k] == AlignedAt(s, d, L, rs, k);
      if L - (d.ldot - d.lint) <= k < L {
        assert s[d.ldot - (L - k)] == s[d.lint..d.ldot][k - (L - (d.ldot - d.lint))];
      } else if L <= k && k - L < d.lscale {
        assert s[d.lfrac + (k - L)] == s[d.lfrac..d.lfrac + d.lscale][k - L];
      }
    }
    forall i | 0 <= i < L ensures IntCol(A, L, i) == if i < d.ldot - d.lint then s[d.ldot - i - 1] else '0' {
      assert A[L - (i + 1)] == AlignedAt(s, d, L, rs, L - (i + 1));
    }
    forall i | 0 <= i < rs ensures FracCol(A, L, i) == if i < d.lscale then s[d.lfrac + i] else '0' {
      assert A[L + i] == AlignedAt(s, d, L, rs, L + i);
    }
  }

  /** The value of a lined-up magnitude is the magnitude shifted to `rs`
      fraction places. */
  lemma AlignedValue(s: string, d: Desc, L: nat, rs: nat)
    requires Spans(s, d) && d.ldot - d.lint <= L && d.lscale <= rs
    ensures Val(Aligned(s, d, L, rs)) == Magnitude(s, d) * Pow10(rs - d.lscale)
  {
    var llen := d.ldot - d.lint;
    var IF, Z := IntDigits(s, d) + FracDigits(s, d), Zeros(rs - d.lscale);
    AlignedSplit(s, d, L, rs);
    assert Val(Aligned(s, d, L, rs)) == Val(IF + Z) by {
      ValLeadingZeros(L - llen, IF + Z);
    }
    ValAppend(IF, Z);
    ValAllZero(Z);
  }

  /** A column to spare on the left leaves the value of a lined-up magnitude
      unchanged when it is dropped. */
  lemma AlignedSpare(s: string, d: Desc, L: nat, rs: nat)
    requires Spans(s, d) && d.ldot - d.lint < L && d.lscale <= rs
    ensures var A := Aligned(s, d, L, rs); AllDigits(A) && A[0] == '0' && Val(A[1..]) == Val(A)
  {
    var A := Aligned(s, d, L, rs);
    var llen := d.ldot - d.lint;
    var R := IntDigits(s, d) + FracDigits(s, d) + Zeros(rs - d.lscale);
    AlignedColumns(s, d, L, rs);
    AlignedSplit(s, d, L, rs);
    assert A[1..] == Zeros(L - llen - 1) + R;
    ValLeadingZeros(L - llen - 1, R);
    ValLeadingZeros(L - llen, R);
  }

  /** Column `k` of a digit string weighs in at the width of the columns to
      its right. */
  lemma ColumnValue(A: seq<char>, k: nat)
    requires k < |A|
    ensures Val(A[k..]) == DigitOf(A[k]) * Pow10(|A| - k - 1) + Val(A[k + 1..])
  {
    assert A[k..] == [A[k]] + A[k + 1..];
    ValCons(A[k], A[k + 1..]);
  }

  /** A digit string whose leading column is a spare '0' is below a tenth of
      `10^|A|`. */
  lemma SpareColumnBound(A: seq<char>)
    requires |A| >= 1 && AllDigits(A) && Val(A[1..]) == Val(A)
    ensures 10 * Val(A) < Pow10(|A|)
  {
    AllDigitsSuffix(A, 1);
    ValBounds(A[1..]);
    assert Pow10(|A|) == 10 * Pow10(|A| - 1);
  }

  /** The value of a digit string split into its first `L` columns and the
      rest. */
  lemma ValSplit(A: seq<char>, L: nat)
    requires L <= |A|
    ensures Val(A) == Val(A[..L]) * Pow10(|A| - L) + Val(A[L..])
  {
    assert A == A[..L] + A[L..];
    ValAppend(A[..L], A[L..]);
  }

  // ---------------------------------------------------------------- buffers

  /** A digit written at `pos`, just below the run `buf[cur..end]` which
      spells `out0`, extends the run to `out = [c] + out0`; nothing from `end`
      on changes. */
  method WriteDigit(buf: array<char>, pos: nat, cur: nat, end: nat, c: char, ghost out0: seq<char>, ghost out: seq<char>)
    requires pos + 1 == cur <= end <= buf.Length && out == [c] + out0
    requires buf[cur..end] == out0
    modifies buf
    ensures buf[pos..end] == out && buf[end..] == old(buf[end..])
  {
    buf[pos] := c;
    assert buf[pos..end] == [c] + buf[cur..end];
  }

  /** The runs the column loops leave in the buffer form a frame: `b` is the
      buffer at the end, `mid` the buffer before the integer columns. */
  lemma FrameOfColumns(b: seq<char>, mid: seq<char>, lint: nat, ldot: nat, lfrac: nat, lscale: nat,
                       outI: seq<char>, out: seq<char>)
    requires 1 <= lint <= ldot <= lfrac && lfrac + lscale < |b| == |mid|
    requires (lfrac == ldot || (lfrac == ldot + 1 && mid[ldot] == '.')) && (lscale > 0 ==> lfrac == ldot + 1)
    requires lint == ldot ==> mid[ldot] != '0'
    requires AllDigits(outI) && AllDigits(out)
    requires b[lint..ldot] == outI && b[ldot..] == mid[ldot..] && mid[lfrac..lfrac + lscale] == out
    ensures Frame(b, lint, ldot, lfrac, lscale)
    ensures b[lfrac..lfrac + lscale] == out
  {
    assert b[ldot] == b[ldot..][0] == mid[ldot..][0];
    assert b[lfrac..lfrac + lscale] == b[ldot..][lfrac - ldot..lfrac + lscale - ldot];
    assert mid[lfrac..lfrac + lscale] == mid[ldot..][lfrac - ldot..lfrac + lscale - ldot];
  }

  // ---------------------------------------------------------------- digits by weight

  /** The digits of a magnitude, the '.' left out. */
  function MagDigits(s: string, d: Desc): (M: seq<char>)
    requires Spans(s, d)
    ensures |M| == d.ldot - d.lint + d.lscale && AllDigits(M) && Val(M) == Magnitude(s, d)
  {
    IntDigits(s, d) + FracDigits(s, d)
  }

  /** The digit of weight `10^i` of a numeral, `i` negative for a fraction
      digit, as the multiplier and the divider read it, is the magnitude's
      digit of weight `10^(i + lscale)`. */
  lemma WeightDigit(s: string, d: Desc, i: int)
    requires Spans(s, d) && -(d.lscale as int) <= i < d.ldot - d.lint
    ensures var M := MagDigits(s, d);
      (if i < 0 then s[d.lfrac - i - 1] else s[d.ldot - i - 1]) == M[|M| - 1 - (i + d.lscale)]
  {
    var I, F := IntDigits(s, d), FracDigits(s, d);
    var M := I + F;
    var k := |M| - 1 - (i + d.lscale);
    if i < 0 {
      assert M[k] == F[k - |I|];
    } else {
      assert M[k] == I[k];
    }
  }

  /** The digit of weight `10^i` of a numeral, `i` negative for a fraction
      digit: `lhs[lfrac - i - 1]` or `lhs[ldot - i - 1]` in the multiplier
      and the divider. */
  method DigitAtWeight(s: string, d: Desc, i: int) returns (x: nat)
    requires Spans(s, d) && -(d.lscale as int) <= i < d.ldot - d.lint
    ensures var M := MagDigits(s, d); x == DigitOf(M[|M| - 1 - (i + d.lscale)])
  {
    x := DigitOf(if i < 0 then s[d.lfrac - i - 1] else s[d.ldot - i - 1]);
    WeightDigit(s, d, i);
  }
}
