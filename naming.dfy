/** The file name `_download_ts` gives a segment: its index in decimal,
    zero-padded to as many digits as the playlist length has, then `.ts`. */
module Naming {
  import opened Text

  predicate IsDigit(c: char) { '0' <= c <= '9' }

  function DigitChar(d: int): (c: char)
    requires 0 <= d < 10
    ensures IsDigit(c)
  {
    ('0' as int + d) as char
  }

  /** Python's `str(n)` for a non-negative integer: its decimal digits, most
      significant first, with no leading zero. */
  function Decimal(n: nat): (s: string)
    ensures |s| >= 1 && forall k :: 0 <= k < |s| ==> IsDigit(s[k])
    ensures n == 0 || s[0] != '0'
  {
    if n < 10 then [DigitChar(n)] else Decimal(n / 10) + [DigitChar(n % 10)]
  }

  /** The value a string of decimal digits denotes (Python's `int(s)` on digits). */
  function ParseDecimal(s: string): int
  {
    if s == [] then 0 else ParseDecimal(s[..|s| - 1]) * 10 + (s[|s| - 1] as int - '0' as int)
  }

  function Zeros(k: nat): (z: string)
    ensures |z| == k && forall j :: 0 <= j < k ==> z[j] == '0'
  {
    seq(k, _ => '0')
  }

  /** Reading back the decimal digits of `n` gives `n`. */
  lemma {:induction false} ParseDecimalInverts(n: nat)
    ensures ParseDecimal(Decimal(n)) == n
  {
    if n >= 10 {
      ParseDecimalInverts(n / 10);
      var s := Decimal(n);
      assert s[..|s| - 1] == Decimal(n / 10);
    }
  }

  /** Leading zeros do not change the value read back. */
  lemma {:induction false} ParseIgnoresLeadingZeros(k: nat, s: string)
    ensures ParseDecimal(Zeros(k) + s) == ParseDecimal(s)
    decreases |s|, k
  {
    var t := Zeros(k) + s;
    if s == [] {
      if k > 0 {
        assert t[..|t| - 1] == Zeros(k - 1) + [];
        ParseIgnoresLeadingZeros(k - 1, []);
      }
    } else {
      assert t[..|t| - 1] == Zeros(k) + s[..|s| - 1];
      ParseIgnoresLeadingZeros(k, s[..|s| - 1]);
    }
  }

  /** Python's `f'{n:0{width}}'`: the decimal digits of `n`, left-filled with
      zeros up to `width` characters; never truncated when `n` has more digits.
      The result is all digits, has the larger of the two lengths, and reads
      back as `n`. */
  function ZeroPad(n: nat, width: nat): (s: string)
    ensures |s| == if |Decimal(n)| < width then width else |Decimal(n)|
    ensures forall k :: 0 <= k < |s| ==> IsDigit(s[k])
    ensures ParseDecimal(s) == n
  {
    var d := Decimal(n);
    ParseDecimalInverts(n);
    if |d| < width then
      ParseIgnoresLeadingZeros(width - |d|, d);
      Zeros(width - |d|) + d
    else d
  }

  /** The index encoded in a segment file name: the digits before `.ts`
      (-1 for a name too short to hold the suffix). */
  function SegmentIndex(name: string): int
  {
    if |name| < 3 then -1 else ParseDecimal(name[..|name| - 3])
  }

  /** `ts_id` in `_download_ts`: `f'{index:0{digit}}.ts'` with
      `digit = len(str(total))`. */
  function SegmentName(index: nat, total: nat): string
  {
    ZeroPad(index, |Decimal(total)|) + ".ts"
  }

  /** A segment name ends in `.ts`, everything before the suffix is a digit,
      and the digits read back as the index. */
  lemma SegmentNameShape(index: nat, total: nat)
    ensures var name := SegmentName(index, total);
      |name| >= 4 && name[|name| - 3..] == ".ts" &&
      (forall k :: 0 <= k < |name| - 3 ==> IsDigit(name[k])) &&
      SegmentIndex(name) == index
  {
    var name := SegmentName(index, total);
    assert name[..|name| - 3] == ZeroPad(index, |Decimal(total)|);
  }

  /** Whether `name` is the file name of one of the `total` segments: the
      index it encodes is below `total` and names it back. */
  predicate IsSegmentName(name: string, total: nat)
  {
    0 <= SegmentIndex(name) < total && SegmentName(SegmentIndex(name), total) == name
  }

  /** The names of exactly the indices below `total` pass `IsSegmentName`. */
  lemma IsSegmentNameExactly(name: string, total: nat)
    ensures IsSegmentName(name, total) <==> exists i :: 0 <= i < total && SegmentName(i, total) == name
  {
    if exists i :: 0 <= i < total && SegmentName(i, total) == name {
      var i :| 0 <= i < total && SegmentName(i, total) == name;
      SegmentNameShape(i, total);
    }
  }

  /** Distinct indices get distinct file names. */
  lemma SegmentNameInjective(i: nat, j: nat, total: nat)
    requires SegmentName(i, total) == SegmentName(j, total)
    ensures i == j
  {
    SegmentNameShape(i, total);
    SegmentNameShape(j, total);
  }

  /** A larger number never has fewer decimal digits. */
  lemma {:induction false} DecimalLengthMonotone(a: nat, b: nat)
    requires a <= b
    ensures |Decimal(a)| <= |Decimal(b)|
  {
    if a >= 10 {
      DecimalLengthMonotone(a / 10, b / 10);
    }
  }

  /** Every segment of a playlist of `total` gets a name of the same length:
      as many digits as `total` has, plus the three characters of `.ts`. */
  lemma SegmentNameLength(index: nat, total: nat)
    requires index < total
    ensures |SegmentName(index, total)| == |Decimal(total)| + 3
  {
    DecimalLengthMonotone(index, total);
    SegmentNameShape(index, total);
  }

  /** The last `w` decimal digits of `n`, zeros included. */
  function FixedDigits(n: nat, w: nat): (s: string)
    ensures |s| == w
  {
    if w == 0 then [] else FixedDigits(n / 10, w - 1) + [DigitChar(n % 10)]
  }

  lemma {:induction false} FixedDigitsOfZero(w: nat)
    ensures FixedDigits(0, w) == Zeros(w)
  {
    if w > 0 {
      FixedDigitsOfZero(w - 1);
    }
  }

  /** When `n` fits in `w` digits, zero-padding it to `w` gives its last `w`
      digits. */
  lemma {:induction false} ZeroPadIsFixedDigits(n: nat, w: nat)
    requires |Decimal(n)| <= w
    ensures ZeroPad(n, w) == FixedDigits(n, w)
  {
    if n < 10 {
      FixedDigitsOfZero(w - 1);
    } else {
      ZeroPadIsFixedDigits(n / 10, w - 1);
      var d := Decimal(n / 10);
      assert Zeros(w - 1 - |d|) + d + [DigitChar(n % 10)] == Zeros(w - |Decimal(n)|) + Decimal(n);
    }
  }

  /** Numeric order is lexicographic order on fixed-width digit strings. */
  lemma {:induction false} FixedDigitsOrder(i: nat, j: nat, w: nat)
    requires i < j && |Decimal(j)| <= w
    ensures LexLess(FixedDigits(i, w), FixedDigits(j, w))
  {
    if i / 10 < j / 10 {
      FixedDigitsOrder(i / 10, j / 10, w - 1);
      LexLessAppend(FixedDigits(i / 10, w - 1), FixedDigits(j / 10, w - 1),
                    [DigitChar(i % 10)], [DigitChar(j % 10)]);
    } else {
      LexLessLast(FixedDigits(i / 10, w - 1), DigitChar(i % 10), DigitChar(j % 10));
    }
  }

  /** The names of a lower and a higher segment index compare lexicographically
      the same way: sorting the names sorts the segments into playlist order. */
  lemma SegmentNameOrder(i: nat, j: nat, total: nat)
    requires i < j < total
    ensures LexLess(SegmentName(i, total), SegmentName(j, total))
  {
    var w := |Decimal(total)|;
    DecimalLengthMonotone(i, total);
    DecimalLengthMonotone(j, total);
    ZeroPadIsFixedDigits(i, w);
    ZeroPadIsFixedDigits(j, w);
    FixedDigitsOrder(i, j, w);
    LexLessAppend(ZeroPad(i, w), ZeroPad(j, w), ".ts", ".ts");
  }

  /** And back: if one segment's name sorts before another's, its index is
      smaller. */
  lemma SegmentNameOrderReflected(i: nat, j: nat, total: nat)
    requires i < total && j < total
    requires LexLess(SegmentName(i, total), SegmentName(j, total))
    ensures i < j
  {
    LexLessAsymmetric(SegmentName(i, total), SegmentName(j, total));
    if j < i {
      SegmentNameOrder(j, i, total);
    }
  }
}
