/** Download and archive entry names: `"page-" + str(page_num).zfill(3) + ".webp"`.
    Page numbers are never negative here, so `str` writes no sign and `zfill`
    only pads with leading zeros. */
module ArtifactNaming {
  import opened Wrappers

  const Prefix: string := "page-"
  const Suffix: string := ".webp"

  /** The width `zfill` pads page numbers to. */
  const PadWidth: nat := 3

  predicate IsDigit(c: char)
  {
    '0' <= c <= '9'
  }

  predicate AllDigits(s: string)
  {
    forall i :: 0 <= i < |s| ==> IsDigit(s[i])
  }

  function DigitChar(d: nat): (c: char)
    requires d < 10
    ensures IsDigit(c)
  {
    (48 + d) as char
  }

  function DigitValue(c: char): (d: nat)
    requires IsDigit(c)
    ensures d < 10 && DigitChar(d) == c
  {
    (c as int) - 48
  }

  /** `str(n)` for a non-negative integer: its decimal digits, most
      significant first, without leading zeros. */
  function DecimalString(n: nat): (s: string)
    ensures 1 <= |s| && AllDigits(s)
    ensures |s| > 1 ==> s[0] != '0'
    ensures n < 10 <==> |s| == 1
  {
    if n < 10 then [DigitChar(n)] else DecimalString(n / 10) + [DigitChar(n % 10)]
  }

  /** The number a string of decimal digits denotes. */
  function DecimalValue(s: string): nat
    requires AllDigits(s)
  {
    if s == [] then 0 else 10 * DecimalValue(s[..|s| - 1]) + DigitValue(s[|s| - 1])
  }

  /** `Zeros(k)` is `"0" * k`. */
  function Zeros(k: nat): (z: string)
    ensures |z| == k && forall i :: 0 <= i < k ==> z[i] == '0'
  {
    if k == 0 then [] else Zeros(k - 1) + ['0']
  }

  /** `s.zfill(width)` for a string without a sign: left-padded with `'0'`
      up to `width`, and left alone when it is already that long. */
  function ZFill(s: string, width: nat): (r: string)
    ensures |r| == if |s| >= width then |s| else width
  {
    if |s| >= width then s else Zeros(width - |s|) + s
  }

  /** What `zfill` adds is only leading zeros: the original string is the
      tail of the result. */
  lemma ZFillPads(s: string, width: nat)
    ensures var r := ZFill(s, width);
      r[|r| - |s|..] == s && forall i :: 0 <= i < |r| - |s| ==> r[i] == '0'
  {
  }

  /** The name of the per-page download and of the page's ZIP entry. */
  function PageFileName(pageNum: nat): string
  {
    Prefix + ZFill(DecimalString(pageNum), PadWidth) + Suffix
  }

  /** Reads a page number back out of an artifact name. */
  function ParsePageFileName(name: string): Option<nat>
  {
    if |name| >= |Prefix| + |Suffix| && name[..|Prefix|] == Prefix
       && name[|name| - |Suffix|..] == Suffix
       && AllDigits(name[|Prefix|..|name| - |Suffix|])
    then Some(DecimalValue(name[|Prefix|..|name| - |Suffix|]))
    else None
  }

  /** `str(n)` denotes `n`. */
  lemma {:induction false} DecimalRoundTrip(n: nat)
    ensures DecimalValue(DecimalString(n)) == n
  {
    var s := DecimalString(n);
    if n >= 10 {
      DecimalRoundTrip(n / 10);
      assert s[..|s| - 1] == DecimalString(n / 10);
    }
  }

  /** A leading zero does not change the value of a digit string. */
  lemma {:induction false} LeadingZeroValue(s: string)
    requires AllDigits(s)
    ensures AllDigits(['0'] + s) && DecimalValue(['0'] + s) == DecimalValue(s)
  {
    var t := ['0'] + s;
    if s != [] {
      assert t[..|t| - 1] == ['0'] + s[..|s| - 1];
      LeadingZeroValue(s[..|s| - 1]);
    }
  }

  /** Zero padding does not change the value of a digit string. */
  lemma {:induction false} ZerosValue(k: nat, s: string)
    requires AllDigits(s)
    ensures AllDigits(Zeros(k) + s)
    ensures DecimalValue(Zeros(k) + s) == DecimalValue(s)
  {
    if k == 0 {
      assert Zeros(k) + s == s;
    } else {
      var t := ['0'] + s;
      assert Zeros(k) + s == Zeros(k - 1) + t;
      LeadingZeroValue(s);
      ZerosValue(k - 1, t);
    }
  }

  /** The padded page number has at least three digits, all decimal, exactly
      three below 1000, and still denotes the page number. */
  lemma {:induction false} PaddedPageNumber(pageNum: nat)
    ensures var p := ZFill(DecimalString(pageNum), PadWidth);
      |p| >= PadWidth && AllDigits(p) && DecimalValue(p) == pageNum &&
      (pageNum < 1000 ==> |p| == PadWidth)
  {
    var s := DecimalString(pageNum);
    DecimalRoundTrip(pageNum);
    if |s| < PadWidth {
      ZerosValue(PadWidth - |s|, s);
    }
    if pageNum < 1000 {
      DecimalShort(pageNum);
    }
  }

  /** Numbers below 1000 have at most three decimal digits. */
  lemma {:induction false} DecimalShort(n: nat)
    requires n < 1000
    ensures |DecimalString(n)| <= 3
  {
    if n >= 10 {
      DecimalShort(n / 10);
      if n >= 100 {
        assert |DecimalString(n / 10)| <= 2 by { DecimalShort2(n / 10); }
      }
    }
  }

  lemma {:induction false} DecimalShort2(n: nat)
    requires n < 100
    ensures |DecimalString(n)| <= 2
  {
    if n >= 10 {
      assert n / 10 < 10;
    }
  }

  /** Every artifact name is `"page-"`, at least three decimal digits and
      `".webp"`, and the page number can be read back from it. */
  lemma {:induction false} PageFileNameRoundTrip(pageNum: nat)
    ensures |PageFileName(pageNum)| >= |Prefix| + PadWidth + |Suffix|
    ensures PageFileName(pageNum)[..|Prefix|] == Prefix
    ensures AllDigits(PageFileName(pageNum)[|Prefix|..|PageFileName(pageNum)| - |Suffix|])
    ensures ParsePageFileName(PageFileName(pageNum)) == Some(pageNum)
  {
    var p := ZFill(DecimalString(pageNum), PadWidth);
    var name := PageFileName(pageNum);
    PaddedPageNumber(pageNum);
    assert name[..|Prefix|] == Prefix;
    assert name[|name| - |Suffix|..] == Suffix;
    assert name[|Prefix|..|name| - |Suffix|] == p;
  }

  /** Distinct pages get distinct file names, so no ZIP entry shadows another. */
  lemma {:induction false} PageFileNameInjective(a: nat, b: nat)
    requires a != b
    ensures PageFileName(a) != PageFileName(b)
  {
    PageFileNameRoundTrip(a);
    PageFileNameRoundTrip(b);
  }
}
