/**
 * The pieces of Python string formatting the core relies on: `str(n)` of a
 * non-negative integer, the zero padding of `f"{n:0Wd}"`, slicing `s[:n]`
 * and `" ".join(items)`.
 */
module Text {

  predicate IsDigit(c: char) {
    '0' <= c <= '9'
  }

  predicate AllDigits(s: string) {
    forall i :: 0 <= i < |s| ==> IsDigit(s[i])
  }

  function DigitChar(d: nat): (c: char)
    requires d < 10
    ensures IsDigit(c) && c as int - '0' as int == d
  {
    ('0' as int + d) as char
  }

  /** `str(n)` for a non-negative integer: its decimal digits, no leading zero. */
  function NatToString(n: nat): (s: string)
    ensures 1 <= |s| && AllDigits(s)
    ensures |s| > 1 ==> s[0] != '0'
    ensures n < 10 <==> |s| == 1
    decreases n
  {
    if n < 10 then [DigitChar(n)] else NatToString(n / 10) + [DigitChar(n % 10)]
  }

  /** The value of a string of decimal digits; leading zeros do not count. */
  function DigitsValue(s: string): nat
    requires AllDigits(s)
  {
    if s == [] then 0
    else DigitsValue(s[..|s| - 1]) * 10 + (s[|s| - 1] as int - '0' as int)
  }

  function Zeros(k: nat): (z: string)
    ensures |z| == k && forall i :: 0 <= i < k ==> z[i] == '0'
  {
    if k == 0 then [] else Zeros(k - 1) + ['0']
  }

  /** Left padding with '0' up to `width` characters, as the `0W` format does. */
  function ZeroPad(s: string, width: nat): (r: string)
    ensures |r| == if |s| < width then width else |s|
    ensures r[|r| - |s|..] == s
    ensures forall i :: 0 <= i < |r| - |s| ==> r[i] == '0'
  {
    if |s| < width then Zeros(width - |s|) + s else s
  }

  /** `f"{n:0{width}d}"` for a non-negative integer. */
  function FormatInt(n: nat, width: nat): (r: string)
    ensures AllDigits(r)
    ensures |r| == if |NatToString(n)| < width then width else |NatToString(n)|
    ensures 1 <= width && n < Pow10(width) ==> |r| == width
  {
    NatToStringShort(n, width);
    ZeroPad(NatToString(n), width)
  }

  /** `f"{n:0{width}d}"` for any integer: the sign counts towards the width and the zeros go after it. */
  function FormatSigned(n: int, width: nat): string {
    if n < 0 then "-" + FormatInt(-n, if width > 0 then width - 1 else 0) else FormatInt(n, width)
  }

  function Pow10(k: nat): (p: nat)
    ensures p >= 1
  {
    if k == 0 then 1 else 10 * Pow10(k - 1)
  }

  /** A number below 10^width has at most `width` digits. */
  lemma {:induction false} NatToStringShort(n: nat, width: nat)
    ensures 1 <= width && n < Pow10(width) ==> |NatToString(n)| <= width
  {
    if n >= 10 && width > 1 {
      NatToStringShort(n / 10, width - 1);
    }
  }

  lemma {:induction false} DigitsValueOfNatToString(n: nat)
    ensures DigitsValue(NatToString(n)) == n
    decreases n
  {
    if n >= 10 {
      var s := NatToString(n);
      assert s[..|s| - 1] == NatToString(n / 10);
      DigitsValueOfNatToString(n / 10);
    }
  }

  /** Leading zeros add nothing to the value of a digit string. */
  lemma {:induction false} DigitsValueLeadingZeros(k: nat, s: string)
    requires AllDigits(s)
    ensures AllDigits(Zeros(k) + s) && DigitsValue(Zeros(k) + s) == DigitsValue(s)
    decreases |s|
  {
    var t := Zeros(k) + s;
    assert AllDigits(t) by {
      forall i | 0 <= i < |t| ensures IsDigit(t[i]) {
        if i < k { assert t[i] == Zeros(k)[i]; } else { assert t[i] == s[i - k]; }
      }
    }
    if s == [] {
      assert t == Zeros(k);
      ZerosValue(k);
    } else {
      assert t[..|t| - 1] == Zeros(k) + s[..|s| - 1];
      DigitsValueLeadingZeros(k, s[..|s| - 1]);
    }
  }

  lemma {:induction false} ZerosValue(k: nat)
    ensures AllDigits(Zeros(k)) && DigitsValue(Zeros(k)) == 0
  {
    if k > 0 {
      assert Zeros(k)[..k - 1] == Zeros(k - 1);
      ZerosValue(k - 1);
    }
  }

  /** Reading back a zero-padded number gives the number. */
  lemma FormatIntValue(n: nat, width: nat)
    ensures DigitsValue(FormatInt(n, width)) == n
  {
    var s := NatToString(n);
    DigitsValueOfNatToString(n);
    if |s| < width {
      DigitsValueLeadingZeros(width - |s|, s);
    }
  }

  /** A formatted integer reads back as itself: its digits, after a minus sign when negative. */
  lemma FormatSignedValue(n: int, width: nat)
    ensures var r := FormatSigned(n, width);
      if n < 0 then 2 <= |r| && r[0] == '-' && AllDigits(r[1..]) && DigitsValue(r[1..]) == -n
      else AllDigits(r) && DigitsValue(r) == n
  {
    if n < 0 {
      var w := if width > 0 then width - 1 else 0;
      var digits := FormatInt(-n, w);
      FormatIntValue(-n, w);
      var r := "-" + digits;
      assert r[1..] == digits;
      assert FormatSigned(n, width) == r;
    } else {
      FormatIntValue(n, width);
    }
  }

  /** Reading two digit strings side by side: the first counts in units of 10^|b|. */
  lemma {:induction false} DigitsValueConcat(a: string, b: string)
    requires AllDigits(a) && AllDigits(b)
    ensures AllDigits(a + b) && DigitsValue(a + b) == DigitsValue(a) * Pow10(|b|) + DigitsValue(b)
    decreases |b|
  {
    if b == [] {
      assert a + b == a;
    } else {
      var init := b[..|b| - 1];
      assert (a + b)[..|a + b| - 1] == a + init;
      DigitsValueConcat(a, init);
      var last := b[|b| - 1] as int - '0' as int;
      var x, q, y := DigitsValue(a), Pow10(|init|), DigitsValue(init);
      assert Pow10(|b|) == q * 10;
      assert DigitsValue(b) == y * 10 + last;
      assert DigitsValue(a + b) == (x * q + y) * 10 + last;
      Distribute(x, q, y, last);
    }
  }

  lemma Distribute(x: int, q: int, y: int, last: int)
    ensures (x * q + y) * 10 + last == x * (q * 10) + (y * 10 + last)
  {
  }

  /** A string of k digits reads as less than 10^k. */
  lemma {:induction false} DigitsValueBound(s: string)
    requires AllDigits(s)
    ensures DigitsValue(s) < Pow10(|s|)
    decreases |s|
  {
    if s != [] {
      DigitsValueBound(s[..|s| - 1]);
    }
  }

  /** Below 100, `f"{n:02d}"` is the tens digit and the units digit. */
  lemma TwoDigits(n: nat)
    requires n < 100
    ensures FormatInt(n, 2) == [DigitChar(n / 10), DigitChar(n % 10)]
  {
    if n >= 10 {
      assert NatToString(n / 10) == [DigitChar(n / 10)];
    }
  }

  /** Below 1000, `f"{n:03d}"` is the hundreds, tens and units digits. */
  lemma ThreeDigits(n: nat)
    requires n < 1000
    ensures FormatInt(n, 3) == [DigitChar(n / 100), DigitChar(n / 10 % 10), DigitChar(n % 10)]
  {
    if n >= 100 {
      assert NatToString(n / 100) == [DigitChar(n / 100)];
      assert NatToString(n / 10) == [DigitChar(n / 100), DigitChar(n / 10 % 10)];
    } else if n >= 10 {
      assert NatToString(n / 10) == [DigitChar(n / 10)];
      assert Zeros(1) == ['0'];
    } else {
      assert Zeros(2) == ['0', '0'];
    }
  }

  /** The position of the first `c` in `s`, or `|s|` when there is none. */
  function FirstIndex(s: string, c: char): (i: nat)
    ensures i <= |s| && c !in s[..i]
    ensures i < |s| ==> s[i] == c
  {
    if s == [] || s[0] == c then 0
    else
      assert s[..FirstIndex(s[1..], c) + 1] == [s[0]] + s[1..][..FirstIndex(s[1..], c)];
      FirstIndex(s[1..], c) + 1
  }

  /** Splitting at the first `c` recovers what was on either side of it. */
  lemma {:induction false} FirstIndexAfter(a: string, c: char, b: string)
    requires c !in a
    ensures FirstIndex(a + [c] + b, c) == |a|
    ensures (a + [c] + b)[..|a|] == a && (a + [c] + b)[|a| + 1..] == b
    decreases |a|
  {
    if a != [] {
      assert (a + [c] + b)[1..] == a[1..] + [c] + b;
      FirstIndexAfter(a[1..], c, b);
    }
  }

  /** Python's `s[:n]` for a non-negative `n`. */
  function Take(s: string, n: nat): (r: string)
    ensures |r| == if |s| < n then |s| else n
    ensures r <= s
  {
    if |s| <= n then s else s[..n]
  }

  /** Python's `sep.join(items)`. */
  function Join(items: seq<string>, sep: string): string
  {
    if items == [] then ""
    else if |items| == 1 then items[0]
    else Join(items[..|items| - 1], sep) + sep + items[|items| - 1]
  }

  /** A join is empty exactly when every item is empty and there is nothing to separate. */
  lemma {:induction false} JoinEmpty(items: seq<string>)
    ensures Join(items, " ") == "" <==> (items == [] || (|items| == 1 && items[0] == ""))
  {
    if |items| > 1 {
      assert |Join(items, " ")| >= 1;
    }
  }
}
