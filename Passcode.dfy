/**
 * The APRS-IS verification code ("passcode") of a callsign:
 * `calculate_aprs_verification_code` in APRS.py.  The callsign is upper-cased,
 * stripped of surrounding whitespace and cut at its first '-' (the SSID
 * separator); a rolling XOR over the remaining characters, seeded with 0x73e2,
 * is then masked to 15 bits.
 */
module Passcode {

  const Seed: bv32 := 0x73e2
  const Mask: bv32 := 0x7fff

  /** `str.upper` on one character; only the ASCII letters are modelled. */
  function UpperChar(c: char): (u: char)
    ensures 'a' <= c <= 'z' ==> u as int == c as int - 32
    ensures !('a' <= c <= 'z') ==> u == c
  {
    if 'a' <= c <= 'z' then (c as int - 32) as char else c
  }

  function Upper(s: string): (r: string)
    ensures |r| == |s| && forall i :: 0 <= i < |s| ==> r[i] == UpperChar(s[i])
  {
    if s == [] then [] else [UpperChar(s[0])] + Upper(s[1..])
  }

  /** The characters Python's `str.isspace` accepts, which `str.strip` removes. */
  predicate IsSpace(c: char) {
    ('\t' <= c <= '\r') || ('\U{1c}' <= c <= ' ') || c == '\U{85}' || c == '\U{a0}' ||
    c == '\U{1680}' || ('\U{2000}' <= c <= '\U{200a}') || c == '\U{2028}' || c == '\U{2029}' ||
    c == '\U{202f}' || c == '\U{205f}' || c == '\U{3000}'
  }

  function TrimLeft(s: string): (r: string)
    ensures |r| <= |s| && r == s[|s| - |r|..]
    ensures r != [] ==> !IsSpace(r[0])
    ensures forall i :: 0 <= i < |s| - |r| ==> IsSpace(s[i])
  {
    if s != [] && IsSpace(s[0]) then TrimLeft(s[1..]) else s
  }

  function TrimRight(s: string): (r: string)
    ensures r <= s
    ensures r != [] ==> !IsSpace(r[|r| - 1])
    ensures forall i :: |r| <= i < |s| ==> IsSpace(s[i])
  {
    if s != [] && IsSpace(s[|s| - 1]) then TrimRight(s[..|s| - 1]) else s
  }

  /** `str.strip()`: whitespace removed from both ends. */
  function Strip(s: string): string {
    TrimRight(TrimLeft(s))
  }

  /** `s.split('-')[0]`: everything before the first '-'. */
  function BeforeDash(s: string): (r: string)
    ensures r <= s && '-' !in r
    ensures |r| < |s| ==> s[|r|] == '-'
  {
    if s == [] || s[0] == '-' then [] else [s[0]] + BeforeDash(s[1..])
  }

  /** The part of the callsign the code is computed over. */
  function BaseCallsign(callsign: string): string {
    BeforeDash(Strip(Upper(callsign)))
  }

  /** The value XORed in for character `c` at 0-based position `i`. */
  function Term(c: char, i: nat): bv32 {
    if i % 2 == 0 then (c as bv32) << 8 else c as bv32
  }

  /** The accumulator after every character of `s` has been XORed in. */
  function Accumulate(s: string): bv32 {
    if s == [] then Seed else Accumulate(s[..|s| - 1]) ^ Term(s[|s| - 1], |s| - 1)
  }

  /** The final `code & 0x7fff`, which keeps the low 15 bits. */
  function Masked(acc: bv32): (code: nat)
    ensures code <= 32767
  {
    (acc & Mask) as nat
  }

  /** The verification code of a callsign, with the source's range and empty-callsign value. */
  function VerificationCode(callsign: string): (code: nat)
    ensures code <= 32767
    ensures BaseCallsign(callsign) == [] ==> code == 29666
  {
    Masked(Accumulate(BaseCallsign(callsign)))
  }

  /** The loop of `calculate_aprs_verification_code`, step by step. */
  method CalculateVerificationCode(callsign: string) returns (code: nat)
    ensures code == VerificationCode(callsign)
    ensures code <= 32767
  {
    var s := Strip(Upper(callsign));
    if '-' in s {
      s := BeforeDash(s);
    } else {
      NoDashUnchanged(s);
    }
    assert s == BaseCallsign(callsign);
    var acc := XorAll(s);
    code := Masked(acc);
  }

  /** The `for` loop: each character XORed into the accumulator in turn. */
  method XorAll(s: string) returns (acc: bv32)
    ensures acc == Accumulate(s)
  {
    acc := Seed;
    var i := 0;
    while i < |s|
      invariant 0 <= i <= |s|
      invariant acc == Accumulate(s[..i])
    {
      acc := acc ^ Term(s[i], i);
      AccumulateStep(s, i);
      i := i + 1;
    }
    assert s[..i] == s;
  }

  lemma AccumulateStep(s: string, i: nat)
    requires i < |s|
    ensures Accumulate(s[..i + 1]) == Accumulate(s[..i]) ^ Term(s[i], i)
  {
    assert s[..i + 1][..i] == s[..i];
  }

  lemma {:induction false} NoDashUnchanged(s: string)
    requires '-' !in s
    ensures BeforeDash(s) == s
  {
    if s != [] {
      NoDashUnchanged(s[1..]);
    }
  }

  lemma {:induction false} UpperConcat(a: string, b: string)
    ensures Upper(a + b) == Upper(a) + Upper(b)
  {
    if a != [] {
      assert (a + b)[1..] == a[1..] + b;
      UpperConcat(a[1..], b);
    }
  }

  lemma {:induction false} TrimRightAfterNonSpace(x: string, y: string)
    requires x != [] && !IsSpace(x[|x| - 1])
    ensures TrimRight(x + y) == x + TrimRight(y)
    decreases |y|
  {
    if y != [] && IsSpace(y[|y| - 1]) {
      assert (x + y)[..|x + y| - 1] == x + y[..|y| - 1];
      TrimRightAfterNonSpace(x, y[..|y| - 1]);
    } else if y == [] {
      assert x + y == x;
    }
  }

  lemma {:induction false} BeforeDashConcat(x: string, y: string)
    requires '-' !in x
    ensures BeforeDash(x + "-" + y) == x
  {
    if x != [] {
      assert (x + "-" + y)[1..] == x[1..] + "-" + y;
      BeforeDashConcat(x[1..], y);
    }
  }

  /** A string with no whitespace in it is its own strip. */
  lemma StripNoSpace(b: string)
    requires forall i :: 0 <= i < |b| ==> !IsSpace(b[i])
    ensures Strip(b) == b
  {
    assert b == [] || !IsSpace(b[0]);
    assert TrimLeft(b) == b;
    assert b == [] || !IsSpace(b[|b| - 1]);
  }

  /** Stripping "b-y" for a whitespace-free b only trims the end of y. */
  lemma StripDashed(b: string, y: string)
    requires forall i :: 0 <= i < |b| ==> !IsSpace(b[i])
    ensures Strip(b + "-" + y) == b + "-" + TrimRight(y)
  {
    var u := b + "-" + y;
    assert u[0] == '-' || u[0] == b[0];
    assert TrimLeft(u) == u;
    TrimRightAfterNonSpace(b + "-", y);
    assert b + "-" + y == (b + "-") + y;
  }

  /** Upper-casing keeps a whitespace-free, dash-free string so. */
  lemma UpperKeepsPlain(base: string)
    requires '-' !in base
    requires forall i :: 0 <= i < |base| ==> !IsSpace(base[i])
    ensures '-' !in Upper(base)
    ensures forall i :: 0 <= i < |Upper(base)| ==> !IsSpace(Upper(base)[i])
  {
    var b := Upper(base);
    forall i | 0 <= i < |b| ensures b[i] != '-' && !IsSpace(b[i]) {
      assert base[i] != '-';
    }
  }

  /** The base of "callsign-ssid" is the base of "callsign" when the callsign has no whitespace or '-'. */
  lemma BaseIgnoresSsid(base: string, ssid: string)
    requires '-' !in base
    requires forall i :: 0 <= i < |base| ==> !IsSpace(base[i])
    ensures BaseCallsign(base + "-" + ssid) == BaseCallsign(base)
  {
    var b, y := Upper(base), Upper(ssid);
    UpperKeepsPlain(base);
    UpperDashed(base, ssid);
    StripDashed(b, y);
    BeforeDashConcat(b, TrimRight(y));
    StripNoSpace(b);
    NoDashUnchanged(b);
  }

  /** Upper-casing a dashed callsign upper-cases its two halves. */
  lemma UpperDashed(base: string, ssid: string)
    ensures Upper(base + "-" + ssid) == Upper(base) + "-" + Upper(ssid)
  {
    UpperConcat(base + "-", ssid);
    UpperConcat(base, "-");
  }

  /**
   * The SSID never changes the code: a callsign without whitespace or '-'
   * gets the same code with any "-SSID" suffix.
   */
  lemma SsidIgnored(base: string, ssid: string)
    requires '-' !in base
    requires forall i :: 0 <= i < |base| ==> !IsSpace(base[i])
    ensures VerificationCode(base + "-" + ssid) == VerificationCode(base)
  {
    BaseIgnoresSsid(base, ssid);
  }

  /** Callsigns that agree letter for letter up to ASCII case get the same code. */
  lemma CaseInsensitive(a: string, b: string)
    requires |a| == |b| && forall i :: 0 <= i < |a| ==> UpperChar(a[i]) == UpperChar(b[i])
    ensures VerificationCode(a) == VerificationCode(b)
  {
    assert Upper(a) == Upper(b);
  }

  lemma SameBaseSameCode(a: string, b: string)
    requires BaseCallsign(a) == BaseCallsign(b)
    ensures VerificationCode(a) == VerificationCode(b)
  {
  }

  lemma N0CallTerms()
    ensures Term('N', 0) == 0x4e00 && Term('0', 1) == 0x30 && Term('C', 2) == 0x4300
    ensures Term('A', 3) == 0x41 && Term('L', 4) == 0x4c00 && Term('L', 5) == 0x4c
  {
  }

  lemma N0CallAccumulate()
    ensures Accumulate("N0CALL") == 0x32df
  {
    N0CallTerms();
    assert Accumulate("N") == 0x3de2 by { assert "N"[..0] == ""; }
    assert Accumulate("N0") == 0x3dd2 by { assert "N0"[..1] == "N"; }
    assert Accumulate("N0C") == 0x7ed2 by { assert "N0C"[..2] == "N0"; }
    assert Accumulate("N0CA") == 0x7e93 by { assert "N0CA"[..3] == "N0C"; }
    assert Accumulate("N0CAL") == 0x3293 by { assert "N0CAL"[..4] == "N0CA"; }
    assert "N0CALL"[..5] == "N0CAL";
  }

  lemma N0CallBase()
    ensures BaseCallsign("N0CALL") == "N0CALL"
  {
    assert Upper("N0CALL") == "N0CALL";
    StripNoSpace("N0CALL");
    NoDashUnchanged("N0CALL");
  }

  /** N0CALL's code is 13023. */
  lemma N0CallCode()
    ensures VerificationCode("N0CALL") == 13023
  {
    N0CallAccumulate();
    N0CallBase();
    assert Masked(0x32df) == 13023;
  }

  lemma N0CallPlain()
    ensures '-' !in "N0CALL"
    ensures forall i :: 0 <= i < |"N0CALL"| ==> !IsSpace("N0CALL"[i])
  {
  }

  lemma {:induction false} TrimLeftSpaces(pad: string, s: string)
    requires forall i :: 0 <= i < |pad| ==> IsSpace(pad[i])
    ensures TrimLeft(pad + s) == TrimLeft(s)
  {
    if pad != [] {
      assert (pad + s)[1..] == pad[1..] + s;
      TrimLeftSpaces(pad[1..], s);
    } else {
      assert pad + s == s;
    }
  }

  lemma {:induction false} TrimRightSpaces(s: string, pad: string)
    requires forall i :: 0 <= i < |pad| ==> IsSpace(pad[i])
    ensures TrimRight(s + pad) == TrimRight(s)
  {
    if pad != [] {
      assert (s + pad)[..|s + pad| - 1] == s + pad[..|pad| - 1];
      TrimRightSpaces(s, pad[..|pad| - 1]);
    } else {
      assert s + pad == s;
    }
  }

  lemma UpperSpaces(pad: string)
    requires forall i :: 0 <= i < |pad| ==> IsSpace(pad[i])
    ensures Upper(pad) == pad
  {
  }

  lemma {:induction false} TrimLeftConcat(s: string, t: string)
    ensures TrimLeft(s + t) == if TrimLeft(s) != [] then TrimLeft(s) + t else TrimLeft(t)
  {
    if s == [] {
      assert s + t == t;
    } else if IsSpace(s[0]) {
      assert (s + t)[1..] == s[1..] + t;
      TrimLeftConcat(s[1..], t);
    }
  }

  lemma StripPadded(left: string, s: string, right: string)
    requires forall i :: 0 <= i < |left| ==> IsSpace(left[i])
    requires forall i :: 0 <= i < |right| ==> IsSpace(right[i])
    ensures Strip(left + s + right) == Strip(s)
  {
    assert left + s + right == left + (s + right);
    TrimLeftSpaces(left, s + right);
    TrimLeftConcat(s, right);
    if TrimLeft(s) == [] {
      TrimLeftSpaces(right, []);
      assert right + [] == right;
    } else {
      TrimRightSpaces(TrimLeft(s), right);
    }
  }

  lemma BasePadded(left: string, callsign: string, right: string)
    requires forall i :: 0 <= i < |left| ==> IsSpace(left[i])
    requires forall i :: 0 <= i < |right| ==> IsSpace(right[i])
    ensures BaseCallsign(left + callsign + right) == BaseCallsign(callsign)
  {
    UpperConcat(left + callsign, right);
    UpperConcat(left, callsign);
    UpperSpaces(left);
    UpperSpaces(right);
    StripPadded(left, Upper(callsign), right);
  }

  /** Whitespace around the callsign never changes the code. */
  lemma PaddingIgnored(left: string, callsign: string, right: string)
    requires forall i :: 0 <= i < |left| ==> IsSpace(left[i])
    requires forall i :: 0 <= i < |right| ==> IsSpace(right[i])
    ensures VerificationCode(left + callsign + right) == VerificationCode(callsign)
  {
    BasePadded(left, callsign, right);
  }

  lemma N0CallLowerBase()
    ensures BaseCallsign("n0call-1") == "N0CALL"
  {
    N0CallPlain();
    BaseIgnoresSsid("N0CALL", "1");
    assert "N0CALL" + "-" == "N0CALL-";
    assert "N0CALL-" + "1" == "N0CALL-1";
    assert Upper("n0call-1") == Upper("N0CALL-1");
    N0CallBase();
  }

  lemma N0CallSevenBase()
    ensures BaseCallsign("N0CALL-7") == "N0CALL"
  {
    N0CallPlain();
    BaseIgnoresSsid("N0CALL", "7");
    assert "N0CALL" + "-" == "N0CALL-";
    assert "N0CALL-" + "7" == "N0CALL-7";
    N0CallBase();
  }

  lemma N0CallPaddedBase(callsign: string)
    requires callsign == " N0CALL-7 "
    ensures BaseCallsign(callsign) == "N0CALL"
  {
    assert callsign == " " + "N0CALL-7" + " ";
    BasePadded(" ", "N0CALL-7", " ");
    N0CallSevenBase();
  }

  /** Lower case, an SSID and surrounding blanks leave N0CALL's code unchanged. */
  lemma N0CallVariants(callsign: string)
    requires callsign == "N0CALL" || callsign == "n0call-1" || callsign == " N0CALL-7 "
    ensures VerificationCode(callsign) == 13023
  {
    N0CallCode();
    N0CallBase();
    if callsign == "n0call-1" {
      N0CallLowerBase();
    } else if callsign == " N0CALL-7 " {
      N0CallPaddedBase(callsign);
    }
    SameBaseSameCode(callsign, "N0CALL");
  }
}
