/**
 * The C library text primitives the packet code leans on: NUL-terminated
 * strings inside a byte buffer (what strchr, strcmp and strcat see), itoa for
 * bases 10 and 16, and strtol/strtoul. The library sources are not part of this
 * model; itoa follows the newlib/picolibc definition (lower-case digits, a sign
 * only for negative decimals, other bases print the 32-bit two's complement)
 * and strtol/strtoul follow the C standard without the overflow clamp.
 */
module CText {
  import opened Options

  /** One element of a `char` buffer filled from `uint8_t` data. */
  type Byte = c: char | c as int < 256

  const NUL: Byte := '\0'

  const UINT32_MODULUS: nat := 0x1_0000_0000
  const INT32_MIN: int := -0x8000_0000
  const INT32_MAX: int := 0x7fff_ffff

  predicate IsInt32(v: int) {
    INT32_MIN <= v <= INT32_MAX
  }

  // ---------------------------------------------------------------------------
  // NUL-terminated strings

  /** Offset of the first NUL at or after `i`, or |s| when the rest has none. */
  function NulFrom(s: seq<char>, i: nat): (k: nat)
    requires i <= |s|
    ensures i <= k <= |s|
    ensures k < |s| ==> s[k] == NUL
    ensures forall j | i <= j < k :: s[j] != NUL
    decreases |s| - i
  {
    if i == |s| || s[i] == NUL then i else NulFrom(s, i + 1)
  }

  /** The C string that starts at offset `i` of `s`. Reading stops at the first
      NUL, or at the end of `s` (a terminator stored just past the end). */
  function CStr(s: seq<char>, i: nat): (r: seq<char>)
    requires i <= |s|
    ensures NUL !in r
    ensures r <= s[i..]
    ensures i + |r| == |s| || s[i + |r|] == NUL
  {
    s[i..NulFrom(s, i)]
  }

  /** `strchr(s + i, ch)` for a non-NUL `ch`: the first offset at or after `i`
      holding `ch` before the string ends. */
  function StrChr(s: seq<char>, i: nat, ch: char): (r: Option<nat>)
    requires i <= |s| && ch != NUL
    ensures r.Some? ==> i <= r.value < i + |CStr(s, i)| && s[r.value] == ch
    ensures r.Some? ==> ch !in s[i..r.value]
    ensures r.None? ==> ch !in CStr(s, i)
    decreases |s| - i
  {
    if i == |s| || s[i] == NUL then None
    else if s[i] == ch then Some(i)
    else StrChr(s, i + 1, ch)
  }

  /** The string at `i` depends only on what lies from `i` on. */
  lemma CStrAgree(s: seq<char>, t: seq<char>, i: nat)
    requires i <= |s| == |t| && s[i..] == t[i..]
    ensures CStr(s, i) == CStr(t, i)
  {
    var e := NulFrom(s, i);
    assert t[i..e] == s[i..e] by {
      assert t[i..e] == t[i..][..e - i];
    }
    if e < |s| {
      assert t[e] == t[i..][e - i];
    }
    CStrIs(t, i, e);
  }

  /** strchr stops at the first `ch` when no NUL comes before it. */
  lemma {:induction false} StrChrFinds(s: seq<char>, i: nat, ch: char, k: nat)
    requires i <= k < |s| && ch != NUL && s[k] == ch
    requires forall j | i <= j < k :: s[j] != ch && s[j] != NUL
    ensures StrChr(s, i, ch) == Some(k)
    decreases k - i
  {
    if i < k {
      StrChrFinds(s, i + 1, ch, k);
    }
  }

  /** strchr finds nothing when the string ends, at `e`, before any `ch`. */
  lemma {:induction false} StrChrMisses(s: seq<char>, i: nat, ch: char, e: nat)
    requires i <= e < |s| && ch != NUL && s[e] == NUL
    requires forall j | i <= j < e :: s[j] != ch
    ensures StrChr(s, i, ch) == None
    decreases e - i
  {
    if i < e && s[i] != NUL {
      StrChrMisses(s, i + 1, ch, e);
    }
  }

  /** The string ends where NulFrom says it does: its three properties fix it. */
  lemma NulFromIs(s: seq<char>, i: nat, k: nat)
    requires i <= k <= |s|
    requires k < |s| ==> s[k] == NUL
    requires forall j | i <= j < k :: s[j] != NUL
    ensures NulFrom(s, i) == k
  {
  }

  /** Writing a NUL inside the string at `i` cuts it in two, in place: the part
      before the NUL, and the rest, which starts one past it. */
  lemma {:induction false} CStrCut(s: seq<char>, i: nat, k: nat)
    requires i <= |s| && i <= k < i + |CStr(s, i)|
    ensures CStr(s[k := NUL], i) == CStr(s, i)[..k - i]
    ensures CStr(s[k := NUL], k + 1) == CStr(s, i)[k - i + 1..]
  {
    var e := NulFrom(s, i);
    var t := s[k := NUL];
    NulFromIs(t, i, k);
    NulFromIs(t, k + 1, e);
  }

  /** A write outside [i, end of the string] leaves the string at `i` alone. */
  lemma {:induction false} CStrWriteOutside(s: seq<char>, i: nat, k: nat, c: char)
    requires i <= |s| && k < |s|
    requires k < i || i + |CStr(s, i)| < k
    ensures CStr(s[k := c], i) == CStr(s, i)
  {
    var e := NulFrom(s, i);
    NulFromIs(s[k := c], i, e);
  }

  /** A NUL stored just past the string's last character changes nothing. */
  lemma {:induction false} CStrWriteTerminator(s: seq<char>, i: nat, k: nat)
    requires i <= |s| && k < |s| && k == i + |CStr(s, i)|
    ensures CStr(s[k := NUL], i) == CStr(s, i)
  {
    var e := NulFrom(s, i);
    NulFromIs(s[k := NUL], i, e);
  }

  /** When `s[i..e]` holds no NUL and a NUL (or the end) follows it, that is the
      string at `i`. */
  lemma {:induction false} CStrIs(s: seq<char>, i: nat, e: nat)
    requires i <= e <= |s|
    requires e < |s| ==> s[e] == NUL
    requires NUL !in s[i..e]
    ensures CStr(s, i) == s[i..e]
  {
    forall j | i <= j < e ensures s[j] != NUL {
      assert s[j] == s[i..e][j - i];
    }
    NulFromIs(s, i, e);
  }

  // ---------------------------------------------------------------------------
  // Digits (itoa)

  /** The value of a digit character in bases up to 16; 16 for anything else. */
  function DigitValue(c: char): (d: nat)
    ensures d <= 16
  {
    if '0' <= c <= '9' then c as int - '0' as int
    else if 'a' <= c <= 'f' then c as int - 'a' as int + 10
    else if 'A' <= c <= 'F' then c as int - 'A' as int + 10
    else 16
  }

  /** The lower-case digit itoa writes for `d`. */
  function DigitChar(d: nat): (c: Byte)
    requires d < 16
    ensures DigitValue(c) == d
  {
    if d < 10 then ('0' as int + d) as char else ('a' as int + d - 10) as char
  }

  predicate IsBase(base: nat) {
    base == 10 || base == 16
  }

  predicate AllDigits(s: seq<char>, base: nat) {
    forall j | 0 <= j < |s| :: DigitValue(s[j]) < base
  }

  /** The digits of `n`, most significant first, without leading zeros. */
  function Digits(n: nat, base: nat): (s: seq<Byte>)
    requires IsBase(base)
    ensures 1 <= |s| && AllDigits(s, base)
    ensures |s| > 1 ==> s[0] != '0'
    decreases n
  {
    if n < base then [DigitChar(n)] else Digits(n / base, base) + [DigitChar(n % base)]
  }

  /** `itoa(val, buf, base)`: a '-' sign only for negative decimals; base 16
      prints the value as an unsigned 32-bit number. */
  function IToA(v: int, base: nat): (s: seq<Byte>)
    requires IsInt32(v) && IsBase(base)
  {
    if base == 10 && v < 0 then ['-'] + Digits(-v, 10) else Digits(v % UINT32_MODULUS, base)
  }

  /** The value of a string of digits, read most significant first. */
  function Value(s: seq<char>, base: nat): nat
    requires IsBase(base) && AllDigits(s, base)
  {
    if s == [] then 0 else Value(s[..|s| - 1], base) * base + DigitValue(s[|s| - 1])
  }

  lemma {:induction false} ValueOfDigits(n: nat, base: nat)
    requires IsBase(base)
    ensures Value(Digits(n, base), base) == n
    decreases n
  {
    if n >= base {
      ValueOfDigits(n / base, base);
      ValueStep(n, base);
    }
  }

  /** The last digit of `n` comes after the digits of `n / base`. */
  lemma ValueStep(n: nat, base: nat)
    requires IsBase(base) && n >= base && Value(Digits(n / base, base), base) == n / base
    ensures Value(Digits(n, base), base) == n
  {
    var q, r := n / base, n % base;
    ValueSnoc(Digits(q, base), DigitChar(r), base);
    DivMod(n, base, q, r);
  }

  /** One more digit at the end: the value so far times the base, plus it. */
  lemma ValueSnoc(d: seq<char>, c: char, base: nat)
    requires IsBase(base) && AllDigits(d, base) && DigitValue(c) < base
    ensures AllDigits(d + [c], base)
    ensures Value(d + [c], base) == Value(d, base) * base + DigitValue(c)
  {
    assert (d + [c])[..|d|] == d;
  }

  lemma DivMod(n: nat, base: nat, q: nat, r: nat)
    requires base > 0 && q == n / base && r == n % base
    ensures n == q * base + r
  {
  }

  // ---------------------------------------------------------------------------
  // strtol / strtoul

  predicate IsSpace(c: char) {
    c == ' ' || '\t' <= c <= '\r'
  }

  /** Offset of the first non-space at or after `i`. */
  function SkipSpace(s: seq<char>, i: nat): (k: nat)
    requires i <= |s|
    ensures i <= k <= |s|
    ensures k < |s| ==> !IsSpace(s[k])
    ensures forall j | i <= j < k :: IsSpace(s[j])
    decreases |s| - i
  {
    if i == |s| || !IsSpace(s[i]) then i else SkipSpace(s, i + 1)
  }

  /** Offset of the first non-digit at or after `i`. */
  function DigitEnd(s: seq<char>, i: nat, base: nat): (k: nat)
    requires i <= |s| && IsBase(base)
    ensures i <= k <= |s|
    ensures k < |s| ==> DigitValue(s[k]) >= base
    ensures AllDigits(s[i..k], base)
    decreases |s| - i
  {
    if i == |s| || DigitValue(s[i]) >= base then i else DigitEnd(s, i + 1, base)
  }

  /** `strtol(s, NULL, base)` without the overflow clamp: leading white space, an
      optional sign, for base 16 an optional "0x"/"0X", then the longest run of
      digits (none reads as 0). */
  function StrToL(s: seq<char>, base: nat): int
    requires IsBase(base)
  {
    var i := SkipSpace(s, 0);
    var signed := i < |s| && (s[i] == '-' || s[i] == '+');
    var j := if signed then i + 1 else i;
    var k := if base == 16 && j + 1 < |s| && s[j] == '0' && (s[j + 1] == 'x' || s[j + 1] == 'X')
             then j + 2 else j;
    var v: int := Value(s[k..DigitEnd(s, k, base)], base);
    if signed && s[i] == '-' then -v else v
  }

  /** `strtoul(s, NULL, base)`: the same reading, as an unsigned 32-bit value
      (a '-' sign negates modulo 2^32). */
  function StrToUL(s: seq<char>, base: nat): (r: nat)
    requires IsBase(base)
    ensures r < UINT32_MODULUS
  {
    StrToL(s, base) % UINT32_MODULUS
  }

  /** A plain run of digits (no sign, no "0x") reads as its value. */
  lemma {:induction false} StrToLDigits(s: seq<char>, base: nat)
    requires IsBase(base) && 1 <= |s| && AllDigits(s, base)
    requires |s| > 1 ==> s[0] != '0'
    ensures StrToL(s, base) == Value(s, base)
  {
    assert DigitValue(s[0]) < base;
    assert SkipSpace(s, 0) == 0;
    DigitEndAll(s, 0, base);
    assert s[0..|s|] == s;
  }

  /** A '-' followed by decimal digits reads as the negated value. */
  lemma {:induction false} StrToLNegative(d: seq<char>)
    requires 1 <= |d| && AllDigits(d, 10)
    ensures StrToL(['-'] + d, 10) == -(Value(d, 10) as int)
  {
    var s := ['-'] + d;
    assert SkipSpace(s, 0) == 0;
    assert s[1..] == d;
    DigitEndAll(s, 1, 10);
    assert s[1..|s|] == d;
  }

  /** Reading back what itoa wrote in base 10 gives the number. */
  lemma {:induction false} DecimalRoundTrip(v: int)
    requires IsInt32(v)
    ensures StrToL(IToA(v, 10), 10) == v
  {
    if v < 0 {
      NegativeDecimal(v);
    } else {
      NonNegativeDecimal(v);
    }
  }

  lemma NegativeDecimal(v: int)
    requires INT32_MIN <= v < 0
    ensures StrToL(IToA(v, 10), 10) == v
  {
    var d := Digits(-v, 10);
    assert IToA(v, 10) == ['-'] + d;
    ValueOfDigits(-v, 10);
    StrToLNegative(d);
  }

  lemma {:induction false} NonNegativeDecimal(v: nat)
    requires v <= INT32_MAX
    ensures StrToL(IToA(v, 10), 10) == v
  {
    var d := Digits(v, 10);
    assert v % UINT32_MODULUS == v;
    assert IToA(v, 10) == d;
    ValueOfDigits(v, 10);
    StrToLDigits(d, 10);
  }

  /** Reading back what itoa wrote in base 16 gives the 32-bit pattern. */
  lemma {:induction false} HexRoundTrip(v: int)
    requires IsInt32(v)
    ensures StrToUL(IToA(v, 16), 16) == v % UINT32_MODULUS
  {
    var n := v % UINT32_MODULUS;
    var d := Digits(n, 16);
    assert IToA(v, 16) == d;
    ValueOfDigits(n, 16);
    StrToLDigits(d, 16);
    assert StrToL(d, 16) == n;
    SmallModulus(n);
    assert StrToUL(d, 16) == n;
  }

  lemma SmallModulus(n: int)
    requires 0 <= n < UINT32_MODULUS
    ensures n % UINT32_MODULUS == n
  {
  }

  /** A tail made of digits only is read to its end. */
  lemma {:induction false} DigitEndAll(s: seq<char>, k: nat, base: nat)
    requires k <= |s| && IsBase(base) && AllDigits(s[k..], base)
    ensures DigitEnd(s, k, base) == |s|
  {
  }
}
