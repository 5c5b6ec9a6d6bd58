/**
 * The few JavaScript string operations the People page relies on, over `seq<char>`:
 * `toLowerCase` (ASCII letters only), `split` on a one-character separator,
 * `Array.prototype.join`, and the decimal text a template literal gives an integer.
 */
module JsStrings {

  predicate IsAsciiUpper(c: char)
  {
    'A' <= c <= 'Z'
  }

  /** `c.toLowerCase()` restricted to ASCII: 'A'..'Z' become 'a'..'z', every other character is kept. */
  function LowerChar(c: char): char
  {
    if IsAsciiUpper(c) then (c as int - 'A' as int + 'a' as int) as char else c
  }

  /** `s.toLowerCase()` on ASCII. */
  function ToLowerAscii(s: string): (r: string)
    ensures |r| == |s|
    ensures forall i :: 0 <= i < |r| ==> !IsAsciiUpper(r[i])
    ensures forall i :: 0 <= i < |r| ==> (r[i] == ' ' <==> s[i] == ' ')
    ensures forall i :: 0 <= i < |r| ==> (IsAsciiUpper(s[i]) || r[i] == s[i])
  {
    seq(|s|, i requires 0 <= i < |s| => LowerChar(s[i]))
  }

  /** Each upper-case letter becomes the lower-case letter at the same place in the alphabet. */
  lemma LowerMatchesAlphabet(s: string)
    ensures forall i, k :: 0 <= i < |s| && 0 <= k < 26 && s[i] == "ABCDEFGHIJKLMNOPQRSTUVWXYZ"[k] ==>
      ToLowerAscii(s)[i] == "abcdefghijklmnopqrstuvwxyz"[k]
  {
  }

  /** Lowercasing twice is lowercasing once. */
  lemma ToLowerAsciiIdempotent(s: string)
    ensures ToLowerAscii(ToLowerAscii(s)) == ToLowerAscii(s)
  {
    var once := ToLowerAscii(s);
    forall i | 0 <= i < |s|
      ensures ToLowerAscii(once)[i] == once[i]
    {
      assert !IsAsciiUpper(once[i]);
    }
  }

  /** Every occurrence of `c` in `s` replaced by `d`: the reference definition of `split(c).join(d)`. */
  function Replace(s: string, c: char, d: char): string
  {
    seq(|s|, i requires 0 <= i < |s| => if s[i] == c then d else s[i])
  }

  /** Number of occurrences of `c` in `s`. */
  function Count(s: string, c: char): nat
  {
    if s == [] then 0 else (if s[0] == c then 1 else 0) + Count(s[1..], c)
  }

  /**
   * `s.split(sep)` for a one-character separator: the pieces between separators, in order,
   * including empty ones; `"".split(" ")` is `[""]`.
   */
  function Split(s: string, sep: char): (parts: seq<string>)
    ensures |parts| == Count(s, sep) + 1
    ensures forall k :: 0 <= k < |parts| ==> sep !in parts[k]
  {
    if s == [] then [""]
    else
      var rest := Split(s[1..], sep);
      if s[0] == sep then [""] + rest
      else [[s[0]] + rest[0]] + rest[1..]
  }

  /** The summed length of the parts. */
  function TotalLength(parts: seq<string>): nat
  {
    if parts == [] then 0 else |parts[0]| + TotalLength(parts[1..])
  }

  /** `parts.join(sep)`: the parts with `sep` between neighbours; `[].join(sep)` is `""`. */
  function Join(parts: seq<string>, sep: string): (r: string)
    ensures parts == [] ==> r == ""
    ensures parts != [] ==> |r| == TotalLength(parts) + (|parts| - 1) * |sep|
    ensures parts != [] ==> r[..|parts[0]|] == parts[0]
  {
    if parts == [] then ""
    else if |parts| == 1 then parts[0]
    else parts[0] + sep + Join(parts[1..], sep)
  }

  /** Prefixing the first part prefixes the joined text. */
  lemma JoinPrefixFirst(p: string, parts: seq<string>, sep: string)
    requires parts != []
    ensures Join([p + parts[0]] + parts[1..], sep) == p + Join(parts, sep)
  {
    var ps := [p + parts[0]] + parts[1..];
    assert ps[1..] == parts[1..];
  }

  /** `s.split(c).join(d)` replaces every `c` by `d`, one for one. */
  lemma {:induction false} JoinSplitIsReplace(s: string, c: char, d: char)
    ensures Join(Split(s, c), [d]) == Replace(s, c, d)
  {
    if s == [] {
    } else {
      var rest := Split(s[1..], c);
      JoinSplitIsReplace(s[1..], c, d);
      assert Replace(s, c, d) == [if s[0] == c then d else s[0]] + Replace(s[1..], c, d);
      if s[0] == c {
        var ps := [""] + rest;
        assert ps[1..] == rest;
        assert |ps| > 1;
      } else {
        JoinPrefixFirst([s[0]], rest, [d]);
      }
    }
  }

  /** Joining the pieces with the separator they were split on gives the text back. */
  lemma SplitJoinRoundTrip(s: string, c: char)
    ensures Join(Split(s, c), [c]) == s
  {
    JoinSplitIsReplace(s, c, c);
    assert Replace(s, c, c) == s;
  }

  predicate IsDigit(c: char)
  {
    '0' <= c <= '9'
  }

  function DigitChar(n: nat): (c: char)
    requires n < 10
    ensures IsDigit(c)
  {
    ('0' as int + n) as char
  }

  function DigitValue(c: char): nat
    requires IsDigit(c)
  {
    c as int - '0' as int
  }

  /** The decimal text of a natural number: no sign, no leading zero. */
  function NatToDecimal(n: nat): (r: string)
    ensures |r| >= 1
    ensures forall i :: 0 <= i < |r| ==> IsDigit(r[i])
    ensures r[0] == '0' ==> n == 0
  {
    if n < 10 then [DigitChar(n)] else NatToDecimal(n / 10) + [DigitChar(n % 10)]
  }

  /** `${n}` for an integer `n`: a leading '-' exactly when `n` is negative, then the digits of |n|. */
  function IntToDecimal(n: int): (r: string)
    ensures |r| >= 1
    ensures ' ' !in r
    ensures r[0] == '-' <==> n < 0
    ensures n >= 0 ==> IsDigit(r[0]) && IsCanonicalDigits(r)
    ensures n < 0 ==> IsCanonicalDigits(r[1..])
    ensures forall i :: 1 <= i < |r| ==> IsDigit(r[i])
  {
    if n < 0 then "-" + NatToDecimal(-n) else NatToDecimal(n)
  }

  predicate AllDigits(s: string)
  {
    forall i :: 0 <= i < |s| ==> IsDigit(s[i])
  }

  /** Decimal digits as JavaScript writes them: at least one, and no leading zero unless the number is 0. */
  predicate IsCanonicalDigits(t: string)
  {
    |t| >= 1 && AllDigits(t) && (t[0] == '0' ==> |t| == 1)
  }

  /** Reads back a string of decimal digits. */
  function ParseDigits(s: string): nat
    requires AllDigits(s)
  {
    if s == [] then 0 else ParseDigits(s[..|s| - 1]) * 10 + DigitValue(s[|s| - 1])
  }

  /** Reading back the decimal text of `n` gives `n`. */
  lemma {:induction false} NatDecimalRoundTrip(n: nat)
    ensures ParseDigits(NatToDecimal(n)) == n
  {
    var r := NatToDecimal(n);
    if n >= 10 {
      NatDecimalRoundTrip(n / 10);
      assert r[..|r| - 1] == NatToDecimal(n / 10);
    }
  }

  /** `t` is decimal text that reads back as `n`: digits for `n >= 0`, '-' and the digits of `-n` otherwise. */
  predicate IsDecimalOf(t: string, n: int)
  {
    if n >= 0 then IsCanonicalDigits(t) && ParseDigits(t) == n
    else |t| >= 1 && t[0] == '-' && IsCanonicalDigits(t[1..]) && ParseDigits(t[1..]) == -n
  }

  /** `${n}` reads back as `n`: the digits after the sign give |n|. */
  lemma {:induction false} IntDecimalRoundTrip(n: int)
    ensures IsDecimalOf(IntToDecimal(n), n)
  {
    if n < 0 {
      NatDecimalRoundTrip(-n);
      assert IntToDecimal(n)[1..] == NatToDecimal(-n);
    } else {
      NatDecimalRoundTrip(n);
    }
  }

  /** Distinct natural numbers have distinct decimal texts. */
  lemma NatToDecimalInjective(m: nat, n: nat)
    requires NatToDecimal(m) == NatToDecimal(n)
    ensures m == n
  {
    NatDecimalRoundTrip(m);
    NatDecimalRoundTrip(n);
  }

  /** Distinct integers have distinct decimal texts. */
  lemma IntToDecimalInjective(a: int, b: int)
    requires IntToDecimal(a) == IntToDecimal(b)
    ensures a == b
  {
    if a < 0 {
      assert b < 0;
      var sa, sb := "-" + NatToDecimal(-a), "-" + NatToDecimal(-b);
      assert sa[1..] == NatToDecimal(-a);
      assert sb[1..] == NatToDecimal(-b);
      NatToDecimalInjective(-a, -b);
    } else {
      assert b >= 0;
      NatToDecimalInjective(a, b);
    }
  }
}
