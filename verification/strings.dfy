/** The few pieces of Python's string behaviour the storage layer relies on:
    `str()` of an integer, `int()` of a string, the zero-padding loop of the
    row-key codec, `str.find`, `str.split`, `str.join`
    and the lexicographic order `<` on strings (the order of a sorted-row store). */
module Strings {
  import opened Wrappers
  import opened Sequences

  /* ---------------------------------------------------------------- digits */

  predicate IsDigit(c: char) {
    '0' <= c <= '9'
  }

  function DigitChar(d: int): (c: char)
    requires 0 <= d < 10
    ensures IsDigit(c)
  {
    ('0' as int + d) as char
  }

  function DigitValue(c: char): (d: int)
    requires IsDigit(c)
    ensures 0 <= d < 10
  {
    c as int - '0' as int
  }

  predicate AllDigits(s: string) {
    forall k :: 0 <= k < |s| ==> IsDigit(s[k])
  }

  function Pow10(w: nat): (p: nat)
    ensures p >= 1
  {
    if w == 0 then 1 else 10 * Pow10(w - 1)
  }

  /** Python's `str(n)` for a natural number: no leading zeros, "0" for zero. */
  function NatToString(n: nat): (s: string)
    ensures |s| >= 1 && AllDigits(s)
  {
    if n < 10 then [DigitChar(n)] else NatToString(n / 10) + [DigitChar(n % 10)]
  }

  /** Python's `str(i)` for any integer: a leading '-' for negatives. */
  function IntToString(i: int): (s: string)
    ensures |s| >= 1
    ensures i >= 0 <==> AllDigits(s)
    ensures ':' !in s
  {
    if i < 0 then
      var s := "-" + NatToString(-i);
      assert !IsDigit(s[0]);
      s
    else NatToString(i)
  }

  /** The value of a non-empty string of decimal digits, read left to right. */
  function DigitsValue(s: string): nat
    requires AllDigits(s)
  {
    if s == [] then 0 else DigitsValue(s[..|s| - 1]) * 10 + DigitValue(s[|s| - 1])
  }

  /** Python's `int(s)` on an optional sign followed by decimal digits; `None`
      stands for the `ValueError` it raises on anything else. */
  function ParseInt(s: string): Option<int> {
    if |s| > 0 && (s[0] == '-' || s[0] == '+') then
      if |s| > 1 && AllDigits(s[1..]) then
        var v: int := DigitsValue(s[1..]);
        Some(if s[0] == '-' then -v else v)
      else None
    else if |s| > 0 && AllDigits(s) then Some(DigitsValue(s))
    else None
  }

  function Zeros(k: nat): (z: string)
    ensures |z| == k && AllDigits(z)
    ensures forall j :: 0 <= j < k ==> z[j] == '0'
  {
    seq(k, _ => '0')
  }

  /** The codec's padding loop: prepend '0' while the string is shorter than `width`. */
  function ZeroPad(s: string, width: nat): (r: string)
    ensures |s| >= width ==> r == s
    ensures |s| < width ==> r == Zeros(width - |s|) + s
    decreases width - |s|
  {
    if |s| < width then ZeroPad(['0'] + s, width) else s
  }

  /** Python's `s.find(c)`: the first index of `c`, or -1. */
  function Find(s: string, c: char): (i: int)
    ensures -1 <= i < |s|
    ensures i >= 0 ==> s[i] == c && c !in s[..i]
    ensures i == -1 <==> c !in s
  {
    if s == [] then -1
    else if s[0] == c then 0
    else
      var j := Find(s[1..], c);
      assert s[1..][..if j >= 0 then j else 0] == s[1..1 + if j >= 0 then j else 0];
      if j == -1 then -1 else j + 1
  }

  /** Python's `sep.join(parts)` for a one-character separator. */
  function Join(sep: char, parts: seq<string>): string {
    if parts == [] then ""
    else if |parts| == 1 then parts[0]
    else parts[0] + [sep] + Join(sep, parts[1..])
  }

  /** Python's `s.split(sep)` for a one-character separator. */
  function Split(s: string, sep: char): (parts: seq<string>)
    ensures |parts| >= 1
    ensures forall k :: 0 <= k < |parts| ==> sep !in parts[k]
    decreases |s|
  {
    var i := Find(s, sep);
    if i == -1 then [s] else [s[..i]] + Split(s[i + 1..], sep)
  }

  /** Python's `a < b` on strings: lexicographic by code point, a proper
      prefix sorting first. This is the key order of the sorted-row store. */
  predicate LexLess(a: string, b: string) {
    if a == [] then b != []
    else if b == [] then false
    else a[0] < b[0] || (a[0] == b[0] && LexLess(a[1..], b[1..]))
  }

  /* --------------------------------------------------------------- lemmas */

  lemma {:induction false} DigitsValueOfNatToString(n: nat)
    ensures DigitsValue(NatToString(n)) == n
  {
    var s := NatToString(n);
    if n >= 10 {
      DigitsValueOfNatToString(n / 10);
      assert s[..|s| - 1] == NatToString(n / 10);
    }
  }

  lemma {:induction false} DigitsValueLeadingZeros(k: nat, s: string)
    requires AllDigits(s)
    ensures DigitsValue(Zeros(k) + s) == DigitsValue(s)
    decreases |s|
  {
    var t := Zeros(k) + s;
    if s == [] {
      assert t == Zeros(k);
      ZerosValue(k);
    } else {
      assert t[..|t| - 1] == Zeros(k) + s[..|s| - 1];
      DigitsValueLeadingZeros(k, s[..|s| - 1]);
    }
  }

  lemma {:induction false} ZerosValue(k: nat)
    ensures DigitsValue(Zeros(k)) == 0
  {
    if k > 0 {
      assert Zeros(k)[..k - 1] == Zeros(k - 1);
      ZerosValue(k - 1);
    }
  }

  /** `int()` inverts `str()` on every integer. */
  lemma ParseIntToString(i: int)
    ensures ParseInt(IntToString(i)) == Some(i)
  {
    var s := IntToString(i);
    if i < 0 {
      var digits := NatToString(-i);
      assert s == "-" + digits && s[1..] == digits;
      DigitsValueOfNatToString(-i);
      assert ParseInt(s) == Some(0 - DigitsValue(digits) as int);
    } else {
      assert IsDigit(s[0]);
      DigitsValueOfNatToString(i);
      assert ParseInt(s) == Some(DigitsValue(s));
    }
  }

  /** `int()` inverts the zero-padded `str()` of every natural number. */
  lemma ParseIntZeroPadded(n: nat, width: nat)
    ensures ParseInt(ZeroPad(NatToString(n), width)) == Some(n)
  {
    var s := NatToString(n);
    DigitsValueOfNatToString(n);
    if |s| < width {
      DigitsValueLeadingZeros(width - |s|, s);
    }
  }

  /** The decimal representation of `n` in exactly `w` digits. */
  function FixedDigits(n: nat, w: nat): (s: string)
    requires n < Pow10(w)
    ensures |s| == w && AllDigits(s)
  {
    if w == 0 then [] else FixedDigits(n / 10, w - 1) + [DigitChar(n % 10)]
  }

  lemma {:induction false} FixedDigitsOfZero(w: nat)
    ensures FixedDigits(0, w) == Zeros(w)
  {
    if w > 0 {
      FixedDigitsOfZero(w - 1);
    }
  }

  lemma {:induction false} NatToStringLength(n: nat, w: nat)
    requires w >= 1
    ensures n < Pow10(w) <==> |NatToString(n)| <= w
  {
    if n >= 10 {
      if w == 1 {
        assert |NatToString(n)| >= 2 by {
          assert NatToString(n) == NatToString(n / 10) + [DigitChar(n % 10)];
        }
      } else {
        NatToStringLength(n / 10, w - 1);
      }
    } else {
      assert Pow10(w) >= 10 by { Pow10Monotone(1, w); }
    }
  }

  lemma {:induction false} Pow10Monotone(a: nat, b: nat)
    requires a <= b
    ensures Pow10(a) <= Pow10(b)
    decreases b
  {
    if a < b {
      Pow10Monotone(a, b - 1);
    }
  }

  /** Padding `str(n)` to width `w` yields the fixed-width representation. */
  lemma {:induction false} ZeroPadIsFixedDigits(n: nat, w: nat)
    requires w >= 1 && n < Pow10(w)
    ensures ZeroPad(NatToString(n), w) == FixedDigits(n, w)
  {
    NatToStringLength(n, w);
    var s := NatToString(n);
    if n < 10 {
      FixedDigitsOfZero(w - 1);
      assert FixedDigits(n, w) == Zeros(w - 1) + [DigitChar(n)];
    } else {
      assert Pow10(1) == 10;
      ZeroPadIsFixedDigits(n / 10, w - 1);
      var t := NatToString(n / 10);
      NatToStringLength(n / 10, w - 1);
      assert s == t + [DigitChar(n % 10)];
      assert Zeros(w - |s|) + s == (Zeros(w - 1 - |t|) + t) + [DigitChar(n % 10)];
    }
  }

  lemma {:induction false} LexLessAppend(a: string, b: string, c: char, d: char)
    requires |a| == |b|
    ensures LexLess(a + [c], b + [d]) <==> LexLess(a, b) || (a == b && c < d)
    decreases |a|
  {
    if a != [] {
      assert (a + [c])[1..] == a[1..] + [c];
      assert (b + [d])[1..] == b[1..] + [d];
      LexLessAppend(a[1..], b[1..], c, d);
      if a[0] == b[0] && a[1..] == b[1..] {
        assert a == b;
      }
    }
  }

  /** Equal-width decimal strings compare like the numbers they denote. */
  lemma {:induction false} FixedDigitsOrder(a: nat, b: nat, w: nat)
    requires a < Pow10(w) && b < Pow10(w)
    ensures FixedDigits(a, w) == FixedDigits(b, w) <==> a == b
    ensures LexLess(FixedDigits(a, w), FixedDigits(b, w)) <==> a < b
  {
    if w > 0 {
      FixedDigitsOrder(a / 10, b / 10, w - 1);
      LexLessAppend(FixedDigits(a / 10, w - 1), FixedDigits(b / 10, w - 1),
                    DigitChar(a % 10), DigitChar(b % 10));
      var sa := FixedDigits(a, w);
      var sb := FixedDigits(b, w);
      if sa == sb {
        assert sa[w - 1] == sb[w - 1];
        assert sa[..w - 1] == sb[..w - 1];
        assert FixedDigits(a / 10, w - 1) == sa[..w - 1];
        assert FixedDigits(b / 10, w - 1) == sb[..w - 1];
      }
    }
  }

  lemma {:induction false} FindAfterFreePrefix(p: string, sep: char, rest: string)
    requires sep !in p
    ensures Find(p + [sep] + rest, sep) == |p|
  {
    var s := p + [sep] + rest;
    assert s[|p|] == sep;
    assert s[..|p|] == p;
  }

  /** Splitting a separator-free head followed by the separator yields the
      head, then the split of the rest. */
  lemma SplitAfterHead(head: string, sep: char, rest: string)
    requires sep !in head
    ensures Split(head + [sep] + rest, sep) == [head] + Split(rest, sep)
  {
    var s := head + [sep] + rest;
    FindAfterFreePrefix(head, sep, rest);
    assert s[..|head|] == head;
    assert s[|head| + 1..] == rest;
  }

  /** Joining parts free of the separator and splitting again gives the parts back. */
  lemma {:induction false} SplitJoin(parts: seq<string>, sep: char)
    requires |parts| >= 1
    requires forall k :: 0 <= k < |parts| ==> sep !in parts[k]
    ensures Split(Join(sep, parts), sep) == parts
    decreases |parts|
  {
    if |parts| > 1 {
      SplitAfterHead(parts[0], sep, Join(sep, parts[1..]));
      SplitJoin(parts[1..], sep);
      assert parts == [parts[0]] + parts[1..];
    } else {
      assert Find(parts[0], sep) == -1;
    }
  }
}
