/**
 * The C library string comparisons the library leans on: strcmp (the
 * comparators of list.c and linklist.c), and the ASCII case-insensitive
 * comparison of libxml2's xmlStrcasecmp (element and attribute names).  A C
 * string is modelled by the characters before its terminating NUL; only the
 * sign of a comparison is specified by C, so the model returns -1, 0 or 1.
 */
module CString {
  import opened LinkSort

  /** strcmp: the first differing character decides, a proper prefix is smaller. */
  function StrCmp(a: string, b: string): (r: int)
    ensures -1 <= r <= 1
    ensures r == 0 <==> a == b
  {
    if a == [] && b == [] then 0
    else if a == [] then -1
    else if b == [] then 1
    else if a[0] < b[0] then -1
    else if a[0] > b[0] then 1
    else
      assert a == [a[0]] + a[1..] && b == [b[0]] + b[1..];
      StrCmp(a[1..], b[1..])
  }

  /** Swapping the arguments flips the sign. */
  lemma {:induction false} StrCmpAntisymmetric(a: string, b: string)
    ensures StrCmp(a, b) == -StrCmp(b, a)
  {
    if a != [] && b != [] && a[0] == b[0] {
      StrCmpAntisymmetric(a[1..], b[1..]);
    }
  }

  /** strcmp never says a > c when it says a <= b <= c. */
  lemma {:induction false} StrCmpTransitive(a: string, b: string, c: string)
    ensures StrCmp(a, b) <= 0 && StrCmp(b, c) <= 0 ==> StrCmp(a, c) <= 0
  {
    if a != [] && b != [] && c != [] && a[0] == b[0] && b[0] == c[0] {
      StrCmpTransitive(a[1..], b[1..], c[1..]);
    }
  }

  /** strcmp is a comparator in the NodeCompareFunc sense. */
  lemma StrCmpThreeWay()
    ensures ThreeWay(StrCmp)
  {
    forall a, b
      ensures StrCmp(a, b) > 0 <==> StrCmp(b, a) < 0
    {
      StrCmpAntisymmetric(a, b);
    }
    forall a, b, c
      ensures StrCmp(a, b) <= 0 && StrCmp(b, c) <= 0 ==> StrCmp(a, c) <= 0
    {
      StrCmpTransitive(a, b, c);
    }
  }

  /**
   * tolower in the C locale: the result is never an upper-case letter,
   * exactly the upper-case letters change, each into the same letter in
   * lower case, and letters stay letters.
   */
  function ToLower(c: char): (r: char)
    ensures !('A' <= r <= 'Z')
    ensures r != c <==> 'A' <= c <= 'Z'
    ensures 'A' <= c <= 'Z' ==> r as int - 'a' as int == c as int - 'A' as int
    ensures 'a' <= r <= 'z' <==> 'A' <= c <= 'Z' || 'a' <= c <= 'z'
  {
    if 'A' <= c <= 'Z' then (c as int + 32) as char else c
  }

  /** The string folded character by character. */
  function Lower(s: string): (r: string)
    ensures |r| == |s|
  {
    if s == [] then [] else [ToLower(s[0])] + Lower(s[1..])
  }

  /** Folding twice folds no further: a folded string is its own folding. */
  lemma {:induction false} LowerIdempotent(s: string)
    ensures Lower(Lower(s)) == Lower(s)
  {
    if s != [] {
      LowerIdempotent(s[1..]);
      assert Lower(s)[1..] == Lower(s[1..]);
    }
  }

  /** The folded string holds the folded characters, position by position. */
  lemma {:induction false} LowerAt(s: string, i: nat)
    requires i < |s|
    ensures Lower(s)[i] == ToLower(s[i])
  {
    if i > 0 {
      LowerAt(s[1..], i - 1);
    }
  }

  /** xmlStrcasecmp on two present strings: strcmp of the folded characters. */
  function StrCaseCmp(a: string, b: string): (r: int)
    ensures -1 <= r <= 1
    ensures r == 0 <==> Lower(a) == Lower(b)
  {
    if a == [] && b == [] then 0
    else if a == [] then -1
    else if b == [] then 1
    else
      assert Lower(a) == [ToLower(a[0])] + Lower(a[1..]);
      assert Lower(b) == [ToLower(b[0])] + Lower(b[1..]);
      assert Lower(a)[0] == ToLower(a[0]) && Lower(b)[0] == ToLower(b[0]);
      assert Lower(a)[1..] == Lower(a[1..]) && Lower(b)[1..] == Lower(b[1..]);
      if ToLower(a[0]) < ToLower(b[0]) then -1
      else if ToLower(a[0]) > ToLower(b[0]) then 1
      else StrCaseCmp(a[1..], b[1..])
  }

  /** Case-insensitive comparison is comparison of the folded strings. */
  lemma {:induction false} StrCaseCmpIsFoldedStrCmp(a: string, b: string)
    ensures StrCaseCmp(a, b) == StrCmp(Lower(a), Lower(b))
  {
    if a != [] && b != [] {
      assert Lower(a) == [ToLower(a[0])] + Lower(a[1..]);
      assert Lower(b) == [ToLower(b[0])] + Lower(b[1..]);
      StrCaseCmpIsFoldedStrCmp(a[1..], b[1..]);
    }
  }

  /** The C string a NUL-terminated buffer holds: the characters before its first NUL. */
  function CStr(buf: seq<char>): (r: string)
    ensures |r| <= |buf| && r == buf[..|r|]
    ensures forall i :: 0 <= i < |r| ==> r[i] != '\0'
    ensures |r| < |buf| ==> buf[|r|] == '\0'
  {
    if buf == [] || buf[0] == '\0' then [] else [buf[0]] + CStr(buf[1..])
  }

  /** A string without NUL reads back whole. */
  lemma {:induction false} CStrOfPlain(s: string)
    requires forall i :: 0 <= i < |s| ==> s[i] != '\0'
    ensures CStr(s) == s
  {
    if s != [] {
      CStrOfPlain(s[1..]);
      assert s == [s[0]] + s[1..];
    }
  }

  /** Terminating a buffer does not change the string it holds. */
  lemma {:induction false} CStrTerminated(s: seq<char>)
    ensures CStr(s + ['\0']) == CStr(s)
  {
    if s != [] && s[0] != '\0' {
      assert (s + ['\0'])[1..] == s[1..] + ['\0'];
      CStrTerminated(s[1..]);
    }
  }

  /** isspace in the C locale. */
  predicate IsSpace(c: char)
  {
    c == ' ' || c == '\t' || c == '\n' || c == '\U{B}' || c == '\U{C}' || c == '\r'
  }

  predicate IsDigit(c: char)
  {
    '0' <= c <= '9'
  }

  /** The longest run of decimal digits at the front of s. */
  function DigitRun(s: string): (r: string)
    ensures |r| <= |s| && r == s[..|r|]
    ensures forall i :: 0 <= i < |r| ==> IsDigit(r[i])
    ensures |r| < |s| ==> !IsDigit(s[|r|])
  {
    if s == [] || !IsDigit(s[0]) then [] else [s[0]] + DigitRun(s[1..])
  }

  /** The number a run of decimal digits spells, most significant first. */
  function DecValue(d: string): nat
    requires forall i :: 0 <= i < |d| ==> IsDigit(d[i])
  {
    if d == [] then 0
    else
      assert IsDigit(d[|d| - 1]);
      DecValue(d[..|d| - 1]) * 10 + (d[|d| - 1] as int - '0' as int)
  }

  /** The decimal numeral of n, without leading zeros. */
  function Decimal(n: nat): (r: string)
    ensures |r| > 0 && forall i :: 0 <= i < |r| ==> IsDigit(r[i])
    ensures |r| > 1 ==> r[0] != '0'
  {
    if n < 10 then [('0' as int + n) as char]
    else Decimal(n / 10) + [('0' as int + n % 10) as char]
  }

  /** Reading a numeral back gives the number. */
  lemma {:induction false} DecValueOfDecimal(n: nat)
    ensures DecValue(Decimal(n)) == n
  {
    if n >= 10 {
      var d := Decimal(n);
      assert d[..|d| - 1] == Decimal(n / 10);
      DecValueOfDecimal(n / 10);
    }
  }

  /** The digit run of a numeral followed by a non-digit is the numeral. */
  lemma {:induction false} DigitRunOfNumeral(d: string, rest: string)
    requires forall i :: 0 <= i < |d| ==> IsDigit(d[i])
    requires rest == [] || !IsDigit(rest[0])
    ensures DigitRun(d + rest) == d
  {
    if d != [] {
      assert (d + rest)[1..] == d[1..] + rest;
      DigitRunOfNumeral(d[1..], rest);
      assert d == [d[0]] + d[1..];
    }
  }

  /** s without its leading white space. */
  function SkipSpace(s: string): (r: string)
    ensures |r| <= |s| && r == s[|s| - |r|..]
    ensures r == [] || !IsSpace(r[0])
  {
    if s != [] && IsSpace(s[0]) then SkipSpace(s[1..]) else s
  }

  /**
   * atoi: leading white space, an optional sign, then the digits up to the
   * first non-digit; no digits at all read as 0.  The overflow C leaves
   * undefined is not modelled: the value is the mathematical one.
   */
  function Atoi(s: string): (r: int)
    ensures r < 0 ==> SkipSpace(s) != [] && SkipSpace(s)[0] == '-'
    ensures SkipSpace(s) == [] || !(IsDigit(SkipSpace(s)[0]) || SkipSpace(s)[0] == '-' || SkipSpace(s)[0] == '+') ==> r == 0
  {
    var t := SkipSpace(s);
    if t != [] && (t[0] == '-' || t[0] == '+') then
      var v: int := DecValue(DigitRun(t[1..]));
      if t[0] == '-' then -v else v
    else DecValue(DigitRun(t))
  }

  /** atoi of a run of digits is the number it spells. */
  lemma AtoiOfDigits(d: string)
    requires d != [] && forall i :: 0 <= i < |d| ==> IsDigit(d[i])
    ensures Atoi(d) == DecValue(d)
  {
    assert !IsSpace(d[0]) && d[0] != '-' && d[0] != '+';
    assert SkipSpace(d) == d;
    DigitRunOfNumeral(d, []);
    assert d + [] == d;
  }

  /** atoi reads a numeral back. */
  lemma AtoiOfDecimal(n: nat)
    ensures Atoi(Decimal(n)) == n
  {
    AtoiOfDigits(Decimal(n));
    DecValueOfDecimal(n);
  }

  /** atoi reads a minus sign and a numeral back as the negated number. */
  lemma AtoiOfNegated(n: nat)
    ensures Atoi("-" + Decimal(n)) == -(n as int)
  {
    var d := Decimal(n);
    var m := "-" + d;
    assert !IsSpace(m[0]) && m[0] == '-';
    assert SkipSpace(m) == m;
    assert m[1..] == d;
    DigitRunOfNumeral(d, []);
    assert d + [] == d;
    DecValueOfDecimal(n);
  }
}
