/** Numbers as text: printing them in a base, and the parser that guesses the base. */
module NumberText {
  import opened Options

  function DigitChar(d: nat): char
    requires d < 16
  {
    if d < 10 then '0' + d as char else 'a' + (d - 10) as char
  }

  function DigitValue(c: char): Option<nat> {
    if '0' <= c <= '9' then Some((c - '0') as nat)
    else if 'a' <= c <= 'f' then Some((c - 'a') as nat + 10)
    else if 'A' <= c <= 'F' then Some((c - 'A') as nat + 10)
    else None
  }

  // The digits of n, without leading zeros; 0 is one digit.
  function Text(n: nat, base: nat): string
    requires 2 <= base <= 16
  {
    if n < base then [DigitChar(n)] else Text(n / base, base) + [DigitChar(n % base)]
  }

  function Decimal(n: nat): string {
    Text(n, 10)
  }

  function ParseDigits(s: string, base: nat): Option<nat> {
    if s == "" then None
    else
      var d := DigitValue(s[|s| - 1]);
      if d.None? || d.value >= base then None
      else if |s| == 1 then d
      else
        var high := ParseDigits(s[..|s| - 1], base);
        if high.None? then None else Some(high.value * base + d.value)
  }

  // int(s, base) on digits, with the prefix that the base allows.
  function ParseInt(s: string, base: nat): Option<nat> {
    if base == 16 && |s| >= 2 && s[0] == '0' && (s[1] == 'x' || s[1] == 'X') then ParseDigits(s[2..], base)
    else if base == 8 && |s| >= 2 && s[0] == '0' && (s[1] == 'o' || s[1] == 'O') then ParseDigits(s[2..], base)
    else ParseDigits(s, base)
  }

  function ParseNumber(arg: string): Option<nat> {
    if arg == "" || arg[0] == '+' || arg[0] == '-' || arg[0] == '/' then None
    else if "0x" <= arg || "0X" <= arg then ParseInt(arg, 16)
    else if "0" <= arg then ParseInt(arg, 8)
    else ParseInt(arg, 10)
  }

  lemma DigitRoundTrip(d: nat)
    requires d < 16
    ensures DigitValue(DigitChar(d)) == Some(d) && (DigitChar(d) == '0' <==> d == 0)
  {
  }

  lemma DivMod(n: nat, base: nat)
    requires 2 <= base <= 16
    ensures n / base * base + n % base == n && n % base < base
    ensures n >= base ==> 0 < n / base < n
    ensures n < base ==> n % base == n
  {
  }

  lemma TextStep(n: nat, base: nat)
    requires base <= n && 2 <= base <= 16
    ensures n % base < base && 0 < n / base < n
    ensures |Text(n, base)| == |Text(n / base, base)| + 1
    ensures Text(n, base)[..|Text(n / base, base)|] == Text(n / base, base)
    ensures Text(n, base)[|Text(n / base, base)|] == DigitChar(n % base)
  {
    DivMod(n, base);
  }

  lemma ParseStep(s: string, base: nat)
    requires s != "" && base <= 16
    ensures ParseDigits(s, base) ==
            var d := DigitValue(s[|s| - 1]);
            if d.None? || d.value >= base then None
            else if |s| == 1 then d
            else
              var high := ParseDigits(s[..|s| - 1], base);
              if high.None? then None else Some(high.value * base + d.value)
  {
  }

  lemma {:induction false} ParseText(n: nat, base: nat)
    requires 2 <= base <= 16
    ensures Text(n, base) != "" && ParseDigits(Text(n, base), base) == Some(n)
    decreases n
  {
    hide DigitChar, DigitValue, ParseDigits;
    DivMod(n, base);
    DigitRoundTrip(n % base);
    ParseStep(Text(n, base), base);
    if n >= base {
      TextStep(n, base);
      hide Text;
      ParseText(n / base, base);
    }
  }

  lemma {:induction false} LeadingDigit(n: nat, base: nat)
    requires 2 <= base <= 16
    ensures Text(n, base) != "" && DigitValue(Text(n, base)[0]).Some?
    ensures Text(n, base)[0] == '0' <==> n == 0
    ensures n == 0 ==> Text(n, base) == "0"
    ensures |Text(n, base)| > 1 ==> DigitValue(Text(n, base)[1]).Some?
    decreases n
  {
    DivMod(n, base);
    DigitRoundTrip(n % base);
    if n < base {
      DigitRoundTrip(n);
      hide DigitValue;
    } else {
      TextStep(n, base);
      LeadingDigit(n / base, base);
      hide Text, DigitValue, DigitChar;
      var high := Text(n / base, base);
      assert Text(n, base)[0] == Text(n, base)[..|high|][0] == high[0];
      if |high| > 1 { assert Text(n, base)[1] == Text(n, base)[..|high|][1] == high[1]; }
    }
  }

  // Digits, unlike signs, slashes and the letters of a prefix.
  lemma DigitsOnly(c: char)
    requires DigitValue(c).Some?
    ensures c != '+' && c != '-' && c != '/' && c != 'x' && c != 'X' && c != 'o' && c != 'O'
  {
  }

  // Zero-padding an octal number does not change it.
  lemma PaddedDigits(s: string, base: nat)
    requires base >= 2 && ParseDigits(s, base).Some?
    ensures ParseDigits("0" + s, base) == ParseDigits(s, base)
    decreases |s|
  {
    var t := "0" + s;
    assert t[..|t| - 1] == "0" + s[..|s| - 1];
    if |s| > 1 {
      PaddedDigits(s[..|s| - 1], base);
    } else {
      assert s[..|s| - 1] == "" && t[..|t| - 1] == "0";
    }
  }

  lemma ParseDecimal(n: nat)
    ensures ParseNumber(Decimal(n)) == Some(n)
  {
    var t := Text(n, 10);
    ParseText(n, 10);
    LeadingDigit(n, 10);
    DigitsOnly(t[0]);
    hide DigitValue, DigitChar;
    if n == 0 {
      ParseText(0, 8);
      LeadingDigit(0, 8);
    }
    hide Text, ParseDigits;
  }

  lemma ParseOctal(n: nat)
    ensures ParseNumber("0" + Text(n, 8)) == Some(n)
  {
    hide DigitValue, DigitChar, Text, ParseDigits;
    var t := Text(n, 8);
    ParseText(n, 8);
    LeadingDigit(n, 8);
    DigitsOnly(t[0]);
    PaddedDigits(t, 8);
    OctalText(t);
  }

  lemma OctalText(t: string)
    requires t != "" && t[0] != 'x' && t[0] != 'X' && t[0] != 'o' && t[0] != 'O'
    ensures ParseNumber("0" + t) == ParseDigits("0" + t, 8)
  {
    hide ParseDigits;
    var s := "0" + t;
    assert |s| >= 2 && s[0] == '0' && s[1] == t[0];
    HexPrefix(s);
  }

  lemma ParseHex(n: nat)
    ensures ParseNumber("0x" + Text(n, 16)) == Some(n)
  {
    ParseText(n, 16);
    hide DigitValue, DigitChar, Text, ParseDigits;
    assert ("0x" + Text(n, 16))[2..] == Text(n, 16);
  }

  // Text in any of the three notations is read back: plain decimal, octal after a 0 and
  // hexadecimal after 0x. Decimal text never looks like another base, zero included.
  lemma ParsePrinted(n: nat)
    ensures ParseNumber(Decimal(n)) == Some(n)
    ensures ParseNumber("0" + Text(n, 8)) == Some(n)
    ensures ParseNumber("0x" + Text(n, 16)) == Some(n)
  {
    ParseDecimal(n);
    ParseOctal(n);
    ParseHex(n);
  }

  // -------- Which text is a number --------

  // A digit's value is its place among the sixteen digits, in either case.
  lemma DigitPlace(c: char, d: nat)
    ensures DigitValue(c) == Some(d) <==> d < 16 && (c == "0123456789abcdef"[d] || c == "0123456789ABCDEF"[d])
  {
  }

  lemma {:induction false} ParsesDigits(s: string, base: nat)
    requires 2 <= base <= 16
    ensures ParseDigits(s, base).Some? <==> s != "" && forall c | c in s :: DigitValue(c).Some? && DigitValue(c).value < base
    decreases |s|
  {
    hide DigitValue;
    if s != "" {
      var front, last := s[..|s| - 1], s[|s| - 1];
      assert s == front + [last];
      assert forall c :: c in s <==> c in front || c == last;
      ParsesDigits(front, base);
    }
  }

  function UpperChar(c: char): char {
    if 'a' <= c <= 'z' then (c - 'a') + 'A' else c
  }

  function Upper(s: string): string {
    seq(|s|, i requires 0 <= i < |s| => UpperChar(s[i]))
  }

  lemma UpperDigit(c: char)
    ensures DigitValue(UpperChar(c)) == DigitValue(c)
  {
  }

  lemma UpperSlice(s: string, i: nat, j: nat)
    requires i <= j <= |s|
    ensures |Upper(s)| == |s| && Upper(s[i..j]) == Upper(s)[i..j]
    ensures i < |s| ==> Upper(s)[i] == UpperChar(s[i])
  {
  }

  lemma {:induction false} ParseUpper(s: string, base: nat)
    requires base <= 16
    ensures ParseDigits(Upper(s), base) == ParseDigits(s, base)
    decreases |s|
  {
    if s != "" {
      hide ParseDigits, Upper, DigitValue, UpperChar;
      var front, last := s[..|s| - 1], |s| - 1;
      UpperSlice(s, 0, last);
      UpperSlice(s, last, last);
      UpperDigit(s[last]);
      ParseUpper(front, base);
      assert Upper(front) == Upper(s)[..last];
      ParseStep(s, base);
      ParseStep(Upper(s), base);
    } else {
      assert Upper(s) == s;
    }
  }

  lemma ParseIntUpper(s: string, base: nat)
    requires base <= 16
    ensures ParseInt(Upper(s), base) == ParseInt(s, base)
  {
    hide ParseDigits, Upper;
    ParseUpper(s, base);
    UpperSlice(s, 0, |s|);
    if |s| >= 2 {
      UpperSlice(s, 1, |s|);
      UpperSlice(s, 2, |s|);
      assert s[2..|s|] == s[2..] && Upper(s)[2..|s|] == Upper(s)[2..];
      ParseUpper(s[2..], base);
      assert Upper(s)[2..] == Upper(s[2..]);
    }
  }

  lemma PrefixUpper(s: string)
    ensures "0x" <= Upper(s) || "0X" <= Upper(s) <==> "0x" <= s || "0X" <= s
    ensures "0" <= Upper(s) <==> "0" <= s
    ensures s != "" ==> (Upper(s)[0] == '+' <==> s[0] == '+') && (Upper(s)[0] == '-' <==> s[0] == '-') && (Upper(s)[0] == '/' <==> s[0] == '/')
  {
    HexPrefix(s);
    HexPrefix(Upper(s));
    UpperSlice(s, 0, |s|);
    if |s| >= 2 { UpperSlice(s, 1, |s|); }
    hide Upper;
  }

  lemma HexPrefix(s: string)
    ensures "0x" <= s || "0X" <= s <==> |s| >= 2 && s[0] == '0' && (s[1] == 'x' || s[1] == 'X')
    ensures "0" <= s <==> |s| >= 1 && s[0] == '0'
  {
  }

  // Upper case text is the same number, whether in digits or in the prefix.
  lemma CaseDoesNotMatter(s: string)
    ensures ParseNumber(Upper(s)) == ParseNumber(s)
  {
    PrefixUpper(s);
    ParseIntUpper(s, 8);
    ParseIntUpper(s, 10);
    ParseIntUpper(s, 16);
    hide ParseInt, UpperChar;
    assert s == "" <==> Upper(s) == "";
  }

  // Octal text may also have the prefix 0o.
  lemma OctalPrefix(n: nat)
    ensures ParseNumber("0o" + Text(n, 8)) == Some(n)
  {
    ParseText(n, 8);
    hide DigitValue, DigitChar, Text, ParseDigits;
    assert ("0o" + Text(n, 8))[2..] == Text(n, 8);
  }
}
