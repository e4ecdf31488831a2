/** Numbers as text: `from_i_to_hex`, `std::to_string`, `strtoul` with base 16 and `stoll` on digits. */
module Numbers {

  const U64_MAX: nat := 0xFFFF_FFFF_FFFF_FFFF

  newtype u64 = x: int | 0 <= x <= 0xFFFF_FFFF_FFFF_FFFF

  // ---------- Hexadecimal ----------

  predicate IsHexDigit(c: char) {
    '0' <= c <= '9' || 'a' <= c <= 'f' || 'A' <= c <= 'F'
  }

  function HexDigitValue(c: char): (v: nat)
    requires IsHexDigit(c)
    ensures v < 16
  {
    if '0' <= c <= '9' then c as int - '0' as int
    else if 'a' <= c <= 'f' then c as int - 'a' as int + 10
    else c as int - 'A' as int + 10
  }

  function HexDigit(v: nat): (c: char)
    requires v < 16
    ensures IsHexDigit(c) && HexDigitValue(c) == v
    ensures v > 0 ==> c != '0'
    ensures c != 'x' && c != 'X' && !('A' <= c <= 'F')
  {
    if v < 10 then ('0' as int + v) as char else ('a' as int + (v - 10)) as char
  }

  predicate AllHex(s: string) { forall i :: 0 <= i < |s| ==> IsHexDigit(s[i]) }

  function HexValue(s: string): nat
    requires AllHex(s)
  {
    if s == "" then 0 else 16 * HexValue(s[..|s| - 1]) + HexDigitValue(s[|s| - 1])
  }

  /** Lower-case hexadecimal without leading zeros. */
  function HexText(n: nat): (s: string)
    ensures s != "" && AllHex(s)
  {
    if n < 16 then [HexDigit(n)] else HexText(n / 16) + [HexDigit(n % 16)]
  }

  lemma {:induction false} HexTextValue(n: nat)
    ensures HexValue(HexText(n)) == n
    ensures n > 0 ==> HexText(n)[0] != '0'
  {
    var s := HexText(n);
    if n < 16 {
      assert s[..0] == "";
    } else {
      HexTextValue(n / 16);
      assert s[..|s| - 1] == HexText(n / 16);
    }
  }

  /** `from_i_to_hex`: digits are put in front, least significant first. */
  method FromIToHex(n0: u64) returns (ret: string)
    ensures ret == HexText(n0 as nat)
  {
    var n := n0;
    ret := [HexDigit((n % 16) as nat)];
    n := n / 16;
    while n > 0
      invariant HexText(n0 as nat) == if n > 0 then HexText(n as nat) + ret else ret
    {
      ret := [HexDigit((n % 16) as nat)] + ret;
      n := n / 16;
    }
  }

  // ---------- strtoul(_, _, 16) ----------

  predicate IsSpace(c: char) {
    c == ' ' || c == '\t' || c == '\n' || c == '\r' || c == '\U{000B}' || c == '\U{000C}'
  }

  /** The white space of the C locale: the blank and the octets 9 to 13. */
  lemma SpaceIff(c: char)
    ensures IsSpace(c) <==> c as int == 32 || 9 <= c as int <= 13
  {
  }

  function SkipSpace(s: string, i: nat): (k: nat)
    requires i <= |s|
    ensures i <= k <= |s|
    decreases |s| - i
  {
    if i < |s| && IsSpace(s[i]) then SkipSpace(s, i + 1) else i
  }

  /** End of the run of hexadecimal digits that starts at `i`. */
  function HexEnd(s: string, i: nat): (k: nat)
    requires i <= |s|
    ensures i <= k <= |s|
    ensures forall j :: i <= j < k ==> IsHexDigit(s[j])
    ensures k < |s| ==> !IsHexDigit(s[k])
    decreases |s| - i
  {
    if i < |s| && IsHexDigit(s[i]) then HexEnd(s, i + 1) else i
  }

  lemma HexEndIs(s: string, i: nat, k: nat)
    requires i <= k <= |s| && (k < |s| ==> !IsHexDigit(s[k]))
    requires forall j :: i <= j < k ==> IsHexDigit(s[j])
    ensures HexEnd(s, i) == k
  {
  }

  datatype Parsed = Parsed(value: nat, used: nat)

  /** Value and number of octets used; nothing is used when there is no digit. The value saturates, and a minus sign
      negates it modulo 2^64. */
  function Strtoul16(s: string): (r: Parsed)
    ensures r.value <= U64_MAX && r.used <= |s|
  {
    var i := SkipSpace(s, 0);
    var negative := i < |s| && s[i] == '-';
    var j := if negative || (i < |s| && s[i] == '+') then i + 1 else i;
    var p := if j + 2 < |s| && s[j] == '0' && (s[j + 1] == 'x' || s[j + 1] == 'X') && IsHexDigit(s[j + 2])
             then j + 2 else j;
    var e := HexEnd(s, p);
    if e == p then Parsed(0, 0)
    else
      assert forall j :: 0 <= j < e - p ==> s[p..e][j] == s[p + j];
      var v := HexValue(s[p..e]);
      if v > U64_MAX then Parsed(U64_MAX, e)
      else if negative && v > 0 then Parsed(U64_MAX + 1 - v, e)
      else Parsed(v, e)
  }

  /** `strtoul` reads back what `from_i_to_hex` wrote, up to the first octet that is no hexadecimal digit. */
  lemma StrtoulOfHexText(n: nat, rest: string)
    requires n <= U64_MAX
    requires rest != "" ==> !IsHexDigit(rest[0]) && rest[0] != 'x' && rest[0] != 'X'
    ensures Strtoul16(HexText(n) + rest) == Parsed(n, |HexText(n)|)
  {
    hide HexText;
    hide HexValue;
    HexTextValue(n);
    var t := HexText(n);
    var s := t + rest;
    assert s[0] == t[0] && IsHexDigit(s[0]);
    assert SkipSpace(s, 0) == 0;
    assert |t| > 1 ==> s[1] == t[1];
    assert forall j :: 0 <= j < |t| ==> s[j] == t[j];
    HexEndIs(s, 0, |t|);
    assert s[0..|t|] == t;
  }

  function AtMost64(v: nat, negative: bool): nat {
    if v > U64_MAX then U64_MAX else if negative && v > 0 then U64_MAX + 1 - v else v
  }

  lemma SkipSpaceIs(s: string, i: nat, k: nat)
    requires i <= k <= |s| && (k < |s| ==> !IsSpace(s[k])) && forall j :: i <= j < k ==> IsSpace(s[j])
    ensures SkipSpace(s, i) == k
    decreases k - i
  {
    if i < k { SkipSpaceIs(s, i + 1, k); }
  }

  /** Blanks, a sign, a prefix and digits: all that `strtoul` reads, up to the first octet that is no digit. */
  lemma StrtoulReads(blanks: string, sign: string, prefix: string, digits: string, rest: string)
    requires NumberText(blanks, sign, prefix, digits, rest)
    ensures Strtoul16(blanks + sign + prefix + digits + rest) ==
            Parsed(AtMost64(HexValue(digits), sign == "-"), |blanks| + |sign| + |prefix| + |digits|)
  {
    hide HexValue;
    hide Strtoul16;
    SpelledOut(blanks, sign, prefix, digits, rest);
    StrtoulSpelled(blanks + sign + prefix + digits + rest, blanks, sign, prefix, digits, rest);
  }

  /** `s` consists of these texts, octet by octet. */
  ghost predicate Spelled(s: string, blanks: string, sign: string, prefix: string, digits: string, rest: string) {
    var i := |blanks|;
    var j := i + |sign|;
    var p := j + |prefix|;
    var e := p + |digits|;
    && |s| == e + |rest| && s[p..e] == digits
    && (forall k :: 0 <= k < i ==> s[k] == blanks[k])
    && (forall k :: i <= k < j ==> s[k] == sign[k - i])
    && (forall k :: j <= k < p ==> s[k] == prefix[k - j])
    && (forall k :: p <= k < e ==> s[k] == digits[k - p])
    && (forall k :: e <= k < |s| ==> s[k] == rest[k - e])
  }

  lemma SpelledOut(blanks: string, sign: string, prefix: string, digits: string, rest: string)
    ensures Spelled(blanks + sign + prefix + digits + rest, blanks, sign, prefix, digits, rest)
  {
  }

  /** The texts are what `strtoul` reads: blanks, a sign, a prefix, digits, and no further digit. */
  ghost predicate NumberText(blanks: string, sign: string, prefix: string, digits: string, rest: string) {
    && (forall i :: 0 <= i < |blanks| ==> IsSpace(blanks[i]))
    && (sign == "" || sign == "+" || sign == "-")
    && (prefix == "" || prefix == "0x" || prefix == "0X")
    && digits != "" && AllHex(digits) && (rest != "" ==> !IsHexDigit(rest[0]))
    && (prefix == "" && digits == "0" && |rest| > 1 ==> (rest[0] != 'x' && rest[0] != 'X') || !IsHexDigit(rest[1]))
  }

  lemma DigitsPlace(s: string, blanks: string, sign: string, prefix: string, digits: string, rest: string)
    requires Spelled(s, blanks, sign, prefix, digits, rest) && NumberText(blanks, sign, prefix, digits, rest)
    ensures var p := |blanks| + |sign| + |prefix|;
            var e := p + |digits|;
            p < e <= |s| && (forall k :: p <= k < e ==> IsHexDigit(s[k])) && (e < |s| ==> !IsHexDigit(s[e]))
  {
    hide IsHexDigit;
    var e := |blanks| + |sign| + |prefix| + |digits|;
    if e < |s| { assert s[e] == rest[0]; }
  }

  lemma SignPlace(s: string, blanks: string, sign: string, prefix: string, digits: string, rest: string)
    requires Spelled(s, blanks, sign, prefix, digits, rest) && NumberText(blanks, sign, prefix, digits, rest)
    ensures var i := |blanks|;
            && i < |s| && !IsSpace(s[i]) && (forall k :: 0 <= k < i ==> IsSpace(s[k]))
            && (if s[i] == '+' || s[i] == '-' then |sign| == 1 else |sign| == 0)
            && (s[i] == '-' <==> sign == "-")
  {
    var i := |blanks|;
    if sign != "" {
      assert s[i] == sign[0];
    } else if prefix != "" {
      assert s[i] == prefix[0];
    } else {
      assert s[i] == digits[0] && IsHexDigit(digits[0]);
    }
  }

  lemma PrefixPlace(s: string, blanks: string, sign: string, prefix: string, digits: string, rest: string)
    requires Spelled(s, blanks, sign, prefix, digits, rest) && NumberText(blanks, sign, prefix, digits, rest)
    ensures var j := |blanks| + |sign|;
            || (|prefix| == 2 && s[j] == '0' && (s[j + 1] == 'x' || s[j + 1] == 'X'))
            || (|prefix| == 0 && (s[j] != '0' || j + 2 >= |s| || (s[j + 1] != 'x' && s[j + 1] != 'X') || !IsHexDigit(s[j + 2])))
  {
    var j := |blanks| + |sign|;
    if prefix != "" {
      assert s[j] == prefix[0] && s[j + 1] == prefix[1];
    } else if s[j] == '0' && j + 2 < |s| {
      assert digits[0] == '0';
      if |digits| > 1 {
        assert s[j + 1] == digits[1] && IsHexDigit(digits[1]);
      } else {
        assert digits == "0" && s[j + 1] == rest[0] && s[j + 2] == rest[1];
      }
    }
  }

  lemma StrtoulSpelled(s: string, blanks: string, sign: string, prefix: string, digits: string, rest: string)
    requires Spelled(s, blanks, sign, prefix, digits, rest) && NumberText(blanks, sign, prefix, digits, rest)
    ensures Strtoul16(s) == Parsed(AtMost64(HexValue(digits), sign == "-"), |blanks| + |sign| + |prefix| + |digits|)
  {
    hide HexValue;
    hide Strtoul16;
    var i := |blanks|;
    var j := i + |sign|;
    var p := j + |prefix|;
    var e := p + |digits|;
    DigitsPlace(s, blanks, sign, prefix, digits, rest);
    SignPlace(s, blanks, sign, prefix, digits, rest);
    PrefixPlace(s, blanks, sign, prefix, digits, rest);
    assert s[p..e] == digits;
    hide NumberText;
    hide Spelled;
    SkipSpaceIs(s, 0, i);
    StrtoulAt(s, i, j, p, e);
  }

  /** The same by positions: `i` behind the blanks, `j` behind the sign, `p` behind the prefix and `e` behind the digits. */
  lemma StrtoulAt(s: string, i: nat, j: nat, p: nat, e: nat)
    requires i <= j <= p < e <= |s| && SkipSpace(s, 0) == i
    requires if s[i] == '+' || s[i] == '-' then j == i + 1 else j == i
    requires || (p == j + 2 && s[j] == '0' && (s[j + 1] == 'x' || s[j + 1] == 'X'))
             || (p == j && (s[j] != '0' || j + 2 >= |s| || (s[j + 1] != 'x' && s[j + 1] != 'X') || !IsHexDigit(s[j + 2])))
    requires (forall k :: p <= k < e ==> IsHexDigit(s[k])) && (e < |s| ==> !IsHexDigit(s[e]))
    ensures Strtoul16(s) == Parsed(AtMost64(HexValue(s[p..e]), s[i] == '-'), e)
  {
    hide HexValue;
    HexEndIs(s, p, e);
    hide HexEnd;
  }

  // ---------- Decimal ----------

  predicate IsDigit(c: char) { '0' <= c <= '9' }

  predicate AllDigits(s: string) { forall i :: 0 <= i < |s| ==> IsDigit(s[i]) }

  function DigitValue(c: char): (v: nat)
    requires IsDigit(c)
    ensures v < 10
  {
    c as int - '0' as int
  }

  function Digit(v: nat): (c: char)
    requires v < 10
    ensures IsDigit(c) && DigitValue(c) == v
  {
    ('0' as int + v) as char
  }

  function DecValue(s: string): nat
    requires AllDigits(s)
  {
    if s == "" then 0 else 10 * DecValue(s[..|s| - 1]) + DigitValue(s[|s| - 1])
  }

  /** `std::to_string` of a number that is not negative. */
  function DecText(n: nat): (s: string)
    ensures s != "" && AllDigits(s)
  {
    if n < 10 then [Digit(n)] else DecText(n / 10) + [Digit(n % 10)]
  }

  /** `std::to_string` */
  function ToString(n: int): string {
    if n < 0 then "-" + DecText(-n) else DecText(n)
  }

  lemma {:induction false} DecTextValue(n: nat)
    ensures DecValue(DecText(n)) == n
    ensures n > 0 ==> DecText(n)[0] != '0'
    ensures n == 0 ==> DecText(n) == "0"
  {
    var s := DecText(n);
    if n < 10 {
      assert s[..0] == "";
    } else {
      DecTextValue(n / 10);
      assert s[..|s| - 1] == DecText(n / 10);
    }
  }
}
