/** `base64_encode` (RFC 4648 section 4) with its 32-bit accumulator. */
module Base64 {
  import opened Text

  // ---------- The coding by groups ----------

  /** The digit of six bits: the entry of the lookup table. */
  function Digit(v: nat): (c: char)
    requires v < 64
    ensures c != '='
  {
    if v < 26 then ('A' as int + v) as char
    else if v < 52 then ('a' as int + (v - 26)) as char
    else if v < 62 then ('0' as int + (v - 52)) as char
    else if v == 62 then '+' else '/'
  }

  function Quad(a: nat, b: nat, c: nat): (r: string)
    requires a < 256 && b < 256 && c < 256
    ensures |r| == 4
  {
    [Digit(a / 4), Digit(a % 4 * 16 + b / 16), Digit(b % 16 * 4 + c / 64), Digit(c % 64)]
  }

  /** Whole groups of three octets. */
  function Groups(s: string): (r: string)
    requires |s| % 3 == 0 && Octets(s)
    ensures 3 * |r| == 4 * |s|
    decreases |s|
  {
    if s == "" then ""
    else
      var k := |s| - 3;
      Groups(s[..k]) + Quad(s[k] as int, s[k + 1] as int, s[k + 2] as int)
  }

  /** What one or two octets left over give, without padding. */
  function Left(s: string): string
    requires |s| < 3 && Octets(s)
  {
    if |s| == 0 then ""
    else if |s| == 1 then [Digit(s[0] as int / 4), Digit(s[0] as int % 4 * 16)]
    else [Digit(s[0] as int / 4), Digit(s[0] as int % 4 * 16 + s[1] as int / 16), Digit(s[1] as int % 16 * 4)]
  }

  function Padding(n: nat): string { if n % 3 == 0 then "" else if n % 3 == 1 then "==" else "=" }

  function Whole(n: nat): (k: nat)
    ensures k <= n < k + 3 && k % 3 == 0 && n - k == n % 3
  {
    n - n % 3
  }

  function Spelled(done: string, group: string): string
    requires |done| % 3 == 0 && Octets(done) && |group| < 3 && Octets(group)
  {
    Groups(done) + Left(group) + Padding(|group|)
  }

  function Encoded(s: string): string
    requires Octets(s)
  {
    Spelled(s[..Whole(|s|)], s[Whole(|s|)..])
  }

  lemma EncodedLength(s: string)
    requires Octets(s)
    ensures |Encoded(s)| == (|s| + 2) / 3 * 4
  {
    var k := Whole(|s|);
    var groups := k / 3;
    assert |Groups(s[..k])| == 4 * groups;
    hide Groups;
    if |s| == k {
      assert (|s| + 2) / 3 == groups;
    } else {
      assert (|s| + 2) / 3 == groups + 1;
      assert |Left(s[k..]) + Padding(|s| - k)| == 4;
    }
  }

  // ---------- Reading it back ----------

  /** The value of a character in the base64 alphabet of RFC 4648 section 4; others have none. */
  function Value(c: char): (v: Option<nat>)
    ensures v.Some? ==> v.value < 64
  {
    if 'A' <= c <= 'Z' then Some(c as int - 'A' as int)
    else if 'a' <= c <= 'z' then Some(c as int - 'a' as int + 26)
    else if '0' <= c <= '9' then Some(c as int - '0' as int + 52)
    else if c == '+' then Some(62)
    else if c == '/' then Some(63)
    else None
  }

  function First(x: nat, y: nat): nat
    requires x < 64 && y < 64
  {
    x * 4 + y / 16
  }

  function Second(y: nat, z: nat): nat
    requires y < 64 && z < 64
  {
    y % 16 * 16 + z / 4
  }

  function Third(z: nat, w: nat): nat
    requires z < 64 && w < 64
  {
    z % 4 * 64 + w
  }

  /** A group without padding. */
  function Unquad(t: string): Option<string>
    requires |t| == 4
  {
    var x, y, z, w := Value(t[0]), Value(t[1]), Value(t[2]), Value(t[3]);
    if x.None? || y.None? || z.None? || w.None? then None
    else Some([First(x.value, y.value) as char, Second(y.value, z.value) as char, Third(z.value, w.value) as char])
  }

  /** The last group, which may be padded; the bits that nothing uses must be zero. */
  function UnquadLast(t: string): Option<string>
    requires |t| == 4
  {
    if t[3] != '=' then Unquad(t)
    else
      var x, y := Value(t[0]), Value(t[1]);
      if x.None? || y.None? then None
      else if t[2] == '=' then
        if y.value % 16 == 0 then Some([First(x.value, y.value) as char]) else None
      else
        var z := Value(t[2]);
        if z.None? || z.value % 4 != 0 then None
        else Some([First(x.value, y.value) as char, Second(y.value, z.value) as char])
  }

  function DecodedGroups(t: string): Option<string>
    requires |t| % 4 == 0
    decreases |t|
  {
    if t == "" then Some("")
    else
      var k := |t| - 4;
      var before, last := DecodedGroups(t[..k]), Unquad(t[k..]);
      if before.None? || last.None? then None else Some(before.value + last.value)
  }

  /** A strict decoder: whole groups, nothing outside the alphabet, padding only at the end. */
  function Decoded(t: string): Option<string> {
    if |t| % 4 != 0 then None
    else if t == "" then Some("")
    else
      var k := |t| - 4;
      var before, last := DecodedGroups(t[..k]), UnquadLast(t[k..]);
      if before.None? || last.None? then None else Some(before.value + last.value)
  }

  /** The alphabet, listed. */
  predicate Listed(c: char) { Alphanumeric(c) || c == '+' || c == '/' }

  lemma DigitListed(v: nat)
    requires v < 64
    ensures Listed(Digit(v))
  {
    AlphanumericIff(Digit(v));
    hide Alphanumeric;
  }

  lemma ValueListed(c: char)
    ensures Value(c).Some? <==> Listed(c)
  {
    AlphanumericIff(c);
    hide Alphanumeric;
  }

  lemma DigitBack(v: nat)
    requires v < 64
    ensures Value(Digit(v)) == Some(v)
  {
  }

  lemma FirstBack(a: nat, b: nat)
    requires a < 256 && b < 256
    ensures a / 4 < 64 && a % 4 * 16 + b / 16 < 64
    ensures First(a / 4, a % 4 * 16 + b / 16) == a
  {
  }

  lemma SecondBack(a: nat, b: nat, c: nat)
    requires a < 256 && b < 256 && c < 256
    ensures a % 4 * 16 + b / 16 < 64 && b % 16 * 4 + c / 64 < 64
    ensures Second(a % 4 * 16 + b / 16, b % 16 * 4 + c / 64) == b
  {
    var high := b / 16;
    assert (a % 4 * 16 + high) % 16 == high;
    assert (b % 16 * 4 + c / 64) / 4 == b % 16;
  }

  lemma ThirdBack(b: nat, c: nat)
    requires b < 256 && c < 256
    ensures b % 16 * 4 + c / 64 < 64 && Third(b % 16 * 4 + c / 64, c % 64) == c
  {
    assert (b % 16 * 4 + c / 64) % 4 == c / 64;
  }

  lemma UnquadOf(x: nat, y: nat, z: nat, w: nat)
    requires x < 64 && y < 64 && z < 64 && w < 64
    ensures var t := [Digit(x), Digit(y), Digit(z), Digit(w)];
            Unquad(t) == UnquadLast(t) == Some([First(x, y) as char, Second(y, z) as char, Third(z, w) as char])
  {
    DigitBack(x);
    DigitBack(y);
    DigitBack(z);
    DigitBack(w);
    hide Digit;
    hide Value;
    hide First;
    hide Second;
    hide Third;
  }

  lemma QuadBack(a: nat, b: nat, c: nat)
    requires a < 256 && b < 256 && c < 256
    ensures Unquad(Quad(a, b, c)) == UnquadLast(Quad(a, b, c)) == Some([a as char, b as char, c as char])
  {
    hide Digit;
    hide Unquad;
    hide UnquadLast;
    FirstBack(a, b);
    SecondBack(a, b, c);
    ThirdBack(b, c);
    hide First;
    hide Second;
    hide Third;
    var x, y, z, w := a / 4, a % 4 * 16 + b / 16, b % 16 * 4 + c / 64, c % 64;
    assert Quad(a, b, c) == [Digit(x), Digit(y), Digit(z), Digit(w)];
    UnquadOf(x, y, z, w);
  }

  lemma LeftBack(s: string)
    requires 0 < |s| < 3 && Octets(s)
    ensures |Left(s) + Padding(|s|)| == 4 && UnquadLast(Left(s) + Padding(|s|)) == Some(s)
  {
    hide Digit;
    hide Value;
    hide Unquad;
    var a := s[0] as int;
    DigitBack(a / 4);
    if |s| == 1 {
      FirstBack(a, 0);
      hide First;
      hide Second;
      DigitBack(a % 4 * 16);
      Residue(0, a % 4, 0);
      assert a % 4 * 16 % 16 == 0;
      assert Left(s) + Padding(|s|) == [Digit(a / 4), Digit(a % 4 * 16), '=', '='];
      assert s == [a as char];
    } else {
      var b := s[1] as int;
      FirstBack(a, b);
      SecondBack(a, b, 0);
      hide First;
      hide Second;
      DigitBack(a % 4 * 16 + b / 16);
      DigitBack(b % 16 * 4);
      assert b % 16 * 4 % 4 == 0;
      assert Left(s) + Padding(|s|) == [Digit(a / 4), Digit(a % 4 * 16 + b / 16), Digit(b % 16 * 4), '='];
      assert s == [a as char, b as char];
    }
  }

  lemma {:induction false} GroupsBack(s: string)
    requires |s| % 3 == 0 && Octets(s)
    ensures |Groups(s)| % 4 == 0 && DecodedGroups(Groups(s)) == Some(s) == Decoded(Groups(s))
    decreases |s|
  {
    hide Unquad;
    hide UnquadLast;
    hide Quad;
    if s != "" {
      var k := |s| - 3;
      var q := Quad(s[k] as int, s[k + 1] as int, s[k + 2] as int);
      GroupsBack(s[..k]);
      QuadBack(s[k] as int, s[k + 1] as int, s[k + 2] as int);
      Snoc(Groups(s[..k]), q);
      assert s == s[..k] + [s[k], s[k + 1], s[k + 2]];
    }
  }

  lemma Snoc(t: string, q: string)
    requires |t| % 4 == 0 && |q| == 4 && DecodedGroups(t).Some?
    ensures |t + q| % 4 == 0
    ensures Unquad(q).Some? ==> DecodedGroups(t + q) == Some(DecodedGroups(t).value + Unquad(q).value)
    ensures UnquadLast(q).Some? ==> Decoded(t + q) == Some(DecodedGroups(t).value + UnquadLast(q).value)
  {
    FourMore(|t|);
    var u := t + q;
    assert u[..|t|] == t && u[|t|..] == q && u != "" && |u| - 4 == |t|;
    SnocGroups(u);
    SnocLast(u);
  }

  lemma FourMore(n: nat)
    requires n % 4 == 0
    ensures (n + 4) % 4 == 0
  {
  }

  lemma SnocGroups(u: string)
    requires |u| % 4 == 0 && |u| >= 4
    ensures (|u| - 4) % 4 == 0
    ensures var before, last := DecodedGroups(u[..|u| - 4]), Unquad(u[|u| - 4..]);
            DecodedGroups(u) == if before.None? || last.None? then None else Some(before.value + last.value)
  {
    hide Unquad;
  }

  lemma SnocLast(u: string)
    requires |u| % 4 == 0 && |u| >= 4
    ensures (|u| - 4) % 4 == 0
    ensures var before, last := DecodedGroups(u[..|u| - 4]), UnquadLast(u[|u| - 4..]);
            Decoded(u) == if before.None? || last.None? then None else Some(before.value + last.value)
  {
    hide UnquadLast;
    hide DecodedGroups;
  }

  /** Every octet string comes back from a decoder that accepts only the alphabet, padding at the end, and zero bits
      where nothing is coded. */
  lemma Base64RoundTrip(s: string)
    requires Octets(s)
    ensures Decoded(Encoded(s)) == Some(s)
  {
    hide UnquadLast;
    hide Unquad;
    hide Left;
    hide Padding;
    hide Decoded;
    hide DecodedGroups;
    hide Groups;
    var k := Whole(|s|);
    var done, group := s[..k], s[k..];
    assert s == done + group;
    GroupsBack(done);
    if group != "" {
      LeftBack(group);
      AppendAssoc(Groups(done), Left(group), Padding(|group|));
      Snoc(Groups(done), Left(group) + Padding(|group|));
    } else {
      NothingLeft();
      assert |group| == 0 && s == done;
      assert Groups(done) + "" + "" == Groups(done);
    }
  }

  lemma UnquadListed(t: string)
    requires |t| == 4
    ensures Unquad(t).Some? ==> Listed(t[0]) && Listed(t[1]) && Listed(t[2]) && Listed(t[3])
    ensures UnquadLast(t).Some? ==> Listed(t[0]) && Listed(t[1]) && (Listed(t[2]) || t[2] == '=') && (Listed(t[3]) || t[3] == '=')
  {
    ValueListed(t[0]);
    ValueListed(t[1]);
    ValueListed(t[2]);
    ValueListed(t[3]);
    hide Value;
    hide Listed;
    hide First;
    hide Second;
    hide Third;
  }

  ghost predicate AllListed(t: string) {
    forall i :: 0 <= i < |t| ==> Listed(t[i])
  }

  lemma {:induction false} GroupsListed(t: string)
    requires |t| % 4 == 0 && DecodedGroups(t).Some?
    ensures AllListed(t)
    decreases |t|
  {
    hide Unquad;
    hide Listed;
    if t != "" {
      SnocGroups(t);
      hide DecodedGroups;
      var k := |t| - 4;
      GroupsListed(t[..k]);
      UnquadListed(t[k..]);
      assert t == t[..k] + t[k..] && AllListed(t[k..]);
    }
  }

  /** Only the alphabet is written, and padding in the last two places. */
  lemma EncodedListed(s: string)
    requires Octets(s)
    ensures var e := Encoded(s);
            forall i :: 0 <= i < |e| ==> Listed(e[i]) || (i >= |e| - 2 && e[i] == '=')
  {
    Base64RoundTrip(s);
    DecodedListed(Encoded(s));
  }

  lemma DecodedListed(e: string)
    requires Decoded(e).Some?
    ensures forall i :: 0 <= i < |e| ==> Listed(e[i]) || (i >= |e| - 2 && e[i] == '=')
  {
    hide UnquadLast;
    hide Listed;
    if e != "" {
      SnocLast(e);
      hide Decoded;
      var k := |e| - 4;
      GroupsListed(e[..k]);
      UnquadListed(e[k..]);
      hide DecodedGroups;
      LastFour(e);
    }
  }

  lemma LastFour(e: string)
    requires |e| >= 4 && AllListed(e[..|e| - 4])
    requires var q := e[|e| - 4..];
             Listed(q[0]) && Listed(q[1]) && (Listed(q[2]) || q[2] == '=') && (Listed(q[3]) || q[3] == '=')
    ensures forall i :: 0 <= i < |e| ==> Listed(e[i]) || (i >= |e| - 2 && e[i] == '=')
  {
    hide Listed;
    var k := |e| - 4;
    forall i | 0 <= i < |e| ensures Listed(e[i]) || (i >= |e| - 2 && e[i] == '=') {
      if i < k { assert e[..k][i] == e[i]; } else { assert e[k..][i - k] == e[i]; }
    }
  }

  lemma NothingLeft()
    ensures Octets("") && Left("") == "" && Padding(0) == ""
  {
  }

  // ---------- The accumulator ----------

  /** A 32-bit result in two's complement. */
  function Wrap(x: int): int { (x + 0x8000_0000) % 0x1_0000_0000 - 0x8000_0000 }

  /** `(x >> shift) & 0x3F` on a 32-bit number, whose shift copies the sign. */
  function Sextet(x: int, shift: nat): (v: nat)
    requires shift == 0 || shift == 2 || shift == 4 || shift == 6
    ensures v < 64
  {
    (if shift == 0 then x else if shift == 2 then x / 4 else if shift == 4 then x / 16 else x / 64) % 64
  }

  lemma WrapQuotient(x: int) returns (q: int)
    ensures Wrap(x) == x - 0x1_0000_0000 * q
  {
    q := (x + 0x8000_0000) / 0x1_0000_0000;
  }

  lemma DivideBy4(x: int, q: int)
    ensures (x - 0x1_0000_0000 * q) / 4 == x / 4 - 0x4000_0000 * q && (x - 0x1_0000_0000 * q) % 4 == x % 4
  {
    assert x - 0x1_0000_0000 * q == 4 * (x / 4 - 0x4000_0000 * q) + x % 4;
  }

  lemma DivideBy16(x: int, q: int)
    ensures (x - 0x1_0000_0000 * q) / 16 == x / 16 - 0x1000_0000 * q && (x - 0x1_0000_0000 * q) % 16 == x % 16
  {
    assert x - 0x1_0000_0000 * q == 16 * (x / 16 - 0x1000_0000 * q) + x % 16;
  }

  lemma DivideBy64(x: int, q: int)
    ensures (x - 0x1_0000_0000 * q) / 64 == x / 64 - 0x400_0000 * q
  {
    assert x - 0x1_0000_0000 * q == 64 * (x / 64 - 0x400_0000 * q) + x % 64;
  }

  lemma SameSextet(x: int, k: int)
    ensures (x - 64 * k) % 64 == x % 64
  {
    assert x - 64 * k == 64 * (x / 64 - k) + x % 64;
  }

  /** Wrapping changes only bits that are never looked at. */
  lemma WrapHarmless(x: int, shift: nat)
    requires shift == 0 || shift == 2 || shift == 4 || shift == 6
    ensures Sextet(Wrap(x), shift) == Sextet(x, shift)
  {
    var q := WrapQuotient(x);
    hide Wrap;
    if shift == 0 {
      SameSextet(x, 0x400_0000 * q);
    } else if shift == 2 {
      DivideBy4(x, q);
      SameSextet(x / 4, 0x100_0000 * q);
    } else if shift == 4 {
      DivideBy16(x, q);
      SameSextet(x / 16, 0x40_0000 * q);
    } else {
      DivideBy64(x, q);
      SameSextet(x / 64, 0x10_0000 * q);
    }
  }

  lemma WrapAdd(y: int, c: int)
    ensures Wrap(Wrap(y) + c) == Wrap(y + c)
  {
    var q := WrapQuotient(y);
    assert y + c + 0x8000_0000 - 0x1_0000_0000 * q
        == 0x1_0000_0000 * ((y + c + 0x8000_0000) / 0x1_0000_0000 - q) + (y + c + 0x8000_0000) % 0x1_0000_0000;
  }

  lemma Residue(m: int, k: int, r: nat)
    requires r < 64
    ensures (64 * m + r) % 64 == r
    ensures r < 4 ==> (4 * k + r) % 4 == r && (4 * k + r) / 4 == k
    ensures r < 16 ==> (16 * k + r) % 16 == r && (16 * k + r) / 16 == k
    ensures (64 * k + r) / 64 == k
  {
  }

  lemma UnwrappedLow(val: int, c: nat)
    requires c < 256
    ensures var x := val * 256 + c; Sextet(x, 2) == c / 4 && x % 4 == c % 4
  {
    Residue(val, val * 64 + c / 4, c % 4);
    Residue(val, 0, c / 4);
    assert val * 256 + c == 4 * (val * 64 + c / 4) + c % 4;
  }

  lemma UnwrappedMiddle(val: int, c: nat)
    requires c < 256
    ensures var x := val * 256 + c; Sextet(x, 4) == val % 4 * 16 + c / 16 && x % 16 == c % 16
  {
    Residue(0, val * 16 + c / 16, c % 16);
    Residue(val / 4, 0, val % 4 * 16 + c / 16);
    assert val * 256 + c == 16 * (val * 16 + c / 16) + c % 16;
    assert val * 16 + c / 16 == 64 * (val / 4) + (val % 4 * 16 + c / 16);
  }

  lemma UnwrappedHigh(val: int, c: nat)
    requires c < 256
    ensures var x := val * 256 + c; Sextet(x, 6) == val % 16 * 4 + c / 64 && Sextet(x, 0) == c % 64
  {
    Residue(val * 4 + c / 64, val * 4 + c / 64, c % 64);
    Residue(val / 16, 0, val % 16 * 4 + c / 64);
    assert val * 256 + c == 64 * (val * 4 + c / 64) + c % 64;
    assert val * 4 + c / 64 == 64 * (val / 16) + (val % 16 * 4 + c / 64);
  }

  function Pushed(val: int, c: nat): int { Wrap(Wrap(val * 256) + c) }

  /** The digits that an octet completes behind what is pending in the accumulator, and what is pending then. */
  lemma PushedDigits(val: int, c: nat)
    requires c < 256
    ensures var x := Pushed(val, c);
            && Sextet(x, 2) == c / 4 && Sextet(x, 4) == val % 4 * 16 + c / 16
            && Sextet(x, 6) == val % 16 * 4 + c / 64 && Sextet(x, 0) == c % 64
            && x % 4 == c % 4 && x % 16 == c % 16
  {
    WrapAdd(val * 256, c);
    var x := val * 256 + c;
    UnwrappedLow(val, c);
    UnwrappedMiddle(val, c);
    UnwrappedHigh(val, c);
    WrapHarmless(x, 0);
    WrapHarmless(x, 2);
    WrapHarmless(x, 4);
    WrapHarmless(x, 6);
    hide Sextet;
    var q := WrapQuotient(x);
    DivideBy4(x, q);
    DivideBy16(x, q);
  }

  /** The digits already written of a group of which some octets have been read. */
  function Begun(s: string): string
    requires |s| < 3 && Octets(s)
  {
    if |s| == 0 then ""
    else if |s| == 1 then [Digit(s[0] as int / 4)]
    else [Digit(s[0] as int / 4), Digit(s[0] as int % 4 * 16 + s[1] as int / 16)]
  }

  /** What the accumulator still holds of the last octet read. */
  ghost predicate Pending(group: string, val: int) {
    && (|group| == 1 ==> val % 4 == group[0] as int % 4)
    && (|group| == 2 ==> val % 16 == group[1] as int % 16)
  }

  /** What the inner loop writes from a shift count on. */
  function Emitted(val: int, shift: int): string
    requires shift == 2 || shift == 4 || shift == 6
  {
    if shift == 6 then [Digit(Sextet(val, 6)), Digit(Sextet(val, 0))] else [Digit(Sextet(val, shift))]
  }

  method Emit(out0: string, val: int, valb0: int) returns (out: string, valb: int)
    requires valb0 == 2 || valb0 == 4 || valb0 == 6
    ensures out == out0 + Emitted(val, valb0) && valb == (if valb0 == 6 then -6 else valb0 - 6)
  {
    hide Sextet;
    hide Digit;
    out, valb := out0, valb0;
    while valb >= 0
      invariant
        || (valb == valb0 && out == out0)
        || (valb == valb0 - 6 && out == out0 + [Digit(Sextet(val, valb0))])
        || (valb0 == 6 && valb == -6 && out == out0 + Emitted(val, 6))
      decreases valb + 6
    {
      out := out + [Digit(Sextet(val, valb))];
      valb := valb - 6;
    }
  }

  lemma StepInGroup(group: string, c: char, val: int)
    requires |group| < 2 && Octets(group) && IsOctet(c) && Pending(group, val)
    ensures var x := Pushed(val, c as int);
            Pending(group + [c], x) && Begun(group + [c]) == Begun(group) + Emitted(x, 2 + 2 * |group|)
  {
    PushedDigits(val, c as int);
    hide Pushed;
    hide Sextet;
    hide Digit;
  }

  lemma StepEndsGroup(done: string, group: string, c: char, val: int)
    requires |done| % 3 == 0 && Octets(done) && |group| == 2 && Octets(group) && IsOctet(c) && Pending(group, val)
    ensures var x := Pushed(val, c as int);
            Groups(done + group + [c]) == Groups(done) + Begun(group) + Emitted(x, 6)
  {
    PushedDigits(val, c as int);
    hide Pushed;
    hide Sextet;
    hide Digit;
    var all := done + group + [c];
    assert all[..|all| - 3] == done;
    assert all[|all| - 3] == group[0] && all[|all| - 2] == group[1] && all[|all| - 1] == c;
    assert Begun(group) + Emitted(Pushed(val, c as int), 6) == Quad(group[0] as int, group[1] as int, c as int);
    AppendAssoc(Groups(done), Begun(group), Emitted(Pushed(val, c as int), 6));
  }

  /** `(val << 8) + c` */
  method PushOctet(val: int, c: char) returns (x: int)
    requires IsOctet(c)
    ensures x == Pushed(val, c as int) && -0x8000_0000 <= x < 0x8000_0000
  {
    x := Wrap(val * 256);
    x := Wrap(x + c as int);
  }

  /** The input read so far is whole groups and the beginning of one, and so is the output. */
  ghost predicate Progress(input: string, i: nat, done: string, group: string, val: int, out: string) {
    && i <= |input| && input[..i] == done + group && |done| % 3 == 0 && |group| < 3
    && Octets(done) && Octets(group) && Pending(group, val)
    && out == Groups(done) + Begun(group)
  }

  lemma ProgressStep(input: string, i: nat, done: string, group: string, val: int, out: string)
    requires Octets(input) && i < |input| && Progress(input, i, done, group, val, out)
    ensures var c := input[i];
            var x := Pushed(val, c as int);
            if |group| == 2
            then Progress(input, i + 1, done + group + [c], "", x, out + Emitted(x, 6))
            else Progress(input, i + 1, done, group + [c], x, out + Emitted(x, 2 + 2 * |group|))
  {
    hide Groups;
    hide Begun;
    hide Emitted;
    hide Pushed;
    var c := input[i];
    assert input[..i + 1] == input[..i] + [c];
    if |group| == 2 {
      StepEndsGroup(done, group, c, val);
      NothingBegun();
      assert done + group + [c] + "" == done + group + [c];
      assert Groups(done + group + [c]) + "" == Groups(done + group + [c]);
    } else {
      StepInGroup(group, c, val);
      AppendAssoc(Groups(done), Begun(group), Emitted(Pushed(val, c as int), 2 + 2 * |group|));
      AppendAssoc(done, group, [c]);
    }
  }

  lemma StartProgress(input: string)
    ensures Progress(input, 0, "", "", 0, "")
  {
    assert input[..0] == "" + "" == "";
  }

  lemma NothingBegun()
    ensures Begun("") == "" && Groups("") == "" && Octets("")
  {
  }

  method Base64Encode(input: string) returns (out: string)
    requires Octets(input)
    ensures out == Encoded(input)
  {
    hide Emitted;
    hide Pushed;
    hide Encoded;
    hide Progress;
    out := "";
    var val := 0;
    var valb := -6;
    ghost var done, group := "", "";
    StartProgress(input);
    for i := 0 to |input|
      invariant |group| < 3 && valb == -6 + 2 * |group|
      invariant -0x8000_0000 <= val < 0x8000_0000
      invariant Progress(input, i, done, group, val, out)
    {
      ProgressStep(input, i, done, group, val, out);
      val := PushOctet(val, input[i]);
      valb := valb + 8;
      out, valb := Emit(out, val, valb);
      if |group| == 2 { done, group := done + group + [input[i]], ""; } else { group := group + [input[i]]; }
    }
    LastDigit(input, done, group, val, out);
    if valb > -6 {
      out := out + [Digit(Sextet(Wrap(val * 256), valb + 8))];
    }
    while |out| % 4 != 0
      invariant |out| % 4 != 1
      invariant out + PadFor(|out|) == Encoded(input)
      decreases (4 - |out| % 4) % 4
    {
      PadStep(out);
      out := out + "=";
    }
    assert out + "" == out;
  }

  function PadFor(n: nat): string { if n % 4 == 0 then "" else if n % 4 == 2 then "==" else "=" }

  lemma PadStep(out: string)
    requires |out| % 4 == 2 || |out| % 4 == 3
    ensures |out + "="| % 4 != 1 && out + "=" + PadFor(|out| + 1) == out + PadFor(|out|)
  {
    assert |out| % 4 == 2 ==> out + "=" + "=" == out + "==";
    assert |out| % 4 == 3 ==> out + "=" + "" == out + "=";
  }

  lemma WholeOf(a: nat, b: nat)
    requires a % 3 == 0 && b < 3
    ensures Whole(a + b) == a
  {
    var k := a / 3;
    assert a + b == 3 * k + b;
  }

  lemma FourTimes(n: nat, k: nat, r: nat)
    requires 3 * n == 4 * k && k % 3 == 0
    ensures (n + r) % 4 == r % 4
  {
    var m := k / 3;
    assert n == 4 * m;
    assert n + r == 4 * (m + r / 4) + r % 4;
  }

  lemma EncodedIs(done: string, group: string)
    requires |done| % 3 == 0 && |group| < 3 && Octets(done) && Octets(group) && Octets(done + group)
    ensures Encoded(done + group) == Spelled(done, group)
  {
    hide Spelled;
    var s := done + group;
    WholeOf(|done|, |group|);
    hide Whole;
    assert s[..|done|] == done && s[|done|..] == group;
  }

  /** The last digit, when octets are left over, and how much padding is then missing. */
  lemma LastDigit(input: string, done: string, group: string, val: int, out: string)
    requires Octets(input) && Progress(input, |input|, done, group, val, out)
    ensures var digits := if group == "" then out else out + [Digit(Sextet(Wrap(val * 256), 2 + 2 * |group|))];
            |digits| % 4 != 1 && digits + PadFor(|digits|) == Encoded(input)
  {
    hide Encoded;
    hide Groups;
    hide Left;
    hide Begun;
    hide Digit;
    hide Sextet;
    hide Wrap;
    assert input[..|input|] == input;
    EncodedIs(done, group);
    LeftIs(group, val);
    PadIs(done, group);
    if group != "" {
      AppendAssoc(Groups(done), Begun(group), [Digit(Sextet(Wrap(val * 256), 2 + 2 * |group|))]);
    }
  }

  lemma PadIs(done: string, group: string)
    requires |done| % 3 == 0 && Octets(done) && |group| < 3 && Octets(group)
    requires |Left(group)| == if group == "" then 0 else |group| + 1
    ensures var digits := Groups(done) + Left(group);
            |digits| % 4 != 1 && Spelled(done, group) == digits + PadFor(|digits|)
  {
    PadCases(|Groups(done)|, |done|, |Left(group)|, |group|);
    hide Groups;
    hide Left;
    hide PadFor;
    hide Padding;
  }

  lemma PadCases(groups: nat, octets: nat, left: nat, group: nat)
    requires 3 * groups == 4 * octets && octets % 3 == 0
    requires group < 3 && left == if group == 0 then 0 else group + 1
    ensures (groups + left) % 4 != 1 && PadFor(groups + left) == Padding(group)
  {
    FourTimes(groups, octets, left);
  }

  lemma LeftIs(group: string, val: int)
    requires |group| < 3 && Octets(group) && Pending(group, val)
    ensures group == "" ==> Left(group) == "" == Begun(group)
    ensures group != "" ==> Left(group) == Begun(group) + [Digit(Sextet(Wrap(val * 256), 2 + 2 * |group|))]
    ensures |Left(group)| == if group == "" then 0 else |group| + 1
  {
    UnwrappedMiddle(val, 0);
    UnwrappedHigh(val, 0);
    WrapHarmless(val * 256, 4);
    WrapHarmless(val * 256, 6);
    hide Wrap;
    hide Sextet;
    hide Digit;
  }
}
