/**
 `goodip` (J_IPX800.js:19-24): an IPv4 address with an optional `:port`.

 The pattern is built with `new RegExp('...')` from a string literal. In that
 literal `\.` is an escape that resolves to a plain `.`, so the regular
 expression receives a bare `.`, which matches any UTF-16 code unit other
 than a line terminator. The three "dots" between the octets are therefore wildcards;
 `\\d` in the port group does survive as `\d`. This module models the pattern
 the code actually builds.
 */
module IpAddress {
  import opened Text
  import opened JsString

  /**
   One octet, as the alternatives `25[0-5]|2[0-4][0-9]|[01]?[0-9][0-9]?`
   spell it. The two-character strings of the third alternative
   (`[01][0-9]` or `[0-9][0-9]`) are all two-digit strings.
   */
  predicate OctetPattern(o: string) {
    || (|o| == 3 && o[0] == '2' && o[1] == '5' && '0' <= o[2] <= '5')
    || (|o| == 3 && o[0] == '2' && '0' <= o[1] <= '4' && IsDigit(o[2]))
    || (|o| == 3 && (o[0] == '0' || o[0] == '1') && IsDigit(o[1]) && IsDigit(o[2]))
    || (|o| == 2 && IsDigit(o[0]) && IsDigit(o[1]))
    || (|o| == 1 && IsDigit(o[0]))
  }

  /** `(:\d{1,5})?`: nothing, or a colon and one to five digits (no range check). */
  predicate PortSuffix(p: string) {
    p == [] || (p[0] == ':' && 1 <= |p| - 1 <= 5 && AllDigits(p[1..]))
  }

  /**
   The regular-expression `.`: one UTF-16 code unit that is not a line
   terminator. The pattern has no `u` flag, so a character beyond the Basic
   Multilingual Plane is two code units (a surrogate pair); `.` takes only the
   first, and the second cannot begin an octet. Such a character therefore
   never separates octets.
   */
  predicate IsSeparator(c: char) {
    !IsLineTerminator(c) && (c as int) < 0x1_0000
  }

  /** The pieces an accepted string decomposes into, in order. */
  datatype IpText = IpText(o1: string, c1: char, o2: string, c2: char, o3: string, c3: char, o4: string, port: string)
  {
    function Text(): string {
      o1 + [c1] + o2 + [c2] + o3 + [c3] + o4 + port
    }

    lemma TextNested()
      ensures Text() == o1 + [c1] + (o2 + [c2] + (o3 + [c3] + (o4 + port)))
    {
    }

    predicate WellFormed() {
      && OctetPattern(o1) && OctetPattern(o2) && OctetPattern(o3) && OctetPattern(o4)
      && IsSeparator(c1) && IsSeparator(c2) && IsSeparator(c3)
      && PortSuffix(port)
    }
  }

  /** The language of the pattern: every string some well-formed decomposition spells. */
  ghost predicate IpSpec(s: string) {
    exists t: IpText :: t.WellFormed() && t.Text() == s
  }

  /**
   Backtracking recogniser: `s` starts with `n` more "octet, separator" pairs,
   then a last octet and the optional port. Every octet length 1, 2 or 3 is tried.
   */
  function MatchOctets(s: string, n: nat): bool
    decreases n, 1
  {
    TryOctet(s, 1, n) || TryOctet(s, 2, n) || TryOctet(s, 3, n)
  }

  /** The first octet of `s` is `s[..k]`. */
  function TryOctet(s: string, k: nat, n: nat): bool
    decreases n, 0
  {
    && k <= |s|
    && OctetPattern(s[..k])
    && if n == 0 then PortSuffix(s[k..])
       else k < |s| && IsSeparator(s[k]) && MatchOctets(s[k+1..], n - 1)
  }

  /** A length that `MatchOctets` found to work. */
  function ChosenLength(s: string, n: nat): (k: nat)
    requires MatchOctets(s, n)
    ensures 1 <= k <= 3 && TryOctet(s, k, n)
  {
    if TryOctet(s, 1, n) then 1 else if TryOctet(s, 2, n) then 2 else 3
  }

  /**
   The same search, reading `s` by index from position `i` instead of
   slicing it: `MatchFrom(s, i, n)` is `MatchOctets(s[i..], n)`
   (`MatchFromIsMatchOctets`).
   */
  function MatchFrom(s: string, i: nat, n: nat): bool
    requires i <= |s|
    decreases n, 1
  {
    TryFrom(s, i, 1, n) || TryFrom(s, i, 2, n) || TryFrom(s, i, 3, n)
  }

  function TryFrom(s: string, i: nat, k: nat, n: nat): bool
    requires i <= |s| && 1 <= k <= 3
    decreases n, 0
  {
    && i + k <= |s|
    && OctetAt(s, i, k)
    && if n == 0 then PortFrom(s, i + k)
       else i + k < |s| && IsSeparator(s[i+k]) && MatchFrom(s, i + k + 1, n - 1)
  }

  /** `OctetPattern(s[i..i+k])`, read character by character. */
  predicate OctetAt(s: string, i: nat, k: nat)
    requires 1 <= k <= 3 && i + k <= |s|
  {
    if k == 1 then IsDigit(s[i])
    else if k == 2 then IsDigit(s[i]) && IsDigit(s[i+1])
    else
      || (s[i] == '2' && s[i+1] == '5' && '0' <= s[i+2] <= '5')
      || (s[i] == '2' && '0' <= s[i+1] <= '4' && IsDigit(s[i+2]))
      || ((s[i] == '0' || s[i] == '1') && IsDigit(s[i+1]) && IsDigit(s[i+2]))
  }

  /** `PortSuffix(s[j..])`, read character by character. */
  predicate PortFrom(s: string, j: nat)
    requires j <= |s|
  {
    j == |s| || (s[j] == ':' && 1 <= |s| - j - 1 <= 5 && DigitsFrom(s, j + 1))
  }

  /** `AllDigits(s[j..])`, read character by character. */
  predicate DigitsFrom(s: string, j: nat)
    requires j <= |s|
    decreases |s| - j
  {
    j == |s| || (IsDigit(s[j]) && DigitsFrom(s, j + 1))
  }

  lemma {:induction false} DigitsFromIsAllDigits(s: string, j: nat)
    requires j <= |s|
    ensures DigitsFrom(s, j) <==> AllDigits(s[j..])
    decreases |s| - j
  {
    if j < |s| {
      DigitsFromIsAllDigits(s, j + 1);
      assert s[j..][1..] == s[j+1..];
      assert s[j..][0] == s[j];
      if AllDigits(s[j+1..]) && IsDigit(s[j]) {
        assert forall m :: 1 <= m < |s[j..]| ==> s[j..][m] == s[j+1..][m-1];
      }
    }
  }

  lemma OctetAtIsPattern(s: string, i: nat, k: nat)
    requires 1 <= k <= 3 && i + k <= |s|
    ensures OctetAt(s, i, k) <==> OctetPattern(s[i..][..k])
  {
    var o := s[i..][..k];
    assert |o| == k && forall m :: 0 <= m < k ==> o[m] == s[i+m];
  }

  lemma PortFromIsSuffix(s: string, j: nat)
    requires j <= |s|
    ensures PortFrom(s, j) <==> PortSuffix(s[j..])
  {
    if j < |s| {
      DigitsFromIsAllDigits(s, j + 1);
      assert s[j..][1..] == s[j+1..];
    }
  }

  lemma {:induction false} MatchFromIsMatchOctets(s: string, i: nat, n: nat)
    requires i <= |s|
    ensures MatchFrom(s, i, n) == MatchOctets(s[i..], n)
    decreases n
  {
    if n > 0 {
      if i + 2 <= |s| { MatchFromIsMatchOctets(s, i + 2, n - 1); }
      if i + 3 <= |s| { MatchFromIsMatchOctets(s, i + 3, n - 1); }
      if i + 4 <= |s| { MatchFromIsMatchOctets(s, i + 4, n - 1); }
    }
    TryFromIsTryOctet(s, i, 1, n);
    TryFromIsTryOctet(s, i, 2, n);
    TryFromIsTryOctet(s, i, 3, n);
  }

  lemma TryFromIsTryOctet(s: string, i: nat, k: nat, n: nat)
    requires i <= |s| && 1 <= k <= 3
    requires n > 0 && i + k < |s| ==> MatchFrom(s, i + k + 1, n - 1) == MatchOctets(s[i+k+1..], n - 1)
    ensures TryFrom(s, i, k, n) == TryOctet(s[i..], k, n)
  {
    if i + k <= |s| {
      OctetAtIsPattern(s, i, k);
      var t := s[i..];
      if n == 0 {
        PortFromIsSuffix(s, i + k);
        assert t[k..] == s[i+k..];
      } else if i + k < |s| {
        assert t[k] == s[i+k];
        assert t[k+1..] == s[i+k+1..];
      }
    }
  }

  /** `goodip`: accepts exactly the strings of the pattern's language. */
  function GoodIp(s: string): (r: bool)
    ensures r <==> IpSpec(s)
  {
    MatchFromIsMatchOctets(s, 0, 3);
    assert s[0..] == s;
    MatchOctetsIsSpec(s);
    MatchFrom(s, 0, 3)
  }

  lemma MatchOctetsIsSpec(s: string)
    ensures MatchOctets(s, 3) <==> IpSpec(s)
  {
    if MatchOctets(s, 3) {
      GoodIpSound(s);
    }
    if IpSpec(s) {
      var t: IpText :| t.WellFormed() && t.Text() == s;
      GoodIpComplete(t);
    }
  }

  lemma GoodIpSound(s: string)
    requires MatchOctets(s, 3)
    ensures IpSpec(s)
  {
    var o1, c1, r1 := TakeOctet(s, 3);
    var o2, c2, r2 := TakeOctet(r1, 2);
    var o3, c3, r3 := TakeOctet(r2, 1);
    var o4, port := TakeLastOctet(r3);
    var t := IpText(o1, c1, o2, c2, o3, c3, o4, port);
    TextOfPieces(t, r1, r2, r3, s);
    WitnessIsSpec(t);
  }

  /** Splits off the first octet and separator that `MatchOctets` found. */
  lemma TakeOctet(s: string, n: nat) returns (o: string, c: char, rest: string)
    requires n > 0 && MatchOctets(s, n)
    ensures s == o + [c] + rest
    ensures OctetPattern(o) && IsSeparator(c) && MatchOctets(rest, n - 1)
  {
    var k := ChosenLength(s, n);
    o, c, rest := s[..k], s[k], s[k+1..];
    assert s == s[..k] + [s[k]] + s[k+1..];
  }

  /** Splits the last octet from the optional port. */
  lemma TakeLastOctet(s: string) returns (o: string, port: string)
    requires MatchOctets(s, 0)
    ensures s == o + port && OctetPattern(o) && PortSuffix(port)
  {
    var k := ChosenLength(s, 0);
    o, port := s[..k], s[k..];
    assert s == s[..k] + s[k..];
  }

  lemma TextOfPieces(t: IpText, s1: string, s2: string, s3: string, s: string)
    requires s3 == t.o4 + t.port && s2 == t.o3 + [t.c3] + s3
    requires s1 == t.o2 + [t.c2] + s2 && s == t.o1 + [t.c1] + s1
    ensures t.Text() == s
  {
  }

  lemma WitnessIsSpec(t: IpText)
    requires t.WellFormed()
    ensures IpSpec(t.Text())
  {
  }

  lemma MatchOctetsCons(o: string, c: char, rest: string, n: nat)
    requires OctetPattern(o) && IsSeparator(c) && MatchOctets(rest, n)
    ensures MatchOctets(o + [c] + rest, n + 1)
  {
    var s := o + [c] + rest;
    assert s[..|o|] == o && s[|o|] == c && s[|o|+1..] == rest;
    assert TryOctet(s, |o|, n + 1);
  }

  lemma MatchLastOctet(o: string, port: string)
    requires OctetPattern(o) && PortSuffix(port)
    ensures MatchOctets(o + port, 0)
  {
    var s := o + port;
    assert s[..|o|] == o && s[|o|..] == port;
    assert TryOctet(s, |o|, 0);
  }

  lemma GoodIpComplete(t: IpText)
    requires t.WellFormed()
    ensures MatchOctets(t.Text(), 3)
  {
    MatchLastOctet(t.o4, t.port);
    var r3 := t.o4 + t.port;
    MatchOctetsCons(t.o3, t.c3, r3, 0);
    var r2 := t.o3 + [t.c3] + r3;
    MatchOctetsCons(t.o2, t.c2, r2, 1);
    var r1 := t.o2 + [t.c2] + r2;
    MatchOctetsCons(t.o1, t.c1, r1, 2);
    t.TextNested();
  }

  /** The octet alternatives accept exactly the one- to three-digit strings whose value is at most 255. */
  lemma OctetPatternIsByteValue(o: string)
    ensures OctetPattern(o) <==> (1 <= |o| <= 3 && AllDigits(o) && DecimalValue(o) <= 255)
  {
    if 1 <= |o| <= 3 && AllDigits(o) {
      ThreeDigitValue(o);
    }
  }

  /** The value of a run of one to three digits, digit by digit. */
  lemma ThreeDigitValue(o: string)
    requires 1 <= |o| <= 3 && AllDigits(o)
    ensures |o| == 1 ==> DecimalValue(o) == DigitValue(o[0])
    ensures |o| == 2 ==> DecimalValue(o) == DigitValue(o[0]) * 10 + DigitValue(o[1])
    ensures |o| == 3 ==> DecimalValue(o) == (DigitValue(o[0]) * 10 + DigitValue(o[1])) * 10 + DigitValue(o[2])
  {
    DecimalValueSnoc([], o[0]);
    assert [] + [o[0]] == o[..1];
    if |o| >= 2 {
      DecimalValueSnoc(o[..1], o[1]);
      assert o[..1] + [o[1]] == o[..2];
    }
    if |o| == 3 {
      DecimalValueSnoc(o[..2], o[2]);
      assert o[..2] + [o[2]] == o;
    } else if |o| == 2 {
      assert o[..2] == o;
    } else {
      assert o[..1] == o;
    }
  }

  /**
   What an accepted address guarantees: four octets of one to three digits
   with values in [0, 255], and a port that is absent or one to five digits.
   */
  lemma AcceptedParts(t: IpText)
    requires t.WellFormed()
    ensures forall o :: o in [t.o1, t.o2, t.o3, t.o4] ==> 1 <= |o| <= 3 && AllDigits(o) && DecimalValue(o) <= 255
    ensures t.port == [] || (t.port[0] == ':' && IsDigitRun(t.port[1..]) && |t.port[1..]| <= 5)
  {
    OctetPatternIsByteValue(t.o1);
    OctetPatternIsByteValue(t.o2);
    OctetPatternIsByteValue(t.o3);
    OctetPatternIsByteValue(t.o4);
  }

  /** An accepted string is 7 to 21 characters long and begins and ends with a digit. */
  lemma AcceptedShape(s: string)
    requires GoodIp(s)
    ensures 7 <= |s| <= 21
    ensures IsDigit(s[0]) && IsDigit(s[|s|-1])
  {
    var t: IpText :| t.WellFormed() && t.Text() == s;
    TextShape(t);
  }

  lemma TextShape(t: IpText)
    requires t.WellFormed()
    ensures 7 <= |t.Text()| <= 21
    ensures IsDigit(t.Text()[0]) && IsDigit(t.Text()[|t.Text()|-1])
  {
    var s := t.Text();
    assert s[0] == t.o1[0];
    if t.port == [] {
      assert s[|s|-1] == t.o4[|t.o4|-1];
    } else {
      assert s[|s|-1] == t.port[|t.port|-1];
    }
  }

  /** Any character of the Basic Multilingual Plane but a line terminator separates octets, not only `.`. */
  lemma AnySeparatorAccepted(c1: char, c2: char, c3: char)
    requires IsSeparator(c1) && IsSeparator(c2) && IsSeparator(c3)
    ensures GoodIp("10" + [c1] + "0" + [c2] + "0" + [c3] + "1")
  {
    var t := IpText("10", c1, "0", c2, "0", c3, "1", "");
    assert t.WellFormed();
    assert t.Text() == "10" + [c1] + "0" + [c2] + "0" + [c3] + "1";
  }

  /** Examples of accepted addresses, with and without a port. */
  lemma AcceptDotted()
    ensures GoodIp("192.168.1.1")
  {
    assert MatchFrom("192.168.1.1", 0, 3);
  }

  lemma AcceptWithPort()
    ensures GoodIp("192.168.1.1:8080")
  {
    assert MatchFrom("192.168.1.1:8080", 0, 3);
  }

  /** The port is not range-checked: five digits beyond 65535 pass. */
  lemma AcceptLargePort()
    ensures GoodIp("1.2.3.4:99999")
  {
    assert MatchFrom("1.2.3.4:99999", 0, 3);
  }

  /** Three dot-separated numbers pass, because a digit can stand in for a separator. */
  lemma ThreeNumbersAccepted()
    ensures GoodIp("192.168.1")
  {
    assert MatchFrom("192.168.1", 0, 3);
  }

  lemma RejectEmpty()
    ensures !GoodIp("")
  {
    assert !MatchFrom("", 0, 3);
  }

  lemma RejectLineTerminator()
    ensures !GoodIp("1\n2.3.4")
  {
    assert !MatchFrom("1\n2.3.4", 0, 3);
  }

  /** A character outside the Basic Multilingual Plane does not separate octets. */
  lemma RejectAstralSeparator()
    ensures !GoodIp("1\U{1F600}2.3.4")
  {
    assert !MatchFrom("1\U{1F600}2.3.4", 0, 3);
  }

  lemma Reject256()
    ensures !GoodIp("256.1.1.1")
  {
    assert !MatchFrom("256.1.1.1", 0, 3);
  }

  /** A six-digit port is refused. */
  lemma RejectLongPort()
    ensures !GoodIp("1.2.3.4:123456")
  {
    assert !MatchFrom("1.2.3.4:123456", 0, 3);
  }
}
