/** The CONNECT target read back (authority form, section 9.3.6 of RFC 9110). */
module ConnectTarget {
  import opened Bytes
  import opened Text
  import opened Preprocess

  function DigitChar(d: nat): (c: char)
    requires d < 10
    ensures IsDigit(c) && c as int - '0' as int == d
  {
    ('0' as int + d) as char
  }

  function Decimal(n: nat): (s: string)
    ensures s != [] && forall c :: c in s ==> IsDigit(c)
  {
    if n < 10 then [DigitChar(n)] else Decimal(n / 10) + [DigitChar(n % 10)]
  }

  lemma {:induction false} DigitsOfDecimal(n: nat)
    ensures Digits(Decimal(n)) == Some(n)
  {
    var s := Decimal(n);
    if n < 10 {
      assert s[..|s| - 1] == [];
    } else {
      DigitsOfDecimal(n / 10);
      assert s[..|s| - 1] == Decimal(n / 10);
    }
  }

  /** A string of digits is zeros before the decimal form of its value. */
  lemma {:induction false} DecimalOfDigits(s: string) returns (zeros: string)
    requires s != [] && Digits(s).Some?
    ensures AllZero(zeros) && s == zeros + Decimal(Digits(s).value)
    decreases |s|
  {
    var shorter, c := s[..|s| - 1], s[|s| - 1];
    assert s == shorter + [c];
    if shorter == [] {
      zeros := [];
    } else {
      var n := Digits(shorter).value;
      zeros := DecimalOfDigits(shorter);
      if n == 0 {
        zeros := zeros + ['0'];
      }
    }
  }

  lemma {:induction false} DigitsOfZeros(zeros: string, n: nat)
    requires AllZero(zeros)
    ensures Digits(zeros + Decimal(n)) == Some(n)
    decreases n
  {
    var s := zeros + Decimal(n);
    if n < 10 {
      ZerosAreNothing(zeros);
      assert s[..|s| - 1] == zeros;
    } else {
      DigitsOfZeros(zeros, n / 10);
      assert s[..|s| - 1] == zeros + Decimal(n / 10);
    }
  }

  lemma {:induction false} ZerosAreNothing(zeros: string)
    requires AllZero(zeros)
    ensures Digits(zeros) == Some(0)
    decreases |zeros|
  {
    if zeros != [] {
      var shorter := zeros[..|zeros| - 1];
      assert zeros[|zeros| - 1] in zeros;
      assert forall c :: c in shorter ==> c in zeros;
      ZerosAreNothing(shorter);
    }
  }

  predicate AllZero(s: string) {
    forall c :: c in s ==> c == '0'
  }

  /** A port as it may be written: perhaps a plus sign, any leading zeros, and the number in decimal. */
  predicate PortText(s: string, sign: string, zeros: string, n: nat) {
    (sign == "" || sign == "+") && AllZero(zeros) && s == sign + (zeros + Decimal(n))
  }

  /** Just these texts parse, to the number they stand for, and only below 65536. */
  lemma ParseU16Exactly(s: string, n: nat)
    ensures ParseU16(s) == Some(n) <==> n < 65536 && exists sign, zeros :: PortText(s, sign, zeros, n)
  {
    hide Digits, Decimal;
    if ParseU16(s) == Some(n) {
      var sign := if s != [] && s[0] == '+' then "+" else "";
      var digits := s[|sign|..];
      var zeros := DecimalOfDigits(digits);
      assert s == sign + digits;
      assert PortText(s, sign, zeros, n);
    }
    if sign, zeros :| PortText(s, sign, zeros, n) {
      DigitsOfZeros(zeros, n);
      var digits := zeros + Decimal(n);
      DigitsAreDigits(digits);
      assert digits != [] && IsDigit(digits[0]);
      if sign == "+" {
        assert s[1..] == digits;
      } else {
        assert s == digits;
      }
    }
  }

  lemma DigitsAreDigits(s: string)
    requires Digits(s).Some?
    ensures forall i :: 0 <= i < |s| ==> IsDigit(s[i])
  {
  }

  /** A target is its host and the text between its first two colons as the port, 443 if it has none. */
  lemma TargetExactly(host: string, portText: string, more: string)
    requires ':' !in host && ':' !in portText && (more == [] || more[0] == ':')
    ensures ParseTarget(host + ":" + portText + more)
      == match ParseU16(portText) case None => None case Some(port) => Some((host, port))
    ensures ParseTarget(host) == Some((host, 443))
  {
    hide ParseU16, Split;
    HttpsPort();
    NoColonSplit(host);
    TargetParts(host, portText, more);
  }

  lemma TargetParts(host: string, portText: string, more: string)
    requires ':' !in host && ':' !in portText && (more == [] || more[0] == ':')
    ensures var parts := Split(host + ":" + portText + more, ':');
      |parts| >= 2 && parts[0] == host && parts[1] == portText
  {
    hide Split;
    ConcatAssociative(host + ":", portText, more);
    SplitCons(host, ':', portText + more);
    if more == [] {
      NoColonSplit(portText);
      assert portText + more == portText;
    } else {
      SplitCons(portText, ':', more[1..]);
      assert portText + more == portText + [':'] + more[1..];
    }
  }

  lemma PortOfDecimal(port: nat)
    requires port < TWO_TO_THE_16
    ensures ParseU16(Decimal(port)) == Some(port)
  {
    DigitsOfDecimal(port);
    assert Decimal(port)[0] in Decimal(port);
  }

  function RequestFor(host: string, port: nat, rest: string): string {
    ("CONNECT " + (host + [':'] + Decimal(port)) + " HTTP/1.1") + CRLF + rest
  }

  lemma RequestForWords(host: string, port: nat, rest: string)
    requires NoSpace(host)
    ensures RequestWords(RequestFor(host, port, rest)) == ["CONNECT", host + [':'] + Decimal(port), "HTTP/1.1"]
  {
    hide Words, Lines, Decimal;
    var target := host + [':'] + Decimal(port);
    var line := "CONNECT " + target + " HTTP/1.1";
    DecimalNoSpace(port);
    assert NoSpace(target);
    assert OneLine(line);
    LinesCons(line, rest);
    WordsOfWord("CONNECT");
    WordsOfWord(target);
    WordsOfWord("HTTP/1.1");
    assert line == "CONNECT" + ([' '] + (target + ([' '] + "HTTP/1.1")));
    WordsConcat("CONNECT", [' '] + (target + ([' '] + "HTTP/1.1")));
    LeadingSpace(' ', target + ([' '] + "HTTP/1.1"));
    WordsConcat(target, [' '] + "HTTP/1.1");
    LeadingSpace(' ', "HTTP/1.1");
  }

  lemma DecimalNoSpace(n: nat)
    ensures NoSpace(Decimal(n)) && ':' !in Decimal(n)
  {
  }

  /**
    A well-formed CONNECT request gives back the host and port it was written for exactly when the
    host has no colon; an IPv6 literal never comes back whole.
   */
  lemma TargetRoundTripExactly(host: string, port: nat, rest: string)
    requires NoSpace(host) && port < TWO_TO_THE_16
    ensures ParseConnectTarget(RequestFor(host, port, rest)) == Some((host, port)) <==> ':' !in host
  {
    hide Words, Lines, ParseU16, RequestFor, Decimal;
    RequestForWords(host, port, rest);
    TargetFromWords(RequestFor(host, port, rest));
    var target := host + [':'] + Decimal(port);
    if ':' !in host {
      PortOfDecimal(port);
      DecimalNoSpace(port);
      SplitCons(host, ':', Decimal(port));
      NoColonSplit(Decimal(port));
    } else {
      assert Split(target, ':')[0] in Split(target, ':');
    }
  }

  lemma NoColonSplit(s: string)
    requires ':' !in s
    ensures Split(s, ':') == [s]
  {
    assert forall i :: 0 <= i < |s| ==> s[i] in s;
  }

  /** A target without a colon is taken with the port of https. */
  lemma MissingPortIs443(host: string, rest: string)
    requires host != [] && NoSpace(host) && ':' !in host
    ensures ParseConnectTarget("CONNECT " + host + CRLF + rest) == Some((host, 443))
  {
    hide Words, Lines, ParseU16;
    var line := "CONNECT " + host;
    assert OneLine(line);
    LinesCons(line, rest);
    WordsOfWord("CONNECT");
    WordsOfWord(host);
    assert line == "CONNECT" + ([' '] + host);
    WordsConcat("CONNECT", [' '] + host);
    LeadingSpace(' ', host);
    NoColonSplit(host);
    HttpsPort();
  }

  lemma HttpsPort()
    ensures ParseU16("443") == Some(443)
  {
    assert "443"[..2] == "44" && "44"[..1] == "4" && "4"[..0] == "";
    assert Digits("4") == Some(4);
    assert Digits("44") == Some(44);
  }
}
