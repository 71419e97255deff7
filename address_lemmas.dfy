/**
 * Properties of tryParseAddress: the printed form of an IPv4 address and
 * port reads back as that address, the order in which errors are
 * reported, and how pieces beyond the last two are treated.
 */
module AddressLemmas {
  import opened Ints
  import opened Wrappers
  import opened Text
  import opened InetText
  import opened NetworkAddress

  /** The "a.b.c.d:port" form of an IPv4 socket address. */
  function FormatV4(b: Bytes4, port: uint16): string
  {
    FormatIPv4(b) + ":" + DecimalText(port)
  }

  /** Text without a NUL is what inet_pton sees of it. */
  lemma CStringOfPlain(s: string)
    requires '\0' !in s
    ensures CString(s) == s
  {
  }

  /** strtoul reads a numeral as its value, saturating at ULONG_MAX. */
  lemma StrToULOfDigits(d: string)
    requires |d| > 0 && AllDigits(d)
    ensures StrToUL(d) == if DecimalValue(d) > ULONG_MAX then ULONG_MAX else DecimalValue(d)
  {
    UnsignedStart(d);
    DigitsPrefixOfDigits(d);
    assert LeadingDecimal(d) == DecimalValue(d);
  }

  /** A numeral has no leading white space and no sign. */
  lemma UnsignedStart(d: string)
    requires |d| > 0 && AllDigits(d)
    ensures TrimStart(d) == d && d[0] != '+' && d[0] != '-'
  {
    assert IsDigit(d[0]);
  }

  lemma StrToULOfDecimal(n: nat)
    requires n <= ULONG_MAX
    ensures StrToUL(DecimalText(n)) == n
  {
    StrToULOfDigits(DecimalText(n));
    DecimalRoundTrip(n);
  }

  /** Leading white space in front of text that starts with something else is dropped whole. */
  lemma {:induction false} TrimStartOver(ws: string, t: string)
    requires forall i :: 0 <= i < |ws| ==> IsSpace(ws[i])
    requires t == [] || !IsSpace(t[0])
    ensures TrimStart(ws + t) == t
    decreases |ws|
  {
    if |ws| > 0 {
      assert (ws + t)[0] == ws[0];
      assert (ws + t)[1..] == ws[1..] + t;
      TrimStartOver(ws[1..], t);
    } else {
      assert ws + t == t;
    }
  }

  /** The digit run strtoul reads stops at the first character that is no digit. */
  lemma {:induction false} DigitsPrefixOver(digits: string, rest: string)
    requires AllDigits(digits)
    requires rest == [] || !IsDigit(rest[0])
    ensures DigitsPrefix(digits + rest) == digits
    decreases |digits|
  {
    if |digits| > 0 {
      assert (digits + rest)[0] == digits[0];
      assert (digits + rest)[1..] == digits[1..] + rest;
      DigitsPrefixOver(digits[1..], rest);
      assert [digits[0]] + digits[1..] == digits;
    } else {
      assert digits + rest == rest;
    }
  }

  /**
   * strtoul(s, nullptr, 10) on white space, an optional sign, a run of
   * digits and anything that does not continue the run: the digits' value,
   * ULONG_MAX when that is out of range, and for a minus sign the value
   * negated modulo 2^64.
   */
  lemma StrToULValue(ws: string, sign: string, digits: string, rest: string)
    requires forall i :: 0 <= i < |ws| ==> IsSpace(ws[i])
    requires sign == "" || sign == "+" || sign == "-"
    requires |sign| + |digits| > 0 && AllDigits(digits)
    requires rest == [] || !IsDigit(rest[0])
    ensures StrToUL(ws + sign + digits + rest) ==
      var v := DecimalValue(digits);
      if v > ULONG_MAX then ULONG_MAX
      else if sign == "-" then (ULONG_MAX + 1 - v) % (ULONG_MAX + 1)
      else v
  {
    Regroup(ws, sign, digits, rest);
    if sign == "" {
      assert sign + (digits + rest) == digits + rest;
      UnsignedRun(ws, digits, rest);
    } else {
      SignedRun(ws, sign, digits, rest);
    }
  }

  /**
   * strtoul's no-conversion case: after the white space comes neither a sign
   * nor a digit (or nothing at all), so nothing is read and the value is 0.
   */
  lemma StrToULNoDigits(ws: string, rest: string)
    requires forall i :: 0 <= i < |ws| ==> IsSpace(ws[i])
    requires rest == [] || (!IsSpace(rest[0]) && !IsDigit(rest[0]) && rest[0] != '+' && rest[0] != '-')
    ensures StrToUL(ws + rest) == 0
  {
    TrimStartOver(ws, rest);
  }

  /** StrToULValue without a sign. */
  lemma UnsignedRun(ws: string, digits: string, rest: string)
    requires forall i :: 0 <= i < |ws| ==> IsSpace(ws[i])
    requires |digits| > 0 && AllDigits(digits)
    requires rest == [] || !IsDigit(rest[0])
    ensures StrToUL(ws + (digits + rest)) ==
      if DecimalValue(digits) > ULONG_MAX then ULONG_MAX else DecimalValue(digits)
  {
    var t := digits + rest;
    DigitsPrefixOver(digits, rest);
    assert t[0] == digits[0];
    TrimStartOver(ws, t);
    StrToULUnsigned(ws + t, t, DecimalValue(digits));
  }

  /** StrToULValue with a sign. */
  lemma SignedRun(ws: string, sign: string, digits: string, rest: string)
    requires forall i :: 0 <= i < |ws| ==> IsSpace(ws[i])
    requires sign == "+" || sign == "-"
    requires AllDigits(digits)
    requires rest == [] || !IsDigit(rest[0])
    ensures StrToUL(ws + (sign + (digits + rest))) ==
      var v := DecimalValue(digits);
      if v > ULONG_MAX then ULONG_MAX
      else if sign == "-" then (ULONG_MAX + 1 - v) % (ULONG_MAX + 1)
      else v
  {
    var body := digits + rest;
    var t := sign + body;
    DigitsPrefixOver(digits, rest);
    assert t[0] == sign[0] && t[1..] == body;
    TrimStartOver(ws, t);
    StrToULSigned(ws + t, t, DecimalValue(digits));
  }

  /** Regrouping the four parts of StrToULValue's text. */
  lemma Regroup(a: string, b: string, c: string, d: string)
    ensures a + b + c + d == a + (b + (c + d))
  {
  }

  /** StrToUL of text whose white space is gone and which has no sign. */
  lemma StrToULUnsigned(s: string, t: string, v: nat)
    requires TrimStart(s) == t && |t| > 0 && IsDigit(t[0])
    requires LeadingDecimal(t) == v
    ensures StrToUL(s) == if v > ULONG_MAX then ULONG_MAX else v
  {
  }

  /** StrToUL of text whose white space is gone and which starts with a sign. */
  lemma StrToULSigned(s: string, t: string, v: nat)
    requires TrimStart(s) == t && |t| > 0 && (t[0] == '+' || t[0] == '-')
    requires LeadingDecimal(t[1..]) == v
    ensures StrToUL(s) ==
      if v > ULONG_MAX then ULONG_MAX
      else if t[0] == '-' then (ULONG_MAX + 1 - v) % (ULONG_MAX + 1)
      else v
  {
  }

  /** The host and port pieces of "host:port" when neither holds a colon. */
  lemma SplitHostPort(host: string, port: string)
    requires ':' !in host && ':' !in port
    ensures Split(host + ":" + port, ":") == [host, port]
  {
    FreeByFirst(port, ":");
    SplitOfFree(port, ":");
    SplitPeelFirst(host, ":", port);
  }

  /** Facts about the printed IPv4 host that the parser depends on. */
  lemma FormatIPv4Plain(b: Bytes4)
    ensures ':' !in FormatIPv4(b) && '\0' !in FormatIPv4(b)
    ensures TryParseIP4(FormatIPv4(b)) == Ok(b)
    ensures |FormatIPv4(b)| > 0 && IsDigit(FormatIPv4(b)[0])
  {
    var f := FormatIPv4(b);
    FormatIPv4Shape(b);
    assert forall i :: 0 <= i < |f| ==> f[i] != ':' && f[i] != '\0';
    CStringOfPlain(f);
    IPv4RoundTrip(b);
  }

  /** A numeral holds no separator, and is not bracketed or padded with white space. */
  lemma NumeralPlain(d: string)
    requires |d| > 0 && AllDigits(d)
    ensures ':' !in d && !IsSpace(d[0]) && !IsSpace(d[|d| - 1]) && d[0] != '['
  {
    assert forall i :: 0 <= i < |d| ==> IsDigit(d[i]);
  }

  /** A printed IPv4 host, a colon and a numeral split into that host and that numeral. */
  lemma V4HostPort(b: Bytes4, d: string)
    requires |d| > 0 && AllDigits(d)
    ensures Trim(FormatIPv4(b) + ":" + d) == FormatIPv4(b) + ":" + d
    ensures PortText(FormatIPv4(b) + ":" + d) == d
    ensures HostText(FormatIPv4(b) + ":" + d) == FormatIPv4(b)
  {
    var f := FormatIPv4(b);
    FormatIPv4Plain(b);
    NumeralPlain(d);
    HostPortTrim(f, d);
    SplitHostPort(f, d);
    assert Separator(f + ":" + d) == ":";
  }

  /** "host:port" is its own trim when the host starts and the port ends with no white space. */
  lemma HostPortTrim(host: string, port: string)
    requires |host| > 0 && !IsSpace(host[0]) && host[0] != '['
    requires |port| > 0 && !IsSpace(port[|port| - 1])
    ensures Trim(host + ":" + port) == host + ":" + port
    ensures !StartsWith(host + ":" + port, '[')
  {
    var text := host + ":" + port;
    assert text[0] == host[0] && text[|text| - 1] == port[|port| - 1];
    TrimUnspaced(text);
  }

  /** Reading the printed form of an IPv4 socket address gives the address back. */
  lemma IPv4AddressRoundTrip(b: Bytes4, port: uint16)
    ensures AddressFromText(FormatV4(b, port)) == Ok(V4(b, port))
  {
    var d := DecimalText(port);
    V4HostPort(b, d);
    V4Texts(b, port);
  }

  /** The printed IPv4 host and port texts make that socket address. */
  lemma V4Texts(b: Bytes4, port: uint16)
    ensures AddressOfTexts(FormatIPv4(b), DecimalText(port)) == Ok(V4(b, port))
  {
    FormatIPv4Plain(b);
    StrToULOfDecimal(port);
    assert ParseIPAddress(FormatIPv4(b)) == Ok(IP4(b));
  }

  /**
   * The port text is never checked to be a number: a valid IPv4 host followed
   * by a port text that strtoul cannot read at all gives port 0.
   */
  lemma NonNumericPort(b: Bytes4, port: string)
    requires ':' !in port && |port| > 0 && !IsSpace(port[|port| - 1])
    requires !IsSpace(port[0]) && !IsDigit(port[0]) && port[0] != '+' && port[0] != '-'
    ensures AddressFromText(FormatIPv4(b) + ":" + port) == Ok(V4(b, 0))
  {
    var f := FormatIPv4(b);
    FormatIPv4Plain(b);
    HostPortTrim(f, port);
    SplitHostPort(f, port);
    assert Separator(f + ":" + port) == ":";
    NonNumericTexts(b, port);
  }

  /** A valid IPv4 host and a port text with no number in front make port 0. */
  lemma NonNumericTexts(b: Bytes4, port: string)
    requires |port| > 0 && !IsSpace(port[0]) && !IsDigit(port[0]) && port[0] != '+' && port[0] != '-'
    ensures AddressOfTexts(FormatIPv4(b), port) == Ok(V4(b, 0))
  {
    FormatIPv4Plain(b);
    StrToULNoDigits([], port);
    assert [] + port == port;
    assert ParseIPAddress(FormatIPv4(b)) == Ok(IP4(b));
  }

  /** A port above 65535 is Overflow when the host is well formed. */
  lemma PortOverflow(b: Bytes4, n: nat)
    requires UINT16_MAX < n
    ensures AddressFromText(FormatIPv4(b) + ":" + DecimalText(n)) == Err(Overflow)
  {
    V4HostPort(b, DecimalText(n));
    OverflowTexts(b, n);
  }

  lemma OverflowTexts(b: Bytes4, n: nat)
    requires UINT16_MAX < n
    ensures AddressOfTexts(FormatIPv4(b), DecimalText(n)) == Err(Overflow)
  {
    FormatIPv4Plain(b);
    StrToULOfDigits(DecimalText(n));
    DecimalRoundTrip(n);
  }

  /**
   * Error order: text without a port is InvalidInput whatever the host, and
   * a host that is no IP address is InvalidInput whatever the port, so
   * Overflow is only reported for a well-formed host.
   */
  lemma ErrorOrder(src: string)
    ensures PortText(Trim(src)) == [] ==> AddressFromText(src) == Err(InvalidInput)
    ensures ParseIPAddress(HostText(Trim(src))).Err? ==> AddressFromText(src) == Err(InvalidInput)
    ensures AddressFromText(src) == Err(Overflow) ==>
      ParseIPAddress(HostText(Trim(src))).Ok? && StrToUL(PortText(Trim(src))) > UINT16_MAX
  {
  }

  /**
   * Only the last two pieces count: any colon-free, unbracketed text and a
   * colon in front of a valid "host:port" are skipped over.
   */
  lemma LeadingPiecesIgnored(junk: string, b: Bytes4, port: uint16)
    requires ':' !in junk && '[' !in junk
    requires |junk| > 0 ==> !IsSpace(junk[0])
    ensures AddressFromText(junk + ":" + FormatV4(b, port)) == Ok(V4(b, port))
  {
    var f, d := FormatIPv4(b), DecimalText(port);
    NumeralPlain(d);
    FormatIPv4Plain(b);
    JunkHostPort(junk, f, d);
    V4Texts(b, port);
  }

  /** The host and port texts of "junk:host:port". */
  lemma JunkHostPort(junk: string, host: string, port: string)
    requires ':' !in junk && '[' !in junk && ':' !in host && ':' !in port
    requires |junk| > 0 ==> !IsSpace(junk[0])
    requires |port| > 0 && !IsSpace(port[|port| - 1])
    ensures PortText(Trim(junk + ":" + (host + ":" + port))) == port
    ensures HostText(Trim(junk + ":" + (host + ":" + port))) == host
  {
    var text := junk + ":" + (host + ":" + port);
    JunkTrim(junk, host + ":" + port, text);
    JunkSplit(junk, host, port);
    assert Separator(text) == ":";
    PiecesOfThree(text, [junk, host, port]);
  }

  /** The host and port texts of unbracketed text that splits into three pieces. */
  lemma PiecesOfThree(text: string, pieces: seq<string>)
    requires !StartsWith(text, '[') && Trim(text) == text
    requires Split(text, ":") == pieces && |pieces| == 3
    ensures HostText(Trim(text)) == pieces[1] && PortText(Trim(text)) == pieces[2]
  {
    var input := Trim(text);
    assert input == text;
    assert Separator(input) == ":";
    assert Split(input, Separator(input)) == pieces;
    assert HostPiece(input, pieces[1]) == pieces[1];
  }

  /** "junk:rest" is its own trim and is not bracketed. */
  lemma JunkTrim(junk: string, rest: string, text: string)
    requires text == junk + ":" + rest && '[' !in junk
    requires |junk| > 0 ==> !IsSpace(junk[0])
    requires |rest| > 0 && !IsSpace(rest[|rest| - 1])
    ensures Trim(text) == text && !StartsWith(text, '[')
  {
    assert text[|text| - 1] == rest[|rest| - 1];
    assert text[0] == (if |junk| > 0 then junk[0] else ':');
    TrimUnspaced(text);
  }

  lemma JunkSplit(junk: string, host: string, port: string)
    requires ':' !in junk && ':' !in host && ':' !in port
    ensures Split(junk + ":" + (host + ":" + port), ":") == [junk, host, port]
  {
    SplitHostPort(host, port);
    SplitPeelFirst(junk, ":", host + ":" + port);
  }

  // The bracketed IPv6 form

  /** The "[addr6]:port" form of an IPv6 socket address, the group text uncompressed. */
  function FormatV6(b: Bytes16, port: uint16): string
  {
    "[" + FormatIPv6(b) + "]:" + DecimalText(port)
  }

  /** "[" + h + "]:" + p splits at its one "]:" when neither h nor p holds one. */
  lemma BracketedSplit(h: string, p: string)
    requires Free(h, "]:") && Free(p, "]:")
    ensures Split("[" + h + "]:" + p, "]:") == ["[" + h, p]
  {
    var a := "[" + h;
    var s := a + "]:" + p;
    forall j | 0 <= j < |a|
      ensures !OccursAt(s, j, "]:")
    {
      assert j + 2 <= |s| && s[j..j + 2] == [s[j], s[j + 1]];
      if j == 0 {
        assert s[0] == '[';
      } else if j < |a| - 1 {
        assert s[j..j + 2] == h[j - 1..j + 1];
        assert !OccursAt(h, j - 1, "]:");
      } else {
        assert s[j + 1] == ']';
      }
    }
    SplitPeel(a, "]:", p);
    SplitOfFree(p, "]:");
  }

  /**
   * The host and port texts of "[" + h + "]:" + p are h and p, for any h
   * and p that hold no "]:" and a port text that does not end in white space.
   */
  lemma BracketedTexts(h: string, p: string)
    requires Free(h, "]:") && Free(p, "]:")
    requires |p| > 0 && !IsSpace(p[|p| - 1])
    ensures Trim("[" + h + "]:" + p) == "[" + h + "]:" + p
    ensures HostText("[" + h + "]:" + p) == h && PortText("[" + h + "]:" + p) == p
  {
    var s := "[" + h + "]:" + p;
    assert s[0] == '[' && s[|s| - 1] == p[|p| - 1];
    TrimUnspaced(s);
    assert Separator(s) == "]:";
    BracketedSplit(h, p);
    assert HostPiece(s, "[" + h) == ("[" + h)[1..] == h;
  }

  /** tryParseAddress on bracketed text checks the host and port texts between and after the brackets. */
  lemma BracketedAddress(h: string, p: string)
    requires Free(h, "]:") && Free(p, "]:")
    requires |p| > 0 && !IsSpace(p[|p| - 1])
    ensures AddressFromText("[" + h + "]:" + p) == AddressOfTexts(h, p)
  {
    BracketedTexts(h, p);
  }

  /** tryParseIP6 reads the uncompressed form back, and parseIPAddress calls it an IPv6 address. */
  lemma IPv6TextRoundTrip(b: Bytes16)
    ensures TryParseIP6(FormatIPv6(b)) == Ok(b)
    ensures ParseIPAddress(FormatIPv6(b)) == Ok(IP6(b))
  {
    FormatIPv6Shape(b);
    CStringOfPlain(FormatIPv6(b));
    IPv6RoundTrip(b);
  }

  /** Reading the printed form of an IPv6 socket address gives the address back. */
  lemma IPv6AddressRoundTrip(b: Bytes16, port: uint16)
    ensures AddressFromText(FormatV6(b, port)) == Ok(V6(b, port))
  {
    var f, d := FormatIPv6(b), DecimalText(port);
    FormatIPv6Shape(b);
    FreeByFirst(f, "]:");
    NumeralPlain(d);
    assert forall i :: 0 <= i < |d| ==> d[i] != ']' by {
      assert forall i :: 0 <= i < |d| ==> IsDigit(d[i]);
    }
    FreeByFirst(d, "]:");
    BracketedAddress(f, d);
    IPv6TextRoundTrip(b);
    StrToULOfDecimal(port);
  }

  // Examples from the library's address tests

  lemma ExampleIPv4()
    ensures AddressFromText("238.255.0.1:5670") == Ok(V4([238, 255, 0, 1], 5670))
  {
    ExampleIPv4Text();
    IPv4AddressRoundTrip([238, 255, 0, 1], 5670);
  }

  lemma ExampleIPv4Text()
    ensures FormatV4([238, 255, 0, 1], 5670) == "238.255.0.1:5670"
  {
    Numerals();
    FormatV4Of([238, 255, 0, 1], 5670, "238", "255", "0", "1", "5670");
    ExampleIPv4Chars();
  }

  /** The literal "238.255.0.1:5670" is the concatenation of its printed parts. */
  lemma ExampleIPv4Chars()
    ensures "238" + "." + "255" + "." + "0" + "." + "1" + ":" + "5670" == "238.255.0.1:5670"
  {
  }

  /** The printed numbers the examples use. */
  lemma Numerals()
    ensures DecimalText(0) == "0" && DecimalText(1) == "1" && DecimalText(10) == "10"
    ensures DecimalText(238) == "238" && DecimalText(255) == "255"
    ensures DecimalText(5670) == "5670"
  {
  }

  /** The printed form of an IPv4 socket address, assembled from the printed numbers. */
  lemma FormatV4Of(b: Bytes4, port: uint16, t0: string, t1: string, t2: string, t3: string, tp: string)
    requires DecimalText(b[0]) == t0 && DecimalText(b[1]) == t1
    requires DecimalText(b[2]) == t2 && DecimalText(b[3]) == t3
    requires DecimalText(port) == tp
    ensures FormatV4(b, port) == t0 + "." + t1 + "." + t2 + "." + t3 + ":" + tp
  {
    FormatIPv4Of(b, t0, t1, t2, t3);
  }

  lemma FormatIPv4Of(b: Bytes4, t0: string, t1: string, t2: string, t3: string)
    requires DecimalText(b[0]) == t0 && DecimalText(b[1]) == t1
    requires DecimalText(b[2]) == t2 && DecimalText(b[3]) == t3
    ensures FormatIPv4(b) == t0 + "." + t1 + "." + t2 + "." + t3
  {
    FormatIPv4Fields(b);
  }

  lemma ExampleIPv4Broadcast()
    ensures AddressFromText("255.255.255.255:5670") == Ok(V4([255, 255, 255, 255], 5670))
  {
    ExampleIPv4BroadcastText();
    IPv4AddressRoundTrip([255, 255, 255, 255], 5670);
  }

  lemma ExampleIPv4BroadcastText()
    ensures FormatV4([255, 255, 255, 255], 5670) == "255.255.255.255:5670"
  {
    Numerals();
    FormatV4Of([255, 255, 255, 255], 5670, "255", "255", "255", "255", "5670");
    ExampleIPv4BroadcastChars();
  }

  /** The literal "255.255.255.255:5670" is the concatenation of its printed parts. */
  lemma ExampleIPv4BroadcastChars()
    ensures "255" + "." + "255" + "." + "255" + "." + "255" + ":" + "5670" == "255.255.255.255:5670"
  {
  }

  lemma ExampleNoPort()
    ensures AddressFromText("0.0.0.1") == Err(InvalidInput)
  {
    var input := Trim("0.0.0.1");
    TrimUnspaced("0.0.0.1");
    FreeByFirst("0.0.0.1", ":");
    SplitOfFree("0.0.0.1", ":");
    assert input == "0.0.0.1";
    assert PortText(input) == [];
  }

  lemma ExamplePortOverflow()
    ensures AddressFromText("10.1.1.1:56705670") == Err(Overflow)
  {
    ExamplePortOverflowText();
    PortOverflow([10, 1, 1, 1], 56705670);
  }

  lemma ExamplePortOverflowText()
    ensures FormatIPv4([10, 1, 1, 1]) + ":" + DecimalText(56705670) == "10.1.1.1:56705670"
  {
    Numerals();
    FormatIPv4Of([10, 1, 1, 1], "10", "1", "1", "1");
    LargeNumeral();
    ExamplePortOverflowChars();
  }

  /** The printed form of 56705670, built up one digit at a time. */
  lemma LargeNumeral()
    ensures DecimalText(56705670) == "56705670"
  {
    assert DecimalText(5670) == "5670";
    assert DecimalText(56705) == "56705";
    assert DecimalText(567056) == "567056";
    assert DecimalText(5670567) == "5670567";
  }

  /** The literal "10.1.1.1:56705670" is the concatenation of its printed parts. */
  lemma ExamplePortOverflowChars()
    ensures "10" + "." + "1" + "." + "1" + "." + "1" + ":" + "56705670" == "10.1.1.1:56705670"
  {
  }

  /** "32.x.0.1:5670:321" is read as host "5670" and port "321", and fails on the host. */
  lemma ExampleTwoSeparators()
    ensures HostText(Trim("32.x.0.1:5670:321")) == "5670"
    ensures AddressFromText("32.x.0.1:5670:321") == Err(InvalidInput)
  {
    ExampleTwoSeparatorsTexts();
    IPv4Rejects5670();
    IPv6Rejects5670();
    assert AddressOfTexts("5670", "321") == Err(InvalidInput);
  }

  lemma ExampleTwoSeparatorsTexts()
    ensures HostText(Trim("32.x.0.1:5670:321")) == "5670"
    ensures PortText(Trim("32.x.0.1:5670:321")) == "321"
  {
    ExampleTwoSeparatorsPieces();
    JunkHostPort("32.x.0.1", "5670", "321");
    ExampleTwoSeparatorsChars();
  }

  /** The pieces of "32.x.0.1:5670:321" meet JunkHostPort's requirements. */
  lemma ExampleTwoSeparatorsPieces()
    ensures ':' !in "32.x.0.1" && '[' !in "32.x.0.1" && !IsSpace('3')
    ensures ':' !in "5670" && ':' !in "321" && !IsSpace('1')
  {
  }

  /** The literal "32.x.0.1:5670:321" is the concatenation of its pieces. */
  lemma ExampleTwoSeparatorsChars()
    ensures "32.x.0.1" + ":" + ("5670" + ":" + "321") == "32.x.0.1:5670:321"
  {
  }

  /** Unbracketed text without a ':' has no port text, so it is InvalidInput. */
  lemma NoColonNoPort(s: string)
    requires |s| > 0 && s[0] != '[' && !IsSpace(s[0]) && !IsSpace(s[|s| - 1]) && ':' !in s
    ensures AddressFromText(s) == Err(InvalidInput)
  {
    TrimUnspaced(s);
    assert Separator(s) == ":";
    FreeByFirst(s, ":");
    SplitOfFree(s, ":");
  }

  /** The test's "some-rangom long string ?!": no separator, so no port. */
  lemma ExampleNoColon()
    ensures AddressFromText("some-rangom long string ?!") == Err(InvalidInput)
  {
    NoColonNoPort("some-rangom long string ?!");
  }

  /** Unbracketed `host:port` with one colon: the host and port texts are the two sides. */
  lemma PlainHostPort(host: string, port: string)
    requires ':' !in host && ':' !in port && |host| > 0 && |port| > 0
    requires host[0] != '[' && !IsSpace(host[0]) && !IsSpace(port[|port| - 1])
    ensures AddressFromText(host + ":" + port) == AddressOfTexts(host, port)
  {
    var s := host + ":" + port;
    assert s[0] == host[0] && s[|s| - 1] == port[|port| - 1];
    TrimUnspaced(s);
    SplitHostPort(host, port);
    LastTwoPieces(s, [host, port]);
  }

  /** The test's "8761:0.0.0.1": the host text "8761" is a lone group, no address. */
  lemma ExampleHostIsNumber()
    ensures AddressFromText("8761" + ":" + "0.0.0.1") == Err(InvalidInput)
  {
    HostIsNumberTexts();
    NumberHostRejected();
    BadHostTexts("8761", "0.0.0.1");
  }

  lemma HostIsNumberTexts()
    ensures AddressFromText("8761" + ":" + "0.0.0.1") == AddressOfTexts("8761", "0.0.0.1")
  {
    PlainHostPort("8761", "0.0.0.1");
  }

  lemma NumberHostRejected()
    ensures ParseIPAddress("8761") == Err(InvalidInput)
  {
    OneGroupIsNoAddress("8761");
  }

  /** A host text that is no address makes the texts InvalidInput, whatever the port. */
  lemma BadHostTexts(host: string, port: string)
    requires port != [] && ParseIPAddress(host).Err?
    ensures AddressOfTexts(host, port) == Err(InvalidInput)
  {
  }

  /** Dotted text that is no dotted quad is no address either: its IPv6 reading needs a dotted quad too. */
  lemma DottedRejected(h: string)
    requires ':' !in h && '\0' !in h && '.' in h && ParseIPv4Text(h).None?
    ensures ParseIPAddress(h) == Err(InvalidInput)
  {
    CStringOfPlain(h);
    FreeByFirst(h, "::");
    SplitOfFree(h, "::");
    FreeByFirst(h, ":");
    SplitOfFree(h, ":");
    assert ParseGroups([h], true).None?;
  }

  /** "32.x.0.1" has a field that is not a number. */
  lemma BadOctetText()
    ensures ParseIPv4Text("32.x.0.1").None?
  {
    BadOctetSplit();
    assert !IsOctetText("x") by {
      assert !IsDigit("x"[0]);
    }
  }

  lemma BadOctetSplit()
    ensures Split("32.x.0.1", ".") == ["32", "x", "0", "1"]
  {
    var g := ["32", "x", "0", "1"];
    BadOctetJoin();
    assert forall k :: 0 <= k < |g| ==> '.' !in g[k];
    JoinSplit(g, ".");
  }

  /** Joining the fields "32", "x", "0", "1" with '.' gives "32.x.0.1". */
  lemma BadOctetJoin()
    ensures Join(["32", "x", "0", "1"], ".") == "32.x.0.1"
  {
    var g := ["32", "x", "0", "1"];
    JoinCons(g[2], [g[3]], ".");
    assert g[2..] == [g[2]] + [g[3]];
    JoinCons(g[1], g[2..], ".");
    assert g[1..] == [g[1]] + g[2..];
    JoinCons(g[0], g[1..], ".");
    assert g == [g[0]] + g[1..];
  }

  /** The test's "32.x.0.1:5670": the host text is no dotted quad. */
  lemma ExampleBadOctet()
    ensures AddressFromText("32.x.0.1" + ":" + "5670") == Err(InvalidInput)
  {
    BadOctetTexts();
    BadOctetRejected();
    BadHostTexts("32.x.0.1", "5670");
  }

  lemma BadOctetTexts()
    ensures AddressFromText("32.x.0.1" + ":" + "5670") == AddressOfTexts("32.x.0.1", "5670")
  {
    PlainHostPort("32.x.0.1", "5670");
  }

  lemma BadOctetRejected()
    ensures ParseIPAddress("32.x.0.1") == Err(InvalidInput)
  {
    BadOctetText();
    DottedRejected("32.x.0.1");
  }

  lemma IPv4Rejects5670()
    ensures TryParseIP4("5670").Err?
  {
    CStringOfPlain("5670");
    FreeByFirst("5670", ".");
    SplitOfFree("5670", ".");
  }

  lemma IPv6Rejects5670()
    ensures TryParseIP6("5670").Err?
  {
    CStringOfPlain("5670");
    FreeByFirst("5670", ".");
    SplitOfFree("5670", ".");
    FreeByFirst("5670", "::");
    SplitOfFree("5670", "::");
    FreeByFirst("5670", ":");
    SplitOfFree("5670", ":");
    assert IsHexGroup("5670") && '.' !in "5670";
    assert ["5670"][1..] == [];
    assert ParseGroups(["5670"], true) == Some(GroupBytes("5670") + []);
  }

  // IPv6 hosts made of groups, and the IPv6 examples

  /** Text without '.' or NUL that inet_pton reads as IPv6 is taken for an IPv6 address. */
  lemma IPv6Host(h: string, b: Bytes16)
    requires '.' !in h && '\0' !in h && 0 < |h| < INET6_ADDRSTRLEN
    requires ParseIPv6Text(h) == Some(b)
    ensures ParseIPAddress(h) == Ok(IP6(b))
  {
    CStringOfPlain(h);
    FreeByFirst(h, ".");
    SplitOfFree(h, ".");
  }

  /** Groups, "::" and groups, seven groups at most: an IPv6 host text with no ']'. */
  lemma CompressedHost(pre: seq<string>, post: seq<string>)
    requires |pre| >= 1 && |post| >= 1 && |pre| + |post| <= 7
    requires HexGroups(pre) && HexGroups(post)
    ensures ']' !in Join(pre, ":") + "::" + Join(post, ":")
    ensures ParseIPv6Text(Join(pre, ":") + "::" + Join(post, ":")).Some?
    ensures ParseIPAddress(Join(pre, ":") + "::" + Join(post, ":")) ==
      Ok(IP6(ParseIPv6Text(Join(pre, ":") + "::" + Join(post, ":")).value))
  {
    var h := Join(pre, ":") + "::" + Join(post, ":");
    CompressedPlain(pre, post);
    CompressedGroups(pre, post);
    IPv6Host(h, ParseIPv6Text(h).value);
  }

  /** The characters and length of a compressed host text. */
  lemma CompressedPlain(pre: seq<string>, post: seq<string>)
    requires |pre| >= 1 && |post| >= 1 && |pre| + |post| <= 7
    requires HexGroups(pre) && HexGroups(post)
    ensures var h := Join(pre, ":") + "::" + Join(post, ":");
      ']' !in h && '.' !in h && '\0' !in h && 0 < |h| < INET6_ADDRSTRLEN
  {
    GroupsJoined(pre);
    GroupsJoined(post);
    JoinLengthAtMost(pre, ":", 4);
    JoinLengthAtMost(post, ":", 4);
  }

  /** Eight groups joined by ':': an IPv6 host text with no ']'. */
  lemma FullHost(groups: seq<string>)
    requires |groups| == 8 && HexGroups(groups)
    ensures ']' !in Join(groups, ":")
    ensures ParseIPv6Text(Join(groups, ":")).Some?
    ensures ParseIPAddress(Join(groups, ":")) == Ok(IP6(ParseIPv6Text(Join(groups, ":")).value))
  {
    GroupsJoined(groups);
    HexGroupsPlain(groups);
    JoinLengthAtMost(groups, ":", 4);
    FullGroups(groups);
    IPv6Host(Join(groups, ":"), ParseIPv6Text(Join(groups, ":")).value);
  }

  /** A bracketed host with no ']' and a port text with no ']': the texts between and after. */
  lemma BracketedPlain(h: string, p: string)
    requires ']' !in h && ']' !in p && |p| > 0 && !IsSpace(p[|p| - 1])
    ensures AddressFromText("[" + h + "]:" + p) == AddressOfTexts(h, p)
  {
    FreeByFirst(h, "]:");
    FreeByFirst(p, "]:");
    BracketedAddress(h, p);
  }

  /** ff02::1, the all-nodes multicast group. */
  const AllNodes: Bytes16 := [0xff, 0x02, 0, 0, 0, 0, 0, 0, 0, 0, 0, 0, 0, 0, 0, 1]

  /** A text without ':' or '.' is one group. */
  lemma OneGroup(g: string, ipv4Tail: bool)
    requires IsHexGroup(g) && '.' !in g
    ensures ParseGroups([g], ipv4Tail) == Some(GroupBytes(g))
  {
    assert [g][1..] == [];
    assert ParseGroups([], ipv4Tail) == Some([]);
    assert GroupBytes(g) + [] == GroupBytes(g);
  }

  /** "ff02::1" is the all-nodes group. */
  lemma AllNodesText()
    ensures ParseIPAddress("ff02::1") == Ok(IP6(AllNodes))
  {
    AllNodesGroups();
    AllNodesJoin();
    CompressedHost(["ff02"], ["1"]);
  }

  lemma AllNodesJoin()
    ensures Join(["ff02"], ":") + "::" + Join(["1"], ":") == "ff02::1"
  {
    assert Join(["ff02"], ":") == "ff02" && Join(["1"], ":") == "1";
  }

  lemma AllNodesGroups()
    ensures ParseIPv6Text(Join(["ff02"], ":") + "::" + Join(["1"], ":")) == Some(AllNodes)
  {
    CompressedGroups(["ff02"], ["1"]);
    OneGroup("ff02", false);
    OneGroup("1", true);
    assert GroupBytes("ff02") == [0xff, 0x02] by {
      assert "ff02"[..3] == "ff0" && "ff0"[..2] == "ff" && "ff"[..1] == "f" && "f"[..0] == "";
    }
    assert GroupBytes("1") == [0, 1] by {
      assert "1"[..0] == "";
    }
    var z := Zeros(12);
    assert [0xff, 0x02] + z + [0, 1] == AllNodes by {
      assert forall i :: 0 <= i < 12 ==> z[i] == 0;
    }
  }

  /** The test's "[ff02::1]:5678": the all-nodes group on port 5678. */
  lemma ExampleIPv6()
    ensures AddressFromText("[" + "ff02::1" + "]:" + "5678") == Ok(V6(AllNodes, 5678))
  {
    BracketedPlain("ff02::1", "5678");
    ExampleIPv6Texts();
  }

  lemma ExampleIPv6Texts()
    ensures AddressOfTexts("ff02::1", "5678") == Ok(V6(AllNodes, 5678))
  {
    AllNodesText();
    ExampleIPv6Port();
  }

  lemma ExampleIPv6Port()
    ensures StrToUL("5678") == 5678
  {
    assert DecimalText(5678) == "5678";
    StrToULOfDecimal(5678);
  }

  /** Bracketed text without a ']' has no port text, so it is InvalidInput. */
  lemma UnclosedBracket(s: string)
    requires StartsWith(s, '[') && ']' !in s && !IsSpace(s[|s| - 1])
    ensures AddressFromText(s) == Err(InvalidInput)
  {
    TrimUnspaced(s);
    assert Separator(s) == "]:";
    FreeByFirst(s, "]:");
    SplitOfFree(s, "]:");
  }

  lemma ExampleIPv6Unclosed()
    ensures AddressFromText("[ff02::1678") == Err(InvalidInput)
  {
    UnclosedBracket("[ff02::1678");
  }

  /** The groups after "::" in the link-local example. */
  const LinkLocalTail: seq<string> := ["27ae", "adff", "dfa1", "743e"]

  /** "fe80::27ae:adff:dfa1:743e", the link-local address of the examples, is an IPv6 address. */
  lemma LinkLocalText()
    ensures ParseIPAddress("fe80::27ae:adff:dfa1:743e").Ok?
    ensures ']' !in "fe80::27ae:adff:dfa1:743e"
  {
    LinkLocalJoin();
    CompressedHost(["fe80"], LinkLocalTail);
  }

  lemma LinkLocalJoin()
    ensures Join(["fe80"], ":") + "::" + Join(LinkLocalTail, ":") == "fe80::27ae:adff:dfa1:743e"
  {
    assert Join(["fe80"], ":") == "fe80";
    assert Join(LinkLocalTail, ":") == "27ae:adff:dfa1:743e" by {
      JoinCons("dfa1", ["743e"], ":");
      assert ["dfa1", "743e"] == ["dfa1"] + ["743e"];
      JoinCons("adff", ["dfa1", "743e"], ":");
      assert ["adff", "dfa1", "743e"] == ["adff"] + ["dfa1", "743e"];
      JoinCons("27ae", ["adff", "dfa1", "743e"], ":");
      assert LinkLocalTail == ["27ae"] + ["adff", "dfa1", "743e"];
    }
  }

  /** The test's "[fe80::27ae:adff:dfa1:743e]:5670" is read. */
  lemma ExampleIPv6LinkLocal()
    ensures AddressFromText("[" + "fe80::27ae:adff:dfa1:743e" + "]:" + "5670").Ok?
  {
    LinkLocalText();
    BracketedPlain("fe80::27ae:adff:dfa1:743e", "5670");
    Numerals();
    StrToULOfDecimal(5670);
  }

  /** The test's "[fe80::27ae:adff:dfa1:743e]:1235670": a port too large for 16 bits after a valid IPv6 host is Overflow. */
  lemma ExampleIPv6PortOverflow()
    ensures AddressFromText("[" + "fe80::27ae:adff:dfa1:743e" + "]:" + "1235670") == Err(Overflow)
  {
    LinkLocalText();
    BracketedPlain("fe80::27ae:adff:dfa1:743e", "1235670");
    assert StrToUL("1235670") == 1235670 by {
      SevenDigitNumeral();
      StrToULOfDecimal(1235670);
    }
  }

  lemma SevenDigitNumeral()
    ensures DecimalText(1235670) == "1235670"
  {
    assert DecimalText(1235) == "1235";
    assert DecimalText(12356) == "12356";
    assert DecimalText(123567) == "123567";
  }

  /**
   * The test's "[fe80::27ae:adff:dfa1:743e]:235670:327": after "]:" the port
   * text runs to the end, and "235670:327" reads as 235670, which is Overflow.
   */
  lemma ExampleIPv6TwoSeparators()
    ensures AddressFromText("[" + "fe80::27ae:adff:dfa1:743e" + "]:" + "235670:327") == Err(Overflow)
  {
    LinkLocalText();
    BracketedPlain("fe80::27ae:adff:dfa1:743e", "235670:327");
    PortBeforeColon();
  }

  /** strtoul stops at the ':' of "235670:327". */
  lemma PortBeforeColon()
    ensures StrToUL("235670:327") == 235670
  {
    PortBeforeColonChars();
    SixDigitNumeral();
    DecimalRoundTrip(235670);
    StrToULValue("", "", "235670", ":327");
  }

  lemma PortBeforeColonChars()
    ensures "" + "" + "235670" + ":327" == "235670:327"
  {
  }

  lemma SixDigitNumeral()
    ensures DecimalText(235670) == "235670"
  {
    assert DecimalText(2356) == "2356";
    assert DecimalText(23567) == "23567";
  }

  /** The eight groups of the documentation-prefix example. */
  const DocumentationGroups: seq<string> := ["2001", "db8", "85a3", "8d3", "1319", "8a2e", "370", "7348"]

  lemma DocumentationText()
    ensures Join(DocumentationGroups, ":") == "2001:db8:85a3:8d3:1319:8a2e:370:7348"
  {
    var g := DocumentationGroups;
    assert g == g[..4] + g[4..];
    JoinAppend(g[..4], g[4..], ":");
    DocumentationHead();
    DocumentationTail();
    DocumentationChars();
  }

  lemma DocumentationHead()
    ensures Join(DocumentationGroups[..4], ":") == "2001:db8:85a3:8d3"
  {
    var g := DocumentationGroups[..4];
    assert g == ["2001", "db8", "85a3", "8d3"];
    JoinCons(g[2], [g[3]], ":");
    assert g[2..] == [g[2]] + [g[3]];
    JoinCons(g[1], g[2..], ":");
    assert g[1..] == [g[1]] + g[2..];
    JoinCons(g[0], g[1..], ":");
    assert g == [g[0]] + g[1..];
  }

  lemma DocumentationTail()
    ensures Join(DocumentationGroups[4..], ":") == "1319:8a2e:370:7348"
  {
    var g := DocumentationGroups[4..];
    assert g == ["1319", "8a2e", "370", "7348"];
    JoinCons(g[2], [g[3]], ":");
    assert g[2..] == [g[2]] + [g[3]];
    JoinCons(g[1], g[2..], ":");
    assert g[1..] == [g[1]] + g[2..];
    JoinCons(g[0], g[1..], ":");
    assert g == [g[0]] + g[1..];
  }

  lemma DocumentationChars()
    ensures "2001:db8:85a3:8d3" + ":" + "1319:8a2e:370:7348" == "2001:db8:85a3:8d3:1319:8a2e:370:7348"
  {
  }

  /** "2001:db8:85a3:8d3:1319:8a2e:370:7348" is an IPv6 address. */
  lemma DocumentationHost()
    ensures ParseIPAddress("2001:db8:85a3:8d3:1319:8a2e:370:7348").Ok?
    ensures ']' !in "2001:db8:85a3:8d3:1319:8a2e:370:7348"
  {
    DocumentationText();
    FullHost(DocumentationGroups);
  }

  /** The test's "[2001:db8:85a3:8d3:1319:8a2e:370:7348]:5670": all eight groups written out. */
  lemma ExampleIPv6Full()
    ensures AddressFromText("[" + "2001:db8:85a3:8d3:1319:8a2e:370:7348" + "]:" + "5670").Ok?
  {
    DocumentationHost();
    BracketedPlain("2001:db8:85a3:8d3:1319:8a2e:370:7348", "5670");
    DocumentationPort();
  }

  lemma DocumentationPort()
    ensures AddressOfTexts("2001:db8:85a3:8d3:1319:8a2e:370:7348", "5670").Ok?
  {
    DocumentationHost();
    Numerals();
    StrToULOfDecimal(5670);
  }

  /** Unbracketed text: the host is the next-to-last piece at ':', the port the last. */
  lemma LastTwoPieces(input: string, pieces: seq<string>)
    requires !StartsWith(input, '[') && Split(input, ":") == pieces && |pieces| >= 2
    ensures HostText(input) == pieces[|pieces| - 2] && PortText(input) == pieces[|pieces| - 1]
  {
    assert Separator(input) == ":";
  }

  /** A single group is too short for an IPv6 address and has no dots for IPv4. */
  lemma OneGroupIsNoAddress(g: string)
    requires IsHexGroup(g)
    ensures ParseIPAddress(g) == Err(InvalidInput)
  {
    HexGroupsPlain([g]);
    assert ':' !in g && '.' !in g && '\0' !in g;
    CStringOfPlain(g);
    FreeByFirst(g, ".");
    SplitOfFree(g, ".");
    FreeByFirst(g, "::");
    SplitOfFree(g, "::");
    FreeByFirst(g, ":");
    SplitOfFree(g, ":");
    OneGroup(g, true);
  }

  /** The link-local text split at every ':'. */
  const LinkLocalPieces: seq<string> := ["fe80", "", "27ae", "adff", "dfa1", "743e"]

  lemma LinkLocalPiecesJoin()
    ensures Join(LinkLocalPieces, ":") == "fe80::27ae:adff:dfa1:743e"
  {
    var g := LinkLocalPieces;
    JoinCons(g[4], [g[5]], ":");
    assert g[4..] == [g[4]] + [g[5]];
    JoinCons(g[3], g[4..], ":");
    assert g[3..] == [g[3]] + g[4..];
    JoinCons(g[2], g[3..], ":");
    assert g[2..] == [g[2]] + g[3..];
    JoinCons(g[1], g[2..], ":");
    assert g[1..] == [g[1]] + g[2..];
    JoinCons(g[0], g[1..], ":");
    assert g == [g[0]] + g[1..];
  }

  lemma LinkLocalPiecesSplit()
    ensures Split("fe80::27ae:adff:dfa1:743e", ":") == LinkLocalPieces
  {
    LinkLocalPiecesJoin();
    assert forall k :: 0 <= k < |LinkLocalPieces| ==> ':' !in LinkLocalPieces[k];
    JoinSplit(LinkLocalPieces, ":");
  }

  /**
   * Without brackets an IPv6 address is split at every ':': the host text
   * is "dfa1" and the port text "743e", and "dfa1" is no address.
   */
  lemma ExampleIPv6Unbracketed()
    ensures HostText(Trim("fe80::27ae:adff:dfa1:743e")) == "dfa1"
    ensures AddressFromText("fe80::27ae:adff:dfa1:743e") == Err(InvalidInput)
  {
    UnbracketedTexts();
    LoneGroupRejected();
  }

  lemma UnbracketedTexts()
    ensures HostText(Trim("fe80::27ae:adff:dfa1:743e")) == "dfa1"
    ensures PortText(Trim("fe80::27ae:adff:dfa1:743e")) == "743e"
  {
    UnbracketedTrim();
    LinkLocalPiecesSplit();
    LastTwoPieces("fe80::27ae:adff:dfa1:743e", LinkLocalPieces);
  }

  lemma UnbracketedTrim()
    ensures Trim("fe80::27ae:adff:dfa1:743e") == "fe80::27ae:adff:dfa1:743e"
    ensures !StartsWith("fe80::27ae:adff:dfa1:743e", '[')
  {
    TrimUnspaced("fe80::27ae:adff:dfa1:743e");
  }

  lemma LoneGroupRejected()
    ensures ParseIPAddress("dfa1") == Err(InvalidInput)
  {
    OneGroupIsNoAddress("dfa1");
  }

  /** The pieces of "fe80::27ae:adff" split at every ':'. */
  const RepeatedPieces: seq<string> := ["fe80", "", "27ae", "adff"]

  lemma RepeatedPiecesJoin()
    ensures Join(RepeatedPieces, ":") == "fe80::27ae:adff"
  {
    var g := RepeatedPieces;
    JoinCons(g[2], [g[3]], ":");
    assert g[2..] == [g[2]] + [g[3]];
    JoinCons(g[1], g[2..], ":");
    assert g[1..] == [g[1]] + g[2..];
    JoinCons(g[0], g[1..], ":");
    assert g == [g[0]] + g[1..];
  }

  lemma RepeatedSplit()
    ensures Split("fe80::27ae:adff:dfa1:743e" + ":" + "fe80::27ae:adff", ":") == LinkLocalPieces + RepeatedPieces
  {
    var g := LinkLocalPieces + RepeatedPieces;
    LinkLocalPiecesJoin();
    RepeatedPiecesJoin();
    JoinAppend(LinkLocalPieces, RepeatedPieces, ":");
    assert forall k :: 0 <= k < |g| ==> ':' !in g[k];
    JoinSplit(g, ":");
  }

  lemma RepeatedTrim()
    ensures Trim("fe80::27ae:adff:dfa1:743e" + ":" + "fe80::27ae:adff") == "fe80::27ae:adff:dfa1:743e" + ":" + "fe80::27ae:adff"
    ensures !StartsWith("fe80::27ae:adff:dfa1:743e" + ":" + "fe80::27ae:adff", '[')
  {
    var t := "fe80::27ae:adff:dfa1:743e" + ":" + "fe80::27ae:adff";
    assert t[0] == 'f' && t[|t| - 1] == 'f';
    TrimUnspaced(t);
  }

  lemma RepeatedTexts()
    ensures HostText(Trim("fe80::27ae:adff:dfa1:743e" + ":" + "fe80::27ae:adff")) == "27ae"
  {
    var g := LinkLocalPieces + RepeatedPieces;
    RepeatedTrim();
    RepeatedSplit();
    assert g[|g| - 2] == "27ae";
    LastTwoPieces("fe80::27ae:adff:dfa1:743e" + ":" + "fe80::27ae:adff", g);
  }

  /**
   * The test's "fe80::27ae:adff:dfa1:743e:fe80::27ae:adff": split at every
   * ':', its host text is the lone group "27ae", which is no address.
   */
  lemma ExampleIPv6Repeated()
    ensures AddressFromText("fe80::27ae:adff:dfa1:743e" + ":" + "fe80::27ae:adff") == Err(InvalidInput)
  {
    RepeatedTexts();
    OneGroupIsNoAddress("27ae");
  }
}
