/**
 * The presentation formats that inet_pton accepts, which tryParseIP4 and
 * tryParseIP6 hand their text to: dotted-decimal IPv4 (four decimal fields
 * of at most 255, no leading zeros) and the IPv6 text forms of section 2.2
 * of RFC 4291 (eight 16-bit hexadecimal groups, at most one "::" standing
 * for a run of zero groups, and optionally a dotted-decimal IPv4 address in
 * place of the last two groups).
 */
module InetText {
  import opened Ints
  import opened Wrappers
  import opened Text

  type Bytes4 = s: seq<uint8> | |s| == 4 witness [0, 0, 0, 0]
  type Bytes16 = s: seq<uint8> | |s| == 16 witness [0, 0, 0, 0, 0, 0, 0, 0, 0, 0, 0, 0, 0, 0, 0, 0]

  // ---------------------------------------------------------------------
  // IPv4
  // ---------------------------------------------------------------------

  /** One field of a dotted quad: decimal digits worth at most 255, no leading zero. */
  predicate IsOctetText(p: string)
  {
    1 <= |p| <= 3 && AllDigits(p) && (|p| > 1 ==> p[0] != '0') && DecimalValue(p) <= 255
  }

  /** inet_pton(AF_INET, s): the four bytes of a dotted quad, or nothing. */
  function ParseIPv4Text(s: string): Option<Bytes4>
  {
    var parts := Split(s, ".");
    if |parts| == 4 && IsOctetText(parts[0]) && IsOctetText(parts[1])
       && IsOctetText(parts[2]) && IsOctetText(parts[3])
    then Some([DecimalValue(parts[0]), DecimalValue(parts[1]), DecimalValue(parts[2]), DecimalValue(parts[3])])
    else None
  }

  /** The dotted-decimal form of four bytes (the form inet_ntop prints). */
  function FormatIPv4(b: Bytes4): string
  {
    Join([DecimalText(b[0]), DecimalText(b[1]), DecimalText(b[2]), DecimalText(b[3])], ".")
  }

  lemma {:induction false} DecimalTextShape(n: nat)
    ensures n < 10 ==> |DecimalText(n)| == 1
    ensures 10 <= n < 100 ==> |DecimalText(n)| == 2
    ensures 100 <= n < 1000 ==> |DecimalText(n)| == 3
    ensures n >= 10 ==> DecimalText(n)[0] != '0'
    decreases n
  {
    if n >= 10 {
      DecimalTextShape(n / 10);
      assert DecimalText(n)[0] == DecimalText(n / 10)[0];
    }
  }

  /** The printed form of a byte is a valid field of a dotted quad. */
  lemma OctetTextOfByte(n: uint8)
    ensures IsOctetText(DecimalText(n))
    ensures DecimalValue(DecimalText(n)) == n
    ensures '.' !in DecimalText(n)
  {
    DecimalTextShape(n);
    DecimalRoundTrip(n);
    var t := DecimalText(n);
    assert forall i :: 0 <= i < |t| ==> t[i] != '.';
  }

  /** The dotted-decimal form written out field by field. */
  lemma FormatIPv4Fields(b: Bytes4)
    ensures FormatIPv4(b) ==
      DecimalText(b[0]) + "." + (DecimalText(b[1]) + "." + (DecimalText(b[2]) + "." + DecimalText(b[3])))
  {
    var t0, t1, t2, t3 := DecimalText(b[0]), DecimalText(b[1]), DecimalText(b[2]), DecimalText(b[3]);
    JoinCons(t2, [t3], ".");
    assert [t2, t3] == [t2] + [t3];
    JoinCons(t1, [t2, t3], ".");
    assert [t1, t2, t3] == [t1] + [t2, t3];
    JoinCons(t0, [t1, t2, t3], ".");
    assert [t0, t1, t2, t3] == [t0] + [t1, t2, t3];
  }

  /** The dotted-decimal form is 7 to 15 digits and dots, beginning and ending with a digit. */
  lemma FormatIPv4Shape(b: Bytes4)
    ensures 7 <= |FormatIPv4(b)| <= 15
    ensures forall i :: 0 <= i < |FormatIPv4(b)| ==> IsDigit(FormatIPv4(b)[i]) || FormatIPv4(b)[i] == '.'
    ensures IsDigit(FormatIPv4(b)[0]) && IsDigit(FormatIPv4(b)[|FormatIPv4(b)| - 1])
  {
    var t0, t1, t2, t3 := DecimalText(b[0]), DecimalText(b[1]), DecimalText(b[2]), DecimalText(b[3]);
    OctetTextOfByte(b[0]);
    OctetTextOfByte(b[1]);
    OctetTextOfByte(b[2]);
    OctetTextOfByte(b[3]);
    FormatIPv4Fields(b);
    assert AllDigits(t0) && AllDigits(t1) && AllDigits(t2) && AllDigits(t3);
  }

  /** Parsing the dotted-decimal form of four bytes gives the bytes back. */
  lemma IPv4RoundTrip(b: Bytes4)
    ensures ParseIPv4Text(FormatIPv4(b)) == Some(b)
  {
    OctetTextOfByte(b[0]);
    OctetTextOfByte(b[1]);
    OctetTextOfByte(b[2]);
    OctetTextOfByte(b[3]);
    var parts := [DecimalText(b[0]), DecimalText(b[1]), DecimalText(b[2]), DecimalText(b[3])];
    JoinSplit(parts, ".");
    assert Split(FormatIPv4(b), ".") == parts;
    assert [DecimalValue(parts[0]), DecimalValue(parts[1]), DecimalValue(parts[2]), DecimalValue(parts[3])] == b;
  }

  // ---------------------------------------------------------------------
  // IPv6
  // ---------------------------------------------------------------------

  predicate IsHexDigit(c: char)
  {
    ('0' <= c <= '9') || ('a' <= c <= 'f') || ('A' <= c <= 'F')
  }

  function HexDigitValue(c: char): (v: nat)
    requires IsHexDigit(c)
    ensures v < 16
  {
    if '0' <= c <= '9' then c as int - '0' as int
    else if 'a' <= c <= 'f' then c as int - 'a' as int + 10
    else c as int - 'A' as int + 10
  }

  /** A 16-bit group: one to four hexadecimal digits. */
  predicate IsHexGroup(g: string)
  {
    1 <= |g| <= 4 && forall i :: 0 <= i < |g| ==> IsHexDigit(g[i])
  }

  /** The value of a hexadecimal numeral, most significant digit first. */
  function HexValue(g: string): (v: nat)
    requires forall i :: 0 <= i < |g| ==> IsHexDigit(g[i])
    ensures |g| <= 1 ==> v < 0x10
    ensures |g| <= 2 ==> v < 0x100
    ensures |g| <= 3 ==> v < 0x1000
    ensures |g| <= 4 ==> v < 0x1_0000
    decreases |g|
  {
    if |g| == 0 then 0 else 16 * HexValue(g[..|g| - 1]) + HexDigitValue(g[|g| - 1])
  }

  /** A group as the two bytes it stands for, high byte first (network order). */
  function GroupBytes(g: string): (r: seq<uint8>)
    requires IsHexGroup(g)
    ensures |r| == 2 && (r[0] as int) * 256 + (r[1] as int) == HexValue(g)
  {
    var v := HexValue(g);
    assert v / 256 < 256 by {
      assert v < 0x1_0000;
    }
    [(v / 256) as uint8, (v % 256) as uint8]
  }

  /**
   * The bytes of a run of colon-separated groups; when `ipv4Tail` holds, the
   * last piece may instead be a dotted quad worth four bytes.
   */
  function ParseGroups(parts: seq<string>, ipv4Tail: bool): (r: Option<seq<uint8>>)
    ensures r.Some? ==> |r.value| <= 2 * |parts| + 2
    decreases |parts|
  {
    if |parts| == 0 then Some([])
    else if |parts| == 1 && ipv4Tail && '.' in parts[0] then
      var quad :- ParseIPv4Text(parts[0]);
      Some(quad)
    else if IsHexGroup(parts[0]) then
      var rest :- ParseGroups(parts[1..], ipv4Tail);
      Some(GroupBytes(parts[0]) + rest)
    else None
  }

  function Zeros(n: nat): (r: seq<uint8>)
    ensures |r| == n && forall i :: 0 <= i < n ==> r[i] == 0
  {
    seq(n, _ => 0)
  }

  /** inet_pton(AF_INET6, s): the sixteen bytes of an IPv6 address in text form, or nothing. */
  function ParseIPv6Text(s: string): Option<Bytes16>
  {
    var halves := Split(s, "::");
    if |halves| == 1 then
      var b :- ParseGroups(Split(s, ":"), true);
      if |b| == 16 then Some(b) else None
    else if |halves| == 2 then
      var head :- if halves[0] == "" then Some([]) else ParseGroups(Split(halves[0], ":"), false);
      var tail :- if halves[1] == "" then Some([]) else ParseGroups(Split(halves[1], ":"), true);
      // "::" stands for at least one zero group
      if |head| + |tail| <= 14 then Some(head + Zeros(16 - |head| - |tail|) + tail) else None
    else None
  }

  // ---------------------------------------------------------------------
  // The full IPv6 text form
  // ---------------------------------------------------------------------

  /** The lower-case hexadecimal digit of a value below 16. */
  function HexDigitChar(n: nat): (c: char)
    requires n < 16
    ensures IsHexDigit(c) && HexDigitValue(c) == n
  {
    if n < 10 then ('0' as int + n) as char else ('a' as int + n - 10) as char
  }

  /** A 16-bit group written as four hexadecimal digits, high byte first. */
  function HexGroupText(hi: uint8, lo: uint8): string
  {
    [HexDigitChar(hi / 16), HexDigitChar(hi % 16), HexDigitChar(lo / 16), HexDigitChar(lo % 16)]
  }

  /** The groups of an even number of bytes, two bytes to a group. */
  function GroupTexts(b: seq<uint8>): (groups: seq<string>)
    requires |b| % 2 == 0
    ensures |groups| == |b| / 2
    decreases |b|
  {
    if |b| == 0 then [] else [HexGroupText(b[0], b[1])] + GroupTexts(b[2..])
  }

  /** The uncompressed form of an IPv6 address: eight groups of four digits separated by ':'. */
  function FormatIPv6(b: Bytes16): string
  {
    Join(GroupTexts(b), ":")
  }

  /** A printed group is a valid group standing for its two bytes, holding no ':' or '.'. */
  lemma HexGroupTextBytes(hi: uint8, lo: uint8)
    ensures IsHexGroup(HexGroupText(hi, lo)) && GroupBytes(HexGroupText(hi, lo)) == [hi, lo]
    ensures ':' !in HexGroupText(hi, lo) && '.' !in HexGroupText(hi, lo)
  {
    var g := HexGroupText(hi, lo);
    assert g[..1][..0] == [];
    assert HexValue(g[..1]) == hi / 16;
    assert g[..2][..1] == g[..1];
    assert HexValue(g[..2]) == hi by {
      assert HexValue(g[..2]) == 16 * (hi / 16) + hi % 16;
    }
    assert g[..3][..2] == g[..2];
    assert HexValue(g[..3]) == 16 * hi + lo / 16;
    assert g[..4][..3] == g[..3] && g[..4] == g;
    assert HexValue(g) == (hi as int) * 256 + (lo as int) by {
      assert HexValue(g) == 16 * (16 * hi + lo / 16) + lo % 16;
    }
    assert forall i :: 0 <= i < |g| ==> IsHexDigit(g[i]);
  }

  /** Reading the groups of an even number of bytes gives them back. */
  lemma {:induction false} ParseGroupTexts(b: seq<uint8>, ipv4Tail: bool)
    requires |b| % 2 == 0
    ensures ParseGroups(GroupTexts(b), ipv4Tail) == Some(b)
    ensures forall k :: 0 <= k < |GroupTexts(b)| ==> |GroupTexts(b)[k]| == 4 && ':' !in GroupTexts(b)[k]
    decreases |b|
  {
    if |b| > 0 {
      var groups := GroupTexts(b);
      HexGroupTextBytes(b[0], b[1]);
      ParseGroupTexts(b[2..], ipv4Tail);
      assert groups[1..] == GroupTexts(b[2..]);
      assert b == [b[0], b[1]] + b[2..];
      assert forall k :: 1 <= k < |groups| ==> groups[k] == GroupTexts(b[2..])[k - 1];
    }
  }

  /** Pieces that are not empty and hold no ':' join with ':' into a text without "::". */
  lemma {:induction false} JoinFreeOfDouble(pieces: seq<string>)
    requires |pieces| >= 1
    requires forall k :: 0 <= k < |pieces| ==> |pieces[k]| > 0 && ':' !in pieces[k]
    ensures Free(Join(pieces, ":"), "::")
    ensures |Join(pieces, ":")| > 0 && Join(pieces, ":")[0] != ':'
    ensures Join(pieces, ":")[|Join(pieces, ":")| - 1] != ':'
    decreases |pieces|
  {
    var s := Join(pieces, ":");
    if |pieces| == 1 {
      FreeByFirst(pieces[0], "::");
    } else {
      var first, rest := pieces[0], Join(pieces[1..], ":");
      JoinFreeOfDouble(pieces[1..]);
      assert s == first + ":" + rest;
      forall j | 0 <= j <= |s|
        ensures !OccursAt(s, j, "::")
      {
        if j + 2 <= |s| {
          if j < |first| {
            assert s[j] == first[j];
          } else if j == |first| {
            assert s[j + 1] == rest[0];
          } else {
            assert s[j..j + 2] == rest[j - |first| - 1..j - |first| + 1];
            assert !OccursAt(rest, j - |first| - 1, "::");
          }
        }
      }
      assert s[0] == first[0];
      assert s[|s| - 1] == rest[|rest| - 1];
    }
  }

  /** The uncompressed form holds no "::" and splits at ':' into the groups. */
  lemma FormatIPv6Pieces(b: Bytes16)
    ensures Split(FormatIPv6(b), "::") == [FormatIPv6(b)]
    ensures Split(FormatIPv6(b), ":") == GroupTexts(b)
    ensures ParseGroups(GroupTexts(b), true) == Some(b)
  {
    var groups := GroupTexts(b);
    ParseGroupTexts(b, true);
    JoinFreeOfDouble(groups);
    SplitOfFree(FormatIPv6(b), "::");
    JoinSplit(groups, ":");
  }

  /** The uncompressed form takes 39 characters, and holds no NUL, ']' or '.'. */
  lemma FormatIPv6Shape(b: Bytes16)
    ensures |FormatIPv6(b)| == 39
    ensures '\0' !in FormatIPv6(b) && ']' !in FormatIPv6(b) && '.' !in FormatIPv6(b)
  {
    var groups := GroupTexts(b);
    ParseGroupTexts(b, true);
    JoinLength(groups, ":", 4);
    forall k | 0 <= k < |groups|
      ensures '\0' !in groups[k] && ']' !in groups[k] && '.' !in groups[k]
    {
      GroupTextDigits(b, k);
      var g := groups[k];
      assert forall i :: 0 <= i < |g| ==> IsHexDigit(g[i]);
    }
    JoinChars(groups, ":", '\0');
    JoinChars(groups, ":", ']');
    JoinChars(groups, ":", '.');
  }

  /** Every group of the uncompressed form is hexadecimal digits. */
  lemma {:induction false} GroupTextDigits(b: seq<uint8>, k: nat)
    requires |b| % 2 == 0 && k < |b| / 2
    ensures forall i :: 0 <= i < |GroupTexts(b)[k]| ==> IsHexDigit(GroupTexts(b)[k][i])
    decreases |b|
  {
    if k > 0 {
      GroupTextDigits(b[2..], k - 1);
      assert GroupTexts(b)[k] == GroupTexts(b[2..])[k - 1];
    } else {
      HexGroupTextBytes(b[0], b[1]);
    }
  }

  /** Parsing the uncompressed form of sixteen bytes gives the bytes back. */
  lemma IPv6RoundTrip(b: Bytes16)
    ensures ParseIPv6Text(FormatIPv6(b)) == Some(b)
  {
    FormatIPv6Pieces(b);
  }

  // ---------------------------------------------------------------------
  // IPv6 texts made of groups
  // ---------------------------------------------------------------------

  /** All pieces are groups of hexadecimal digits. */
  predicate HexGroups(parts: seq<string>)
  {
    forall k :: 0 <= k < |parts| ==> IsHexGroup(parts[k])
  }

  /** A group holds none of ':', '.', ']' or NUL. */
  lemma HexGroupsPlain(parts: seq<string>)
    requires HexGroups(parts)
    ensures forall k :: 0 <= k < |parts| ==>
      |parts[k]| > 0 && ':' !in parts[k] && '.' !in parts[k] && ']' !in parts[k] && '\0' !in parts[k]
  {
    forall k | 0 <= k < |parts|
      ensures ':' !in parts[k] && '.' !in parts[k] && ']' !in parts[k] && '\0' !in parts[k]
    {
      var g := parts[k];
      assert forall i :: 0 <= i < |g| ==> IsHexDigit(g[i]);
    }
  }

  /** Groups joined by ':' hold no '.', ']' or NUL, and split back into the groups. */
  lemma GroupsJoined(parts: seq<string>)
    requires |parts| >= 1 && HexGroups(parts)
    ensures '.' !in Join(parts, ":") && ']' !in Join(parts, ":") && '\0' !in Join(parts, ":")
    ensures Split(Join(parts, ":"), ":") == parts
    ensures Free(Join(parts, ":"), "::")
    ensures Join(parts, ":")[0] != ':' && Join(parts, ":")[|Join(parts, ":")| - 1] != ':'
  {
    HexGroupsPlain(parts);
    JoinChars(parts, ":", '.');
    JoinChars(parts, ":", ']');
    JoinChars(parts, ":", '\0');
    JoinSplit(parts, ":");
    JoinFreeOfDouble(parts);
  }

  /** Groups read as two bytes each. */
  lemma {:induction false} HexGroupsParse(parts: seq<string>, ipv4Tail: bool)
    requires HexGroups(parts)
    ensures ParseGroups(parts, ipv4Tail).Some? && |ParseGroups(parts, ipv4Tail).value| == 2 * |parts|
    decreases |parts|
  {
    if |parts| > 0 {
      HexGroupsPlain(parts);
      assert HexGroups(parts[1..]) by {
        assert forall k :: 1 <= k < |parts| ==> parts[1..][k - 1] == parts[k];
      }
      HexGroupsParse(parts[1..], ipv4Tail);
    }
  }

  /** Eight groups joined by ':' are read as the sixteen bytes of the groups. */
  lemma FullGroups(parts: seq<string>)
    requires |parts| == 8 && HexGroups(parts)
    ensures ParseGroups(parts, true).Some?
    ensures ParseIPv6Text(Join(parts, ":")) == ParseGroups(parts, true)
  {
    GroupsJoined(parts);
    SplitOfFree(Join(parts, ":"), "::");
    HexGroupsParse(parts, true);
  }

  /**
   * Groups, "::" and more groups, seven groups at most: the groups before,
   * enough zero bytes to make sixteen, and the groups after.
   */
  lemma CompressedGroups(pre: seq<string>, post: seq<string>)
    requires |pre| >= 1 && |post| >= 1 && |pre| + |post| <= 7
    requires HexGroups(pre) && HexGroups(post)
    ensures ParseGroups(pre, false).Some? && ParseGroups(post, true).Some?
    ensures ParseIPv6Text(Join(pre, ":") + "::" + Join(post, ":")) ==
      Some(ParseGroups(pre, false).value + Zeros(16 - 2 * |pre| - 2 * |post|) + ParseGroups(post, true).value)
  {
    var a, b := Join(pre, ":"), Join(post, ":");
    GroupsJoined(pre);
    GroupsJoined(post);
    HexGroupsParse(pre, false);
    HexGroupsParse(post, true);
    DoubleColonSplit(a, b);
    CompressedText(a + "::" + b, a, b, ParseGroups(pre, false).value, ParseGroups(post, true).value);
  }

  /** The value of a text with one "::", from the parses of its two halves. */
  lemma CompressedText(s: string, a: string, b: string, head: seq<uint8>, tail: seq<uint8>)
    requires Split(s, "::") == [a, b] && a != "" && b != ""
    requires ParseGroups(Split(a, ":"), false) == Some(head)
    requires ParseGroups(Split(b, ":"), true) == Some(tail)
    requires |head| + |tail| <= 14
    ensures ParseIPv6Text(s) == Some(head + Zeros(16 - |head| - |tail|) + tail)
  {
    var halves := Split(s, "::");
    assert |halves| == 2 && halves[0] == a && halves[1] == b;
    assert |head + Zeros(16 - |head| - |tail|) + tail| == 16;
  }

  /** a + "::" + b splits at that "::" when neither a nor b holds one and a does not end in ':'. */
  lemma DoubleColonSplit(a: string, b: string)
    requires |a| > 0 && a[|a| - 1] != ':' && Free(a, "::") && Free(b, "::")
    ensures Split(a + "::" + b, "::") == [a, b]
  {
    var s := a + "::" + b;
    forall j | 0 <= j < |a|
      ensures !OccursAt(s, j, "::")
    {
      assert j + 2 <= |s| && s[j..j + 2] == [s[j], s[j + 1]];
      if j < |a| - 1 {
        assert s[j..j + 2] == a[j..j + 2];
        assert !OccursAt(a, j, "::");
      } else {
        assert s[j] == a[|a| - 1];
      }
    }
    SplitPeel(a, "::", b);
    SplitOfFree(b, "::");
  }
}
