/** Facts relating a byte to its two nibbles. */
module Bytes {
  /** A nibble as a byte. */
  function Nibble(d: int): (x: bv8)
    requires 0 <= d < 16
    ensures x < 16 && x as int == d
  {
    d as bv8
  }

  lemma NibbleOfNibble(y: bv8)
    requires y < 16
    ensures Nibble(y as int) == y
  {
  }

  /** The byte with high nibble `a` and low nibble `b`. */
  lemma SplitJoinedNibbles(a: bv8, b: bv8)
    requires a < 16 && b < 16
    ensures ((a << 4) | b) >> 4 == a && ((a << 4) | b) & 0xF == b
  {
  }

  lemma JoinSplitNibbles(x: bv8)
    ensures ((x >> 4) << 4) | (x & 0xF) == x
    ensures x >> 4 < 16 && x & 0xF < 16
  {
  }
}

/** Version-4 UUID generation in `chat_server.c` (`generate_uuid`): sixteen random
    bytes with the version and variant bits forced as section 4.4 of RFC 4122
    describes, printed as 8-4-4-4-12 lowercase hexadecimal digits. The random
    bytes are a parameter. */
module Uuid {
  import opened CStr
  import opened ChatTypes
  import opened Bytes

  const UUID_BYTES: nat := 16
  /** Length of the text form, without the terminator. */
  const UUID_TEXT_LENGTH: nat := 36

  /** The version nibble is 4 and the top two variant bits are `10`. */
  predicate IsVersion4(b: seq<bv8>)
    requires |b| == UUID_BYTES
  {
    b[6] >> 4 == 4 && b[8] >> 6 == 2
  }

  /** Force the version and variant bits; every other bit is kept. */
  function StampVersion(b: seq<bv8>): (r: seq<bv8>)
    requires |b| == UUID_BYTES
    ensures |r| == UUID_BYTES
    ensures IsVersion4(r)
    ensures r[6] & 0x0F == b[6] & 0x0F && r[8] & 0x3F == b[8] & 0x3F
    ensures forall i :: 0 <= i < UUID_BYTES && i != 6 && i != 8 ==> r[i] == b[i]
  {
    b[6 := (b[6] & 0x0F) | 0x40][8 := (b[8] & 0x3F) | 0x80]
  }

  /** Stamping changes exactly the bytes that are not already version-4. */
  lemma StampVersionFixedPoints(b: seq<bv8>)
    requires |b| == UUID_BYTES
    ensures StampVersion(b) == b <==> IsVersion4(b)
  {
    if IsVersion4(b) {
      var r := StampVersion(b);
      assert r[6] == b[6] && r[8] == b[8];
      assert forall i :: 0 <= i < UUID_BYTES ==> r[i] == b[i];
    }
  }

  /** Stamping twice is stamping once. */
  lemma StampVersionIdempotent(b: seq<bv8>)
    requires |b| == UUID_BYTES
    ensures StampVersion(StampVersion(b)) == StampVersion(b)
  {
    StampVersionFixedPoints(StampVersion(b));
  }

  /** A character `%x` prints. */
  predicate IsLowerHex(c: char) {
    '0' <= c <= '9' || 'a' <= c <= 'f'
  }

  function HexDigit(n: int): (c: char)
    requires 0 <= n < 16
    ensures IsLowerHex(c)
  {
    if n < 10 then (n + '0' as int) as char else (n - 10 + 'a' as int) as char
  }

  function HexValue(c: char): (n: int)
    requires IsLowerHex(c)
    ensures 0 <= n < 16 && HexDigit(n) == c
  {
    if c <= '9' then c as int - '0' as int else c as int - 'a' as int + 10
  }

  lemma HexValueOfDigit(n: int)
    requires 0 <= n < 16
    ensures HexValue(HexDigit(n)) == n
  {
  }

  /** `%02x` of one byte. */
  function Hex2(x: bv8): (s: string)
    ensures |s| == 2
  {
    [HexDigit((x >> 4) as int), HexDigit((x & 0xF) as int)]
  }

  /** `%02x` of each byte in turn. */
  function HexRun(b: seq<bv8>): (s: string)
    ensures |s| == 2 * |b|
    ensures forall i :: 0 <= i < |s| ==> IsLowerHex(s[i])
  {
    if |b| == 0 then [] else Hex2(b[0]) + HexRun(b[1..])
  }

  /** Five groups joined by hyphens. */
  function Dashed(g0: string, g1: string, g2: string, g3: string, g4: string): string {
    g0 + "-" + g1 + "-" + g2 + "-" + g3 + "-" + g4
  }

  /** The text form: groups of 4, 2, 2, 2 and 6 bytes separated by hyphens. */
  function Format(b: seq<bv8>): (s: string)
    requires |b| == UUID_BYTES
    ensures |s| == UUID_TEXT_LENGTH
  {
    Dashed(HexRun(b[..4]), HexRun(b[4..6]), HexRun(b[6..8]), HexRun(b[8..10]), HexRun(b[10..]))
  }

  predicate IsHyphenPosition(i: int) {
    i == 8 || i == 13 || i == 18 || i == 23
  }

  /** Canonical text: 36 characters, hyphens at 8, 13, 18 and 23, lowercase hex elsewhere. */
  predicate IsUuidText(s: string) {
    && |s| == UUID_TEXT_LENGTH
    && forall i :: 0 <= i < |s| ==> if IsHyphenPosition(i) then s[i] == '-' else IsLowerHex(s[i])
  }

  predicate AllLowerHex(s: string) {
    forall i :: 0 <= i < |s| ==> IsLowerHex(s[i])
  }

  /** Where the groups of an 8-4-4-4-12 text sit. */
  lemma DashedSlices(g0: string, g1: string, g2: string, g3: string, g4: string)
    requires |g0| == 8 && |g1| == 4 && |g2| == 4 && |g3| == 4 && |g4| == 12
    ensures var s := Dashed(g0, g1, g2, g3, g4);
            && |s| == UUID_TEXT_LENGTH
            && s[..8] == g0 && s[9..13] == g1 && s[14..18] == g2 && s[19..23] == g3 && s[24..] == g4
            && s[8] == '-' && s[13] == '-' && s[18] == '-' && s[23] == '-'
  {
  }

  /** Canonical text is its own groups joined by hyphens. */
  lemma DashedOfText(s: string)
    requires IsUuidText(s)
    ensures s == Dashed(s[..8], s[9..13], s[14..18], s[19..23], s[24..])
  {
    assert IsHyphenPosition(8) && IsHyphenPosition(13) && IsHyphenPosition(18) && IsHyphenPosition(23);
    var t := Dashed(s[..8], s[9..13], s[14..18], s[19..23], s[24..]);
    DashedSlices(s[..8], s[9..13], s[14..18], s[19..23], s[24..]);
    assert t[..8] == s[..8] && t[9..13] == s[9..13] && t[14..18] == s[14..18] && t[19..23] == s[19..23] && t[24..] == s[24..];
    forall i | 0 <= i < |s|
      ensures s[i] == t[i]
    {
      if i < 8 { assert s[i] == s[..8][i] && t[i] == t[..8][i]; }
      else if 8 < i < 13 { assert s[i] == s[9..13][i - 9] && t[i] == t[9..13][i - 9]; }
      else if 13 < i < 18 { assert s[i] == s[14..18][i - 14] && t[i] == t[14..18][i - 14]; }
      else if 18 < i < 23 { assert s[i] == s[19..23][i - 19] && t[i] == t[19..23][i - 19]; }
      else if 23 < i { assert s[i] == s[24..][i - 24] && t[i] == t[24..][i - 24]; }
    }
  }

  lemma FormatIsUuidText(b: seq<bv8>)
    requires |b| == UUID_BYTES
    ensures IsUuidText(Format(b))
  {
    var g0, g1, g2, g3, g4 := HexRun(b[..4]), HexRun(b[4..6]), HexRun(b[6..8]), HexRun(b[8..10]), HexRun(b[10..]);
    var s := Dashed(g0, g1, g2, g3, g4);
    DashedSlices(g0, g1, g2, g3, g4);
    forall i | 0 <= i < |s|
      ensures if IsHyphenPosition(i) then s[i] == '-' else IsLowerHex(s[i])
    {
      if i < 8 { assert s[i] == s[..8][i]; }
      else if 8 < i < 13 { assert s[i] == s[9..13][i - 9]; }
      else if 13 < i < 18 { assert s[i] == s[14..18][i - 14]; }
      else if 18 < i < 23 { assert s[i] == s[19..23][i - 19]; }
      else if 23 < i { assert s[i] == s[24..][i - 24]; }
    }
  }

  /** Where the 4-2-2-2-6 byte groups sit. */
  lemma ByteGroups(p0: seq<bv8>, p1: seq<bv8>, p2: seq<bv8>, p3: seq<bv8>, p4: seq<bv8>)
    requires |p0| == 4 && |p1| == 2 && |p2| == 2 && |p3| == 2 && |p4| == 6
    ensures var b := p0 + p1 + p2 + p3 + p4;
            b[..4] == p0 && b[4..6] == p1 && b[6..8] == p2 && b[8..10] == p3 && b[10..] == p4
  {
  }

  lemma JoinByteGroups(b: seq<bv8>)
    requires |b| == UUID_BYTES
    ensures b[..4] + b[4..6] + b[6..8] + b[8..10] + b[10..] == b
  {
  }

  /** The byte two hex digits denote. */
  function ByteOf(hi: int, lo: int): bv8
    requires 0 <= hi < 16 && 0 <= lo < 16
  {
    (Nibble(hi) << 4) | Nibble(lo)
  }

  /** Reading a byte's two digits back gives the byte. */
  lemma ByteOfHex2(x: bv8)
    ensures ByteOf(HexValue(Hex2(x)[0]), HexValue(Hex2(x)[1])) == x
  {
    DigitsOfHex2(x);
    JoinSplitNibbles(x);
    NibbleOfNibble(x >> 4);
    NibbleOfNibble(x & 0xF);
  }

  lemma DigitsOfHex2(x: bv8)
    ensures HexValue(Hex2(x)[0]) == (x >> 4) as int && HexValue(Hex2(x)[1]) == (x & 0xF) as int
  {
    HexValueOfDigit((x >> 4) as int);
    HexValueOfDigit((x & 0xF) as int);
  }

  /** Printing the byte that two digits denote gives the digits. */
  lemma Hex2OfByte(hi: int, lo: int)
    requires 0 <= hi < 16 && 0 <= lo < 16
    ensures Hex2(ByteOf(hi, lo)) == [HexDigit(hi), HexDigit(lo)]
  {
    SplitJoinedNibbles(Nibble(hi), Nibble(lo));
  }

  /** Hex digits read back in pairs. */
  function ParseRun(s: string): (b: seq<bv8>)
    requires |s| % 2 == 0 && AllLowerHex(s)
    ensures 2 * |b| == |s|
  {
    if |s| == 0 then [] else [ByteOf(HexValue(s[0]), HexValue(s[1]))] + ParseRun(s[2..])
  }

  lemma {:induction false} ParseRunHexRun(b: seq<bv8>)
    ensures ParseRun(HexRun(b)) == b
  {
    if |b| > 0 {
      var s := HexRun(b);
      assert s[..2] == Hex2(b[0]) && s[2..] == HexRun(b[1..]);
      ByteOfHex2(b[0]);
      ParseRunHexRun(b[1..]);
    }
  }

  lemma {:induction false} HexRunParseRun(s: string)
    requires |s| % 2 == 0 && AllLowerHex(s)
    ensures HexRun(ParseRun(s)) == s
  {
    if |s| > 0 {
      var b := ParseRun(s);
      assert b[1..] == ParseRun(s[2..]);
      HexRunParseRun(s[2..]);
      Hex2OfByte(HexValue(s[0]), HexValue(s[1]));
      assert s == [s[0], s[1]] + s[2..];
    }
  }

  /** The inverse of `Format`: the bytes of canonical UUID text, or `None`. */
  function Parse(s: string): (r: Option<seq<bv8>>)
    ensures r.Some? <==> IsUuidText(s)
    ensures r.Some? ==> |r.value| == UUID_BYTES
  {
    if !IsUuidText(s) then None
    else
      assert forall i :: 0 <= i < 8 ==> s[..8][i] == s[i];
      assert forall i :: 0 <= i < 4 ==> s[9..13][i] == s[9 + i];
      assert forall i :: 0 <= i < 4 ==> s[14..18][i] == s[14 + i];
      assert forall i :: 0 <= i < 4 ==> s[19..23][i] == s[19 + i];
      assert forall i :: 0 <= i < 12 ==> s[24..][i] == s[24 + i];
      Some(ParseRun(s[..8]) + ParseRun(s[9..13]) + ParseRun(s[14..18]) + ParseRun(s[19..23]) + ParseRun(s[24..]))
  }

  /** Parsing the text of any sixteen bytes gives the bytes back. */
  lemma ParseFormat(b: seq<bv8>)
    requires |b| == UUID_BYTES
    ensures Parse(Format(b)) == Some(b)
  {
    FormatIsUuidText(b);
    var g0, g1, g2, g3, g4 := HexRun(b[..4]), HexRun(b[4..6]), HexRun(b[6..8]), HexRun(b[8..10]), HexRun(b[10..]);
    DashedSlices(g0, g1, g2, g3, g4);
    ParseRunHexRun(b[..4]);
    ParseRunHexRun(b[4..6]);
    ParseRunHexRun(b[6..8]);
    ParseRunHexRun(b[8..10]);
    ParseRunHexRun(b[10..]);
    JoinByteGroups(b);
  }

  /** Formatting what any canonical text parses to gives the text back. */
  lemma FormatParse(s: string)
    requires IsUuidText(s)
    ensures Parse(s).Some? && Format(Parse(s).value) == s
  {
    var p0, p1, p2, p3, p4 := ParseRun(s[..8]), ParseRun(s[9..13]), ParseRun(s[14..18]), ParseRun(s[19..23]), ParseRun(s[24..]);
    ByteGroups(p0, p1, p2, p3, p4);
    HexRunParseRun(s[..8]);
    HexRunParseRun(s[9..13]);
    HexRunParseRun(s[14..18]);
    HexRunParseRun(s[19..23]);
    HexRunParseRun(s[24..]);
    DashedOfText(s);
  }

  /** `generate_uuid`: stamp the random bytes and print them into a
      `MAX_UUID_LENGTH` buffer, which the 36 characters fit. The result is
      canonical text carrying version digit `4` and a variant digit in `8`..`b`,
      and it parses back to the stamped bytes. */
  function GenerateUuid(random: seq<bv8>): (s: string)
    requires |random| == UUID_BYTES
    ensures IsUuidText(s) && |s| < MAX_UUID_LENGTH
    ensures s[14] == '4'
    ensures s[19] in "89ab"
    ensures Parse(s) == Some(StampVersion(random))
  {
    var b := StampVersion(random);
    FormatIsUuidText(b);
    ParseFormat(b);
    var s := Format(b);
    DashedSlices(HexRun(b[..4]), HexRun(b[4..6]), HexRun(b[6..8]), HexRun(b[8..10]), HexRun(b[10..]));
    assert s[14] == s[14..18][0] == HexDigit((b[6] >> 4) as int);
    assert s[19] == s[19..23][0] == HexDigit((b[8] >> 4) as int);
    VariantNibble(b[8]);
    Strlcpy(s, MAX_UUID_LENGTH)
  }

  lemma VariantNibble(x: bv8)
    requires x >> 6 == 2
    ensures HexDigit((x >> 4) as int) in "89ab"
  {
    var n := (x >> 4) as int;
    assert 8 <= n <= 11;
    assert HexDigit(n) == "89ab"[n - 8];
  }

  /** Two generated identifiers are equal exactly when the random bytes agree
      outside the forced bits. */
  lemma GenerateUuidInjective(a: seq<bv8>, b: seq<bv8>)
    requires |a| == UUID_BYTES && |b| == UUID_BYTES
    ensures GenerateUuid(a) == GenerateUuid(b) <==> StampVersion(a) == StampVersion(b)
  {
  }
}
