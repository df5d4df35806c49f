/**
 * The locality UUID: a 16-byte identifier whose layout packs a counter, a
 * process id, a version nibble with a fragment of the MAC address, and the low
 * 48 bits of a tick clock. This module holds the pure part of the codec: the
 * binary layout, the 8-4-4-4-12 text form (section 3 of RFC 4122) with its
 * validator and parser, the two 64-bit halves, and the version-gated field
 * extractors.
 *
 * Bytes are `bv8`. The counter is a `bv32` (the bit pattern of a 32-bit
 * `int`, so additions wrap around), the clock and the halves are `bv64` (the
 * bit pattern of a `long`), and a C# `(byte)` cast is `Low8`/`Low8Of64`.
 */
module UuidCodec {
  import opened Wrappers
  import Framework

  /** The content of an identifier: exactly 16 bytes. */
  type Bytes16 = s: seq<bv8> | |s| == 16 witness [0, 0, 0, 0, 0, 0, 0, 0, 0, 0, 0, 0, 0, 0, 0, 0]

  /** An identifier: a value that owns its 16 bytes. */
  datatype Uuid = Uuid(content: Bytes16)

  /** Why a constructor refused its input. */
  datatype UuidError =
    | NullInput
    | InvalidLength(length: nat)
    | MalformedIdentifier(id: string)
    | NullDestination

  /** The version character written into generated identifiers. */
  const Version: char := 'b'

  /** The lower-case hex digits, indexed by their value. */
  const Hex: string := "0123456789abcdef"

  /** The step the counter takes per identifier in variable mode. */
  const Increment: bv32 := 198491317

  // ---------------------------------------------------------------------------
  // Hex digits
  // ---------------------------------------------------------------------------

  /** `validHex`: the character is one of 0-9, a-f, A-F. */
  predicate ValidHex(c: char)
  {
    ('0' <= c <= '9') || ('a' <= c <= 'f') || ('A' <= c <= 'F')
  }

  /** `IntValue`: the value of a hex digit; `None` where the source throws. */
  function IntValue(x: char): (r: Option<bv8>)
    ensures r.Some? <==> ValidHex(x)
    ensures r.Some? ==> r.value < 16
  {
    if '0' <= x <= '9' then Some((x as int - '0' as int) as bv8)
    else if 'a' <= x <= 'f' then Some((x as int - 'a' as int + 10) as bv8)
    else if 'A' <= x <= 'F' then Some((x as int - 'A' as int + 10) as bv8)
    else None
  }

  /** `MapToByte`: two hex digits as one byte, the first one high; `None` where the source throws. */
  function MapToByte(a: char, b: char): (r: Option<bv8>)
    ensures r.Some? <==> ValidHex(a) && ValidHex(b)
    ensures r.Some? ==> (r.value & 0xF0) >> 4 == IntValue(a).value && r.value & 0x0F == IntValue(b).value
  {
    match (IntValue(a), IntValue(b))
    case (Some(ai), Some(bi)) => Some((ai << 4) | bi)
    case _ => None
  }

  /** `VersionDec`: the version character in the high nibble of a byte. */
  const VersionDec: bv8 := MapToByte(Version, '0').value

  /** The value of a hex digit is what `IntValue` reads back from it; the digit is never upper case. */
  lemma HexDigit(n: bv8)
    requires n < 16
    ensures ('0' <= Hex[n as int] <= '9') || ('a' <= Hex[n as int] <= 'f')
    ensures IntValue(Hex[n as int]) == Some(n)
  {
  }

  /** The hex digit of the high nibble of `b`, which reads back as that nibble. */
  function High(b: bv8): (r: char)
    ensures ('0' <= r <= '9') || ('a' <= r <= 'f')
    ensures IntValue(r) == Some((b & 0xF0) >> 4)
  {
    HexDigit((b & 0xF0) >> 4);
    Hex[((b & 0xF0) >> 4) as int]
  }

  /** The hex digit of the low nibble of `b`, which reads back as that nibble. */
  function Low(b: bv8): (r: char)
    ensures ('0' <= r <= '9') || ('a' <= r <= 'f')
    ensures IntValue(r) == Some(b & 0x0F)
  {
    HexDigit(b & 0x0F);
    Hex[(b & 0x0F) as int]
  }

  /** The table digit for the value of a hex digit is that digit in lower case. */
  lemma HexOfIntValue(c: char)
    requires ValidHex(c)
    ensures Hex[IntValue(c).value as int] == Framework.LowerChar(c)
  {
    var n := IntValue(c).value;
    HexDigit(n);
    LowerKeepsValue(c);
    ValueInjective(Hex[n as int], Framework.LowerChar(c));
  }

  /** Lowering a hex digit gives a digit or a-f with the same value. */
  lemma LowerKeepsValue(c: char)
    requires ValidHex(c)
    ensures var l := Framework.LowerChar(c);
      (('0' <= l <= '9') || ('a' <= l <= 'f')) && IntValue(l) == IntValue(c)
  {
  }

  /** Digits and a-f are told apart by their values. */
  lemma ValueInjective(a: char, b: char)
    requires ('0' <= a <= '9') || ('a' <= a <= 'f')
    requires ('0' <= b <= '9') || ('a' <= b <= 'f')
    requires IntValue(a) == IntValue(b)
    ensures a == b
  {
    var i := if a <= '9' then a as int - '0' as int else a as int - 'a' as int + 10;
    var j := if b <= '9' then b as int - '0' as int else b as int - 'a' as int + 10;
    assert IntValue(a) == Some(i as bv8) && IntValue(b) == Some(j as bv8);
    SmallValues(i, j);
  }

  /** Two values below 16 with the same byte are the same value. */
  lemma SmallValues(i: int, j: int)
    requires 0 <= i < 16 && 0 <= j < 16 && i as bv8 == j as bv8
    ensures i == j
  {
  }

  /** Printing a byte as two digits and mapping them back gives the byte. */
  lemma ByteRoundTrip(b: bv8)
    ensures MapToByte(High(b), Low(b)) == Some(b)
  {
    assert ((((b & 0xF0) >> 4) << 4) | (b & 0x0F)) == b;
  }

  /** Mapping two digits to a byte and printing it gives the digits in lower case. */
  lemma DigitsRoundTrip(a: char, b: char)
    requires ValidHex(a) && ValidHex(b)
    ensures High(MapToByte(a, b).value) == Framework.LowerChar(a)
    ensures Low(MapToByte(a, b).value) == Framework.LowerChar(b)
  {
    HexOfIntValue(a);
    HexOfIntValue(b);
  }

  /** `VersionDec` is 0xB0: the version nibble `b` over a zero nibble. */
  lemma VersionDecValue()
    ensures VersionDec == 0xB0
  {
    assert IntValue('b') == Some(11);
    assert IntValue('0') == Some(0);
  }

  // ---------------------------------------------------------------------------
  // Text form
  // ---------------------------------------------------------------------------

  /** The positions of the four hyphens of the 8-4-4-4-12 form. */
  predicate IsHyphenPosition(i: int)
  {
    i == 8 || i == 13 || i == 18 || i == 23
  }

  /** The grammar of the text form: 36 characters, `-` at the hyphen positions, a hex digit elsewhere. */
  predicate MatchesGrammar(ch: seq<char>)
  {
    |ch| == 36 && forall i | 0 <= i < 36 :: if IsHyphenPosition(i) then ch[i] == '-' else ValidHex(ch[i])
  }

  /** `isValidUUID(char[])`, unrolled position by position as in the source. */
  predicate IsValidUuid(ch: seq<char>)
  {
    && |ch| == 36
    && ValidHex(ch[0]) && ValidHex(ch[1]) && ValidHex(ch[2]) && ValidHex(ch[3])
    && ValidHex(ch[4]) && ValidHex(ch[5]) && ValidHex(ch[6]) && ValidHex(ch[7])
    && ch[8] == '-'
    && ValidHex(ch[9]) && ValidHex(ch[10]) && ValidHex(ch[11]) && ValidHex(ch[12])
    && ch[13] == '-'
    && ValidHex(ch[14]) && ValidHex(ch[15]) && ValidHex(ch[16]) && ValidHex(ch[17])
    && ch[18] == '-'
    && ValidHex(ch[19]) && ValidHex(ch[20]) && ValidHex(ch[21]) && ValidHex(ch[22])
    && ch[23] == '-'
    && ValidHex(ch[24]) && ValidHex(ch[25]) && ValidHex(ch[26]) && ValidHex(ch[27])
    && ValidHex(ch[28]) && ValidHex(ch[29]) && ValidHex(ch[30]) && ValidHex(ch[31])
    && ValidHex(ch[32]) && ValidHex(ch[33]) && ValidHex(ch[34]) && ValidHex(ch[35])
  }

  /** `isValidUUID(String)`: false for null, never throws. */
  predicate IsValidUuidString(id: Option<string>)
  {
    id.Some? && IsValidUuid(id.value)
  }

  /** The unrolled validator accepts exactly the strings of the grammar. */
  lemma ValidIffGrammar(ch: seq<char>)
    ensures IsValidUuid(ch) <==> MatchesGrammar(ch)
  {
    if MatchesGrammar(ch) {
      assert IsHyphenPosition(8) && IsHyphenPosition(13) && IsHyphenPosition(18) && IsHyphenPosition(23);
    }
  }

  /** The first text position of the group that position `i` belongs to (groups of 8, 4, 4, 4, 12 digits). */
  function GroupStart(i: int): int
  {
    if i < 9 then 0 else if i < 14 then 9 else if i < 19 then 14 else if i < 24 then 19 else 24
  }

  /** The content index of the byte whose digit sits at text position `i`. */
  function ByteIndex(i: int): int
  {
    (i - GroupStart(i)) / 2 + (if i < 9 then 0 else if i < 14 then 4 else if i < 19 then 6 else if i < 24 then 8 else 10)
  }

  /** The text position of the high digit of content byte `k`: two digits per byte, skipping the hyphens before it. */
  function DigitPosition(k: int): int
  {
    2 * k + (if k < 4 then 0 else if k < 6 then 1 else if k < 8 then 2 else if k < 10 then 3 else 4)
  }

  /** The character at text position `i`: a hyphen, or a digit of byte `ByteIndex(i)`, high digit first. */
  function TextChar(c: Bytes16, i: int): char
    requires 0 <= i < 36
  {
    if IsHyphenPosition(i) then '-'
    else if (i - GroupStart(i)) % 2 == 0 then High(c[ByteIndex(i)])
    else Low(c[ByteIndex(i)])
  }

  /** `ToString`: the 36-character lower-case text form, two digits per byte. */
  function ToText(u: Uuid): (s: string)
    ensures |s| == 36
  {
    seq(36, i requires 0 <= i < 36 => TextChar(u.content, i))
  }

  /**
   * The byte spelled by the two hex digits at `i` and `i + 1`. The string
   * constructor only decodes text the validator has accepted, so the zero
   * fallback for a non-digit is never reached from `FromText`.
   */
  function HexByteAt(ch: seq<char>, i: nat): bv8
    requires i + 1 < |ch|
  {
    match MapToByte(ch[i], ch[i + 1])
    case Some(b) => b
    case None => 0
  }

  /** The 16 bytes the string constructor fills in: byte `k` from the digits at `DigitPosition(k)`. */
  function ParseContent(ch: seq<char>): Bytes16
    requires |ch| == 36
  {
    seq(16, k requires 0 <= k < 16 => HexByteAt(ch, DigitPosition(k)))
  }

  /** `UUID(string)`: null is refused, the text is trimmed, then validated, then decoded. */
  function FromText(id: Option<string>): (r: Result<Uuid, UuidError>)
    ensures id.None? ==> r == Failure(NullInput)
    ensures id.Some? ==> (r.Success? <==> IsValidUuid(Framework.Trim(id.value)))
    ensures id.Some? && r.Failure? ==> r.error == MalformedIdentifier(Framework.Trim(id.value))
  {
    if id.None? then Failure(NullInput)
    else
      var t := Framework.Trim(id.value);
      if !IsValidUuid(t) then Failure(MalformedIdentifier(t))
      else Success(Uuid(ParseContent(t)))
  }

  /** The printed form passes the validator. */
  lemma ToTextIsValid(u: Uuid)
    ensures IsValidUuid(ToText(u))
  {
    var s := ToText(u);
    assert MatchesGrammar(s) by {
      forall i | 0 <= i < 36
        ensures if IsHyphenPosition(i) then s[i] == '-' else ValidHex(s[i])
      {
        assert s[i] == TextChar(u.content, i);
      }
    }
    ValidIffGrammar(s);
  }

  /** The printed form has no upper-case letters. */
  lemma ToTextIsLowerCase(u: Uuid)
    ensures Framework.ToLower(ToText(u)) == ToText(u)
  {
    var s := ToText(u);
    forall i | 0 <= i < 36
      ensures Framework.LowerChar(s[i]) == s[i]
    {
    }
  }

  /** A valid text form starts and ends with a hex digit, so trimming leaves it alone. */
  lemma TrimOfValid(ch: string)
    requires IsValidUuid(ch)
    ensures Framework.Trim(ch) == ch
  {
    Framework.TrimOfTrimmed(ch);
  }

  /** The high digit of byte `k` sits at `DigitPosition(k)` and its low digit right after it. */
  lemma DigitPositionOf(k: int)
    requires 0 <= k < 16
    ensures var p := DigitPosition(k);
      && 0 <= p && p + 1 < 36
      && !IsHyphenPosition(p) && !IsHyphenPosition(p + 1)
      && (p - GroupStart(p)) % 2 == 0 && (p + 1 - GroupStart(p + 1)) % 2 == 1
      && ByteIndex(p) == k && ByteIndex(p + 1) == k
  {
  }

  /** Every digit position is the high or the low digit of byte `ByteIndex(i)`. */
  lemma PositionOfDigit(i: int)
    requires 0 <= i < 36 && !IsHyphenPosition(i)
    ensures 0 <= ByteIndex(i) < 16
    ensures (i - GroupStart(i)) % 2 == 0 ==> i == DigitPosition(ByteIndex(i))
    ensures (i - GroupStart(i)) % 2 == 1 ==> i == DigitPosition(ByteIndex(i)) + 1
  {
  }

  /** Decoding the digits of the printed form gives back the content byte for byte. */
  lemma ParsePrinted(u: Uuid)
    ensures ParseContent(ToText(u)) == u.content
  {
    var s := ToText(u);
    forall k | 0 <= k < 16
      ensures ParseContent(s)[k] == u.content[k]
    {
      var p := DigitPosition(k);
      DigitPositionOf(k);
      assert s[p] == TextChar(u.content, p) && s[p + 1] == TextChar(u.content, p + 1);
      ByteRoundTrip(u.content[k]);
    }
  }

  /** Text that is already valid is decoded as it stands: trimming does not touch it. */
  lemma FromValidText(t: string)
    requires IsValidUuid(t)
    ensures FromText(Some(t)) == Success(Uuid(ParseContent(t)))
  {
    TrimOfValid(t);
    DecodeTrimmed(t);
    assert Uuid(ParseContent(Framework.Trim(t))) == Uuid(ParseContent(t));
  }

  /** Text whose trimmed form is valid decodes to the bytes its trimmed form spells. */
  lemma DecodeTrimmed(t: string)
    requires IsValidUuid(Framework.Trim(t))
    ensures FromText(Some(t)) == Success(Uuid(ParseContent(Framework.Trim(t))))
  {
  }

  /** Parsing the printed form gives back the identifier. */
  lemma TextRoundTrip(u: Uuid)
    ensures FromText(Some(ToText(u))) == Success(u)
  {
    ToTextIsValid(u);
    FromValidText(ToText(u));
    ParsePrinted(u);
  }

  /** Printing the byte spelled at `p` gives the two digits there in lower case. */
  lemma PairAt(t: seq<char>, p: nat)
    requires p + 1 < |t| && ValidHex(t[p]) && ValidHex(t[p + 1])
    ensures High(HexByteAt(t, p)) == Framework.LowerChar(t[p])
    ensures Low(HexByteAt(t, p)) == Framework.LowerChar(t[p + 1])
  {
    DigitsRoundTrip(t[p], t[p + 1]);
  }

  /** Decoding a valid (possibly padded) text and printing it gives the trimmed text with A-F lowered. */
  lemma CanonicalText(id: string)
    requires IsValidUuid(Framework.Trim(id))
    ensures FromText(Some(id)).Success?
    ensures ToText(FromText(Some(id)).value) == Framework.ToLower(Framework.Trim(id))
  {
    var t := Framework.Trim(id);
    ValidIffGrammar(t);
    PrintParsed(t);
  }

  /** Printing the content a grammatical text spells gives that text lower-cased. */
  lemma PrintParsed(t: string)
    requires MatchesGrammar(t)
    ensures ToText(Uuid(ParseContent(t))) == Framework.ToLower(t)
  {
    var s := ToText(Uuid(ParseContent(t)));
    var l := Framework.ToLower(t);
    forall i | 0 <= i < 36
      ensures s[i] == l[i]
    {
      PrintParsedAt(t, i);
    }
  }

  /** One position of `PrintParsed`. */
  lemma PrintParsedAt(t: string, i: int)
    requires MatchesGrammar(t) && 0 <= i < 36
    ensures TextChar(ParseContent(t), i) == Framework.LowerChar(t[i])
  {
    if !IsHyphenPosition(i) {
      var k := ByteIndex(i);
      PositionOfDigit(i);
      DigitPositionOf(k);
      PairAt(t, DigitPosition(k));
    }
  }

  /** Upper-casing valid text keeps it valid and keeps the bytes its digits spell. */
  lemma UpperDigits(id: string)
    requires IsValidUuid(id)
    ensures IsValidUuid(Framework.ToUpper(id))
    ensures ParseContent(Framework.ToUpper(id)) == ParseContent(id)
  {
    var up := Framework.ToUpper(id);
    ValidIffGrammar(id);
    UpperGrammar(id, up);
    ValidIffGrammar(up);
    SameDigitsSameContent(up, id);
  }

  /** Upper-casing a grammatical text keeps it grammatical, digit values included. */
  lemma UpperGrammar(id: string, up: string)
    requires MatchesGrammar(id) && up == Framework.ToUpper(id)
    ensures MatchesGrammar(up)
    ensures forall i | 0 <= i < 36 && !IsHyphenPosition(i) :: IntValue(up[i]) == IntValue(id[i])
  {
    forall i | 0 <= i < 36
      ensures if IsHyphenPosition(i) then up[i] == '-' else ValidHex(up[i]) && IntValue(up[i]) == IntValue(id[i])
    {
      assert up[i] == Framework.UpperChar(id[i]);
      if !IsHyphenPosition(i) {
        UpperKeepsValue(id[i]);
      }
    }
  }

  /** Two texts whose digits have the same values decode to the same content. */
  lemma SameDigitsSameContent(x: string, y: string)
    requires |x| == 36 && |y| == 36
    requires forall i | 0 <= i < 36 && !IsHyphenPosition(i) :: IntValue(x[i]) == IntValue(y[i])
    ensures ParseContent(x) == ParseContent(y)
  {
    forall k | 0 <= k < 16
      ensures ParseContent(x)[k] == ParseContent(y)[k]
    {
      var p := DigitPosition(k);
      DigitPositionOf(k);
      SameByte(x, y, p);
    }
  }

  /** Upper-casing a hex digit keeps it a hex digit with the same value. */
  lemma UpperKeepsValue(c: char)
    requires ValidHex(c)
    ensures ValidHex(Framework.UpperChar(c)) && IntValue(Framework.UpperChar(c)) == IntValue(c)
  {
  }

  /** Digits with equal values spell equal bytes. */
  lemma SameByte(x: seq<char>, y: seq<char>, p: nat)
    requires p + 1 < |x| && p + 1 < |y|
    requires IntValue(x[p]) == IntValue(y[p]) && IntValue(x[p + 1]) == IntValue(y[p + 1])
    ensures HexByteAt(x, p) == HexByteAt(y, p)
  {
  }

  /** Upper-casing valid text keeps it valid and does not change what it decodes to. */
  lemma CaseInsensitive(id: string)
    requires IsValidUuid(id)
    ensures IsValidUuid(Framework.ToUpper(id))
    ensures FromText(Some(Framework.ToUpper(id))) == FromText(Some(id))
  {
    UpperDigits(id);
    FromValidText(id);
    FromValidText(Framework.ToUpper(id));
  }

  // ---------------------------------------------------------------------------
  // 64-bit halves
  // ---------------------------------------------------------------------------

  /** `(byte)x` for a 64-bit `x`: its low eight bits. */
  function Low8Of64(x: bv64): bv8
  {
    (x & 0xFF) as bv8
  }

  /** The 64-bit value whose big-endian bytes are `b`. */
  function FromBigEndian64(b: seq<bv8>): bv64
    requires |b| == 8
  {
    ((b[0] as bv64) << 56) | ((b[1] as bv64) << 48) | ((b[2] as bv64) << 40) | ((b[3] as bv64) << 32) |
    ((b[4] as bv64) << 24) | ((b[5] as bv64) << 16) | ((b[6] as bv64) << 8) | (b[7] as bv64)
  }

  /** `GetMostSignificantBits`: bytes 0-7, big-endian. */
  function MostSignificantBits(u: Uuid): bv64
  {
    FromBigEndian64(u.content[..8])
  }

  /** `GetLeastSignificantBits`: bytes 8-15, big-endian. */
  function LeastSignificantBits(u: Uuid): bv64
  {
    FromBigEndian64(u.content[8..])
  }

  /** The eight big-endian bytes of a 64-bit value. */
  function BigEndian64(x: bv64): (b: seq<bv8>)
    ensures |b| == 8
  {
    [Low8Of64(x >> 56), Low8Of64(x >> 48), Low8Of64(x >> 40), Low8Of64(x >> 32),
     Low8Of64(x >> 24), Low8Of64(x >> 16), Low8Of64(x >> 8), Low8Of64(x)]
  }

  /** Re-assembling the eight big-endian bytes of `x` gives `x`. */
  lemma BigEndian64Inverse(x: bv64)
    ensures FromBigEndian64(BigEndian64(x)) == x
  {
  }

  /** Splitting the value assembled from eight bytes gives those bytes back. */
  lemma FromBigEndian64Inverse(b: seq<bv8>)
    requires |b| == 8
    ensures BigEndian64(FromBigEndian64(b)) == b
  {
    assert b == [b[0], b[1], b[2], b[3], b[4], b[5], b[6], b[7]];
    ByteLanes(b[0], b[1], b[2], b[3], b[4], b[5], b[6], b[7]);
  }

  /** Each byte placed in its lane of a 64-bit value is read back from that lane. */
  lemma ByteLanes(b0: bv8, b1: bv8, b2: bv8, b3: bv8, b4: bv8, b5: bv8, b6: bv8, b7: bv8)
    ensures BigEndian64(FromBigEndian64([b0, b1, b2, b3, b4, b5, b6, b7])) == [b0, b1, b2, b3, b4, b5, b6, b7]
  {
    var x := FromBigEndian64([b0, b1, b2, b3, b4, b5, b6, b7]);
    Assembled(b0, b1, b2, b3, b4, b5, b6, b7);
    LaneValues(x, b0, b1, b2, b3, b4, b5, b6, b7);
    Split64(x, b0, b1, b2, b3, b4, b5, b6, b7);
  }

  /** `FromBigEndian64` of eight listed bytes, written out. */
  lemma Assembled(b0: bv8, b1: bv8, b2: bv8, b3: bv8, b4: bv8, b5: bv8, b6: bv8, b7: bv8)
    ensures FromBigEndian64([b0, b1, b2, b3, b4, b5, b6, b7]) ==
      ((b0 as bv64) << 56) | ((b1 as bv64) << 48) | ((b2 as bv64) << 40) | ((b3 as bv64) << 32) |
      ((b4 as bv64) << 24) | ((b5 as bv64) << 16) | ((b6 as bv64) << 8) | (b7 as bv64)
  {
    var s := [b0, b1, b2, b3, b4, b5, b6, b7];
    assert s[0] == b0 && s[1] == b1 && s[2] == b2 && s[3] == b3;
    assert s[4] == b4 && s[5] == b5 && s[6] == b6 && s[7] == b7;
  }

  /** A value whose eight lanes hold the listed bytes splits into those bytes. */
  lemma Split64(x: bv64, b0: bv8, b1: bv8, b2: bv8, b3: bv8, b4: bv8, b5: bv8, b6: bv8, b7: bv8)
    requires Low8Of64(x >> 56) == b0 && Low8Of64(x >> 48) == b1 && Low8Of64(x >> 40) == b2
    requires Low8Of64(x >> 32) == b3 && Low8Of64(x >> 24) == b4 && Low8Of64(x >> 16) == b5
    requires Low8Of64(x >> 8) == b6 && Low8Of64(x) == b7
    ensures BigEndian64(x) == [b0, b1, b2, b3, b4, b5, b6, b7]
  {
  }

  /** The bit-level fact behind `ByteLanes`, stated on the eight bytes alone. */
  lemma LaneValues(x: bv64, b0: bv8, b1: bv8, b2: bv8, b3: bv8, b4: bv8, b5: bv8, b6: bv8, b7: bv8)
    requires x == ((b0 as bv64) << 56) | ((b1 as bv64) << 48) | ((b2 as bv64) << 40) | ((b3 as bv64) << 32) |
                  ((b4 as bv64) << 24) | ((b5 as bv64) << 16) | ((b6 as bv64) << 8) | (b7 as bv64)
    ensures Low8Of64(x >> 56) == b0 && Low8Of64(x >> 48) == b1 && Low8Of64(x >> 40) == b2
    ensures Low8Of64(x >> 32) == b3 && Low8Of64(x >> 24) == b4 && Low8Of64(x >> 16) == b5
    ensures Low8Of64(x >> 8) == b6 && Low8Of64(x) == b7
  {
  }

  /** `UUID(long, long)` through `ConstructFromLongs`: `hi` fills bytes 0-7, `lo` bytes 8-15. */
  function FromHalves(hi: bv64, lo: bv64): Uuid
  {
    Uuid(BigEndian64(hi) + BigEndian64(lo))
  }

  /** The halves of an identifier built from halves are those halves. */
  lemma HalvesRoundTrip(hi: bv64, lo: bv64)
    ensures MostSignificantBits(FromHalves(hi, lo)) == hi
    ensures LeastSignificantBits(FromHalves(hi, lo)) == lo
  {
    var c := FromHalves(hi, lo).content;
    assert c[..8] == BigEndian64(hi) && c[8..] == BigEndian64(lo);
    BigEndian64Inverse(hi);
    BigEndian64Inverse(lo);
  }

  /** Building from its own halves reproduces the identifier byte for byte. */
  lemma FromOwnHalves(u: Uuid)
    ensures FromHalves(MostSignificantBits(u), LeastSignificantBits(u)) == u
  {
    var c := u.content;
    FromBigEndian64Inverse(c[..8]);
    FromBigEndian64Inverse(c[8..]);
    assert c[..8] + c[8..] == c;
  }

  /** `UUID(UUID)`: null is refused, otherwise the copy is made through the two halves. */
  function FromUuid(other: Option<Uuid>): (r: Result<Uuid, UuidError>)
    ensures other.None? <==> r == Failure(NullInput)
    ensures other.Some? ==> r == Success(other.value)
  {
    if other.None? then Failure(NullInput)
    else
      FromOwnHalves(other.value);
      Success(FromHalves(MostSignificantBits(other.value), LeastSignificantBits(other.value)))
  }

  // ---------------------------------------------------------------------------
  // Generated layout
  // ---------------------------------------------------------------------------

  /** `(byte)x` for a 32-bit `x`: its low eight bits. */
  function Low8(x: bv32): bv8
  {
    (x & 0xFF) as bv8
  }

  /** Bytes 0-3 in variable mode: the count in 4-bit segments, in reverse order. */
  function VariableCounterBytes(count: bv32): seq<bv8>
  {
    [Low8(((count & 0xF) << 4) | ((count & 0xF0) >> 4)),
     Low8(((count & 0xF00) >> 4) | ((count & 0xF000) >> 12)),
     Low8(((count & 0xF0000) >> 12) | ((count & 0xF00000) >> 20)),
     Low8(((count & 0xF000000) >> 20) | ((count & 0xF0000000) >> 28))]
  }

  /** Bytes 0-3 in sequential mode: the count big-endian. */
  function SequentialCounterBytes(count: bv32): seq<bv8>
  {
    [Low8(count >> 24), Low8(count >> 16), Low8(count >> 8), Low8(count)]
  }

  /** Bytes 4-5: `(byte)(pid >> 8)` and `(byte)pid`, for the 32-bit pattern of the process id. */
  function PidBytes(pid: bv32): seq<bv8>
  {
    [Low8(pid >> 8), Low8(pid)]
  }

  /** Bytes 10-15: the low 48 bits of the tick count, big-endian. */
  function TimeBytes(time: bv64): seq<bv8>
  {
    [Low8Of64(time >> 40), Low8Of64(time >> 32), Low8Of64(time >> 24),
     Low8Of64(time >> 16), Low8Of64(time >> 8), Low8Of64(time)]
  }

  /** The content the generating constructor fills in. */
  function Layout(sequential: bool, count: bv32, time: bv64, pid: bv32, mac: seq<bv8>): Bytes16
    requires |mac| >= 6
  {
    (if sequential then SequentialCounterBytes(count) else VariableCounterBytes(count))
    + PidBytes(pid)
    + [VersionDec | (0xF & mac[2]), mac[3], mac[4], mac[5]]
    + TimeBytes(time)
  }

  // ---------------------------------------------------------------------------
  // Field extraction
  // ---------------------------------------------------------------------------

  /** `GetVersion`: the hex digit of the high nibble of byte 6. */
  function GetVersion(u: Uuid): char
  {
    High(u.content[6])
  }

  /** `GetProcessId`: bytes 4-5 big-endian, or -1 when the version is not ours. */
  function GetProcessId(u: Uuid): int
  {
    if GetVersion(u) != Version then -1
    else (((u.content[4] as bv32) << 8) | (u.content[5] as bv32)) as int
  }

  /** `GetTimestamp` as raw ticks: bytes 10-15 big-endian, or null when the version is not ours. */
  function GetTimestamp(u: Uuid): Option<bv64>
  {
    if GetVersion(u) != Version then None
    else
      var c := u.content;
      Some(((c[10] as bv64) << 40) | ((c[11] as bv64) << 32) | ((c[12] as bv64) << 24) |
           ((c[13] as bv64) << 16) | ((c[14] as bv64) << 8) | (c[15] as bv64))
  }

  /** `GetMacFragment`: two zero bytes, the low nibble of byte 6, bytes 7-9; null unless the version is 'b'. */
  function GetMacFragment(u: Uuid): Option<seq<bv8>>
  {
    if GetVersion(u) != 'b' then None
    else Some([0, 0, u.content[6] & 0xF, u.content[7], u.content[8], u.content[9]])
  }

  /** The extractors answer exactly when the high nibble of byte 6 is 0xB, and give sentinels otherwise. */
  lemma VersionGating(u: Uuid)
    ensures GetVersion(u) == Version <==> u.content[6] >> 4 == 0xB
    ensures u.content[6] >> 4 != 0xB ==>
      GetProcessId(u) == -1 && GetTimestamp(u).None? && GetMacFragment(u).None?
    ensures u.content[6] >> 4 == 0xB ==>
      0 <= GetProcessId(u) < 65536 && GetTimestamp(u).Some? && GetMacFragment(u).Some?
  {
    var n := (u.content[6] & 0xF0) >> 4;
    assert n == u.content[6] >> 4;
    HexDigit(n);
    HexDigit(0xB);
  }

  /** With version 'b' the extractors give the bytes they read: the pid from bytes 4-5, the ticks from 10-15, the fragment from 6-9. */
  lemma VersionedFields(u: Uuid)
    requires u.content[6] >> 4 == 0xB
    ensures GetProcessId(u) == u.content[4] as int * 256 + u.content[5] as int
    ensures GetTimestamp(u).Some? && GetTimestamp(u).value < 0x1_0000_0000_0000
    ensures TimeBytes(GetTimestamp(u).value) == u.content[10..]
    ensures GetMacFragment(u) == Some([0, 0, u.content[6] & 0xF, u.content[7], u.content[8], u.content[9]])
  {
    VersionGating(u);
    VersionedPid(u);
    VersionedTime(u);
  }

  /** The pid `GetProcessId` reads for version 'b'. */
  lemma VersionedPid(u: Uuid)
    requires GetVersion(u) == Version
    ensures GetProcessId(u) == u.content[4] as int * 256 + u.content[5] as int
  {
    PidRead(u);
    PairValue(GetProcessId(u), u.content[4], u.content[5]);
  }

  /** For version 'b', `GetProcessId` is bytes 4-5 shifted together. */
  lemma PidRead(u: Uuid)
    requires GetVersion(u) == Version
    ensures GetProcessId(u) == (((u.content[4] as bv32) << 8) | (u.content[5] as bv32)) as int
  {
  }

  /** The ticks `GetTimestamp` reads for version 'b'. */
  lemma VersionedTime(u: Uuid)
    requires GetVersion(u) == Version
    ensures GetTimestamp(u).Some? && GetTimestamp(u).value < 0x1_0000_0000_0000
    ensures TimeBytes(GetTimestamp(u).value) == u.content[10..]
  {
    var c := u.content;
    TimeLanes(GetTimestamp(u).value, c[10], c[11], c[12], c[13], c[14], c[15]);
    assert c[10..] == [c[10], c[11], c[12], c[13], c[14], c[15]];
  }

  /** Two bytes shifted together read, as a number, as the high byte times 256 plus the low one. */
  lemma PairValue(v: int, hi: bv8, lo: bv8)
    requires v == (((hi as bv32) << 8) | (lo as bv32)) as int
    ensures v == hi as int * 256 + lo as int
  {
  }

  /** Six bytes shifted together are below 2^48, and their six big-endian bytes are those bytes. */
  lemma TimeLanes(x: bv64, b0: bv8, b1: bv8, b2: bv8, b3: bv8, b4: bv8, b5: bv8)
    requires x == ((b0 as bv64) << 40) | ((b1 as bv64) << 32) | ((b2 as bv64) << 24) |
                  ((b3 as bv64) << 16) | ((b4 as bv64) << 8) | (b5 as bv64)
    ensures x < 0x1_0000_0000_0000
    ensures TimeBytes(x) == [b0, b1, b2, b3, b4, b5]
  {
  }

  /** A generated identifier carries version 'b'. */
  lemma GeneratedVersion(sequential: bool, count: bv32, time: bv64, pid: bv32, mac: seq<bv8>)
    requires |mac| >= 6
    ensures GetVersion(Uuid(Layout(sequential, count, time, pid, mac))) == 'b'
  {
    VersionDecValue();
    var b := VersionDec | (0xF & mac[2]);
    assert (b & 0xF0) >> 4 == 0xB;
    HexDigit(0xB);
  }

  /** A generated identifier reports the low 16 bits of the process id, which is the id itself below 65536. */
  lemma GeneratedProcessId(sequential: bool, count: bv32, time: bv64, pid: bv32, mac: seq<bv8>)
    requires |mac| >= 6
    ensures GetProcessId(Uuid(Layout(sequential, count, time, pid, mac))) == (pid & 0xFFFF) as int
    ensures pid < 0x10000 ==> GetProcessId(Uuid(Layout(sequential, count, time, pid, mac))) == pid as int
  {
    GeneratedVersion(sequential, count, time, pid, mac);
    var c := Layout(sequential, count, time, pid, mac);
    assert c[4] == Low8(pid >> 8) && c[5] == Low8(pid);
    PidLanes(pid);
  }

  /** The two pid bytes re-assembled are the low 16 bits of the pid. */
  lemma PidLanes(pid: bv32)
    ensures ((Low8(pid >> 8) as bv32) << 8) | (Low8(pid) as bv32) == pid & 0xFFFF
    ensures pid < 0x10000 ==> pid & 0xFFFF == pid
  {
  }

  /** A generated identifier carries the low 48 bits of the tick count. */
  lemma GeneratedTimestamp(sequential: bool, count: bv32, time: bv64, pid: bv32, mac: seq<bv8>)
    requires |mac| >= 6
    ensures GetTimestamp(Uuid(Layout(sequential, count, time, pid, mac))) == Some(time & 0xFFFF_FFFF_FFFF)
  {
    GeneratedVersion(sequential, count, time, pid, mac);
    var c := Layout(sequential, count, time, pid, mac);
    assert c[10..] == TimeBytes(time);
    TimeBytesInverse(time);
  }

  /** Re-assembling the six time bytes gives the low 48 bits of the tick count. */
  lemma TimeBytesInverse(time: bv64)
    ensures var b := TimeBytes(time);
      ((b[0] as bv64) << 40) | ((b[1] as bv64) << 32) | ((b[2] as bv64) << 24) |
      ((b[3] as bv64) << 16) | ((b[4] as bv64) << 8) | (b[5] as bv64) == time & 0xFFFF_FFFF_FFFF
  {
  }

  /** A generated identifier carries the MAC fragment: the low nibble of MAC byte 2 and MAC bytes 3-5. */
  lemma GeneratedMacFragment(sequential: bool, count: bv32, time: bv64, pid: bv32, mac: seq<bv8>)
    requires |mac| >= 6
    ensures GetMacFragment(Uuid(Layout(sequential, count, time, pid, mac)))
            == Some([0, 0, mac[2] & 0xF, mac[3], mac[4], mac[5]])
  {
    GeneratedVersion(sequential, count, time, pid, mac);
    VersionDecValue();
    assert (VersionDec | (0xF & mac[2])) & 0xF == mac[2] & 0xF;
  }

  // ---------------------------------------------------------------------------
  // Counter region
  // ---------------------------------------------------------------------------

  /** Nibble `j` (0 = least significant) of a 32-bit count. */
  function CountNibble(count: bv32, j: nat): bv8
    requires j < 8
  {
    Low8((count >> NibbleShift(j)) & 0xF)
  }

  /** The bit position `4 * j` of nibble `j`, as a shift amount. */
  function NibbleShift(j: nat): bv32
    requires j < 8
  {
    if j == 0 then 0 else if j == 1 then 4 else if j == 2 then 8 else if j == 3 then 12
    else if j == 4 then 16 else if j == 5 then 20 else if j == 6 then 24 else 28
  }

  /** Nibble `j` of four counter bytes in text order (0 = high nibble of byte 0). */
  function TextNibble(b: seq<bv8>, j: nat): bv8
    requires |b| == 4 && j < 8
  {
    if j % 2 == 0 then (b[j / 2] & 0xF0) >> 4 else b[j / 2] & 0x0F
  }

  /** Variable mode writes the eight hex digits of the count least significant first. */
  lemma VariableNibbleOrder(count: bv32)
    ensures forall j | 0 <= j < 8 :: TextNibble(VariableCounterBytes(count), j) == CountNibble(count, j)
  {
    var b := VariableCounterBytes(count);
    assert TextNibble(b, 0) == CountNibble(count, 0);
    assert TextNibble(b, 1) == CountNibble(count, 1);
    assert TextNibble(b, 2) == CountNibble(count, 2);
    assert TextNibble(b, 3) == CountNibble(count, 3);
    assert TextNibble(b, 4) == CountNibble(count, 4);
    assert TextNibble(b, 5) == CountNibble(count, 5);
    assert TextNibble(b, 6) == CountNibble(count, 6);
    assert TextNibble(b, 7) == CountNibble(count, 7);
  }

  /** Sequential mode writes the eight hex digits of the count most significant first. */
  lemma SequentialNibbleOrder(count: bv32)
    ensures forall j | 0 <= j < 8 :: TextNibble(SequentialCounterBytes(count), j) == CountNibble(count, 7 - j)
  {
    SequentialHighBytes(count);
    SequentialLowBytes(count);
    var b := SequentialCounterBytes(count);
    forall j | 0 <= j < 8
      ensures TextNibble(b, j) == CountNibble(count, 7 - j)
    {
      if j == 0 { } else if j == 1 { } else if j == 2 { } else if j == 3 { }
      else if j == 4 { } else if j == 5 { } else if j == 6 { } else { }
    }
  }

  /** The first two sequential-mode bytes hold count nibbles 7 to 4. */
  lemma SequentialHighBytes(count: bv32)
    ensures var b := SequentialCounterBytes(count);
      && TextNibble(b, 0) == CountNibble(count, 7) && TextNibble(b, 1) == CountNibble(count, 6)
      && TextNibble(b, 2) == CountNibble(count, 5) && TextNibble(b, 3) == CountNibble(count, 4)
  {
  }

  /** The last two sequential-mode bytes hold count nibbles 3 to 0. */
  lemma SequentialLowBytes(count: bv32)
    ensures var b := SequentialCounterBytes(count);
      && TextNibble(b, 4) == CountNibble(count, 3) && TextNibble(b, 5) == CountNibble(count, 2)
      && TextNibble(b, 6) == CountNibble(count, 1) && TextNibble(b, 7) == CountNibble(count, 0)
  {
  }

  /** Reads the count back from its variable-mode bytes. */
  function VariableCount(b: seq<bv8>): bv32
    requires |b| == 4
  {
    (SwapNibbles(b[3]) << 24) | (SwapNibbles(b[2]) << 16) | (SwapNibbles(b[1]) << 8) | SwapNibbles(b[0])
  }

  /** The byte `x` with its two nibbles exchanged, widened to 32 bits. */
  function SwapNibbles(x: bv8): bv32
  {
    (((x & 0x0F) << 4) | ((x & 0xF0) >> 4)) as bv32
  }

  /** Reads the count back from its sequential-mode bytes. */
  function SequentialCount(b: seq<bv8>): bv32
    requires |b| == 4
  {
    ((b[0] as bv32) << 24) | ((b[1] as bv32) << 16) | ((b[2] as bv32) << 8) | (b[3] as bv32)
  }

  /** The variable-mode encoding loses nothing, so two counts with equal bytes are equal. */
  lemma VariableCounterInjective(a: bv32, b: bv32)
    ensures VariableCounterBytes(a) == VariableCounterBytes(b) ==> a == b
  {
    VariableCountInverse(a);
    VariableCountInverse(b);
  }

  /** Decoding the variable-mode bytes of `a` gives `a`. */
  lemma VariableCountInverse(a: bv32)
    ensures VariableCount(VariableCounterBytes(a)) == a
  {
  }

  /** The sequential-mode encoding loses nothing, so two counts with equal bytes are equal. */
  lemma SequentialCounterInjective(a: bv32, b: bv32)
    ensures SequentialCounterBytes(a) == SequentialCounterBytes(b) ==> a == b
  {
    SequentialCountInverse(a);
    SequentialCountInverse(b);
  }

  /** Decoding the sequential-mode bytes of `a` gives `a`. */
  lemma SequentialCountInverse(a: bv32)
    ensures SequentialCount(SequentialCounterBytes(a)) == a
  {
  }

  /** In either mode, identifiers generated from different counts differ, whatever the other fields. */
  lemma LayoutCountInjective(sequential: bool, a: bv32, b: bv32, time: bv64, pid: bv32, mac: seq<bv8>)
    requires |mac| >= 6
    ensures Layout(sequential, a, time, pid, mac) == Layout(sequential, b, time, pid, mac) ==> a == b
  {
    var x, y := Layout(sequential, a, time, pid, mac), Layout(sequential, b, time, pid, mac);
    if x == y {
      assert x[..4] == y[..4];
      if sequential {
        assert x[..4] == SequentialCounterBytes(a) && y[..4] == SequentialCounterBytes(b);
        SequentialCounterInjective(a, b);
      } else {
        assert x[..4] == VariableCounterBytes(a) && y[..4] == VariableCounterBytes(b);
        VariableCounterInjective(a, b);
      }
    }
  }

  /** Byte-wise lexicographic order on equally long byte strings. */
  predicate LexLess(x: seq<bv8>, y: seq<bv8>)
    requires |x| == |y|
  {
    exists k | 0 <= k < |x| :: x[..k] == y[..k] && x[k] < y[k]
  }

  /** In sequential mode a larger count (without wrap-around) gives byte-wise larger counter bytes. */
  lemma SequentialMonotone(a: bv32, b: bv32)
    requires a < b
    ensures LexLess(SequentialCounterBytes(a), SequentialCounterBytes(b))
  {
    LeadingByteOrder(a, b);
    TrailingByteOrder(a, b);
    FirstDifferenceLess(SequentialCounterBytes(a), SequentialCounterBytes(b));
  }

  /** Four-byte strings whose first differing byte is smaller in `x` are lexicographically smaller. */
  lemma FirstDifferenceLess(x: seq<bv8>, y: seq<bv8>)
    requires |x| == 4 && |y| == 4
    requires x[0] <= y[0]
    requires x[0] == y[0] ==> x[1] <= y[1]
    requires x[0] == y[0] && x[1] == y[1] ==> x[2] <= y[2]
    requires x[0] == y[0] && x[1] == y[1] && x[2] == y[2] ==> x[3] < y[3]
    ensures LexLess(x, y)
  {
    if x[0] != y[0] {
      assert x[..0] == y[..0];
    } else if x[1] != y[1] {
      assert x[..1] == y[..1];
    } else if x[2] != y[2] {
      assert x[..2] == y[..2];
    } else {
      assert x[..3] == y[..3];
    }
  }

  /** Of two 32-bit values, the smaller has the smaller first byte, or the same and a smaller-or-equal second. */
  lemma LeadingByteOrder(a: bv32, b: bv32)
    requires a < b
    ensures Low8(a >> 24) <= Low8(b >> 24)
    ensures Low8(a >> 24) == Low8(b >> 24) ==> Low8(a >> 16) <= Low8(b >> 16)
  {
  }

  /** Of two 32-bit values whose first two bytes agree, the smaller is smaller from the third byte on. */
  lemma TrailingByteOrder(a: bv32, b: bv32)
    requires a < b
    ensures Low8(a >> 24) == Low8(b >> 24) && Low8(a >> 16) == Low8(b >> 16) ==> Low8(a >> 8) <= Low8(b >> 8)
    ensures Low8(a >> 24) == Low8(b >> 24) && Low8(a >> 16) == Low8(b >> 16) && Low8(a >> 8) == Low8(b >> 8)
      ==> Low8(a) < Low8(b)
  {
  }
}
