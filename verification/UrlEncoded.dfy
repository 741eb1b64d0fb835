/** application/x-www-form-urlencoded text, as `URLSearchParams` reads and writes it: sections 5.1
    (parsing) and 5.2 (serializing) of the WHATWG URL Standard. */
module UrlEncoded {
  import Utf8

  type Pairs = seq<(string, string)>

  // ----- Serializing

  function HexDigit(n: int): (c: char)
    requires 0 <= n < 16
    ensures '0' <= c <= '9' || 'A' <= c <= 'F'
  {
    if n < 10 then ('0' as int + n) as char else ('A' as int + n - 10) as char
  }

  /** The bytes that stand for themselves: ASCII letters and digits, and * - . _ */
  predicate Unreserved(b: int) {
    0x61 <= b <= 0x7A || 0x41 <= b <= 0x5A || 0x30 <= b <= 0x39 || b == 0x2A || b == 0x2D || b == 0x2E || b == 0x5F
  }

  function EncodeByte(b: int): (s: string)
    requires 0 <= b < 256
    ensures s != []
  {
    if b == 0x20 then "+"
    else if Unreserved(b) then [b as char]
    else ['%', HexDigit(b / 16), HexDigit(b % 16)]
  }

  function EncodeBytes(bytes: seq<int>): string
    requires forall i :: 0 <= i < |bytes| ==> 0 <= bytes[i] < 256
  {
    if bytes == [] then [] else EncodeByte(bytes[0]) + EncodeBytes(bytes[1..])
  }

  function EncodeField(s: string): string {
    EncodeBytes(Utf8.Encode(s))
  }

  function EncodePair(p: (string, string)): string {
    EncodeField(p.0) + "=" + EncodeField(p.1)
  }

  function Serialize(pairs: Pairs): string {
    if pairs == [] then []
    else if |pairs| == 1 then EncodePair(pairs[0])
    else EncodePair(pairs[0]) + "&" + Serialize(pairs[1..])
  }

  // ----- Parsing

  /** Position of the first `c`, or the length. */
  function Find(c: char, s: string): (n: nat)
    ensures n <= |s|
    ensures c !in s[..n] && (n < |s| ==> s[n] == c)
  {
    if s == [] || s[0] == c then 0
    else
      assert s[..1 + Find(c, s[1..])] == [s[0]] + s[1..][..Find(c, s[1..])];
      1 + Find(c, s[1..])
  }

  function Split(c: char, s: string): seq<string>
    decreases |s|
  {
    var n := Find(c, s);
    if n == |s| then [s] else [s[..n]] + Split(c, s[n + 1..])
  }

  function PlusToSpace(bytes: seq<int>): seq<int> {
    if bytes == [] then []
    else [if bytes[0] == 0x2B then 0x20 else bytes[0]] + PlusToSpace(bytes[1..])
  }

  predicate IsHex(b: int) {
    0x30 <= b <= 0x39 || 0x41 <= b <= 0x46 || 0x61 <= b <= 0x66
  }

  function HexValue(b: int): int {
    if b <= 0x39 then b - 0x30 else if b <= 0x46 then b - 0x41 + 10 else b - 0x61 + 10
  }

  function PercentDecode(bytes: seq<int>): seq<int>
    decreases |bytes|
  {
    if bytes == [] then []
    else if bytes[0] == 0x25 && |bytes| > 2 && IsHex(bytes[1]) && IsHex(bytes[2]) then
      [HexValue(bytes[1]) * 16 + HexValue(bytes[2])] + PercentDecode(bytes[3..])
    else [bytes[0]] + PercentDecode(bytes[1..])
  }

  function DecodeField(s: string): string {
    Utf8.Decode(PercentDecode(PlusToSpace(Utf8.Encode(s))))
  }

  /** A piece without '=' is a name with an empty value. */
  function ParsePair(piece: string): (string, string) {
    var n := Find('=', piece);
    if n == |piece| then (DecodeField(piece), "")
    else (DecodeField(piece[..n]), DecodeField(piece[n + 1..]))
  }

  function ParsePieces(pieces: seq<string>): Pairs {
    if pieces == [] then []
    else (if pieces[0] == "" then [] else [ParsePair(pieces[0])]) + ParsePieces(pieces[1..])
  }

  function Parse(text: string): Pairs {
    ParsePieces(Split('&', text))
  }

  // ----- Round trip

  predicate SafeChar(c: char) {
    'a' <= c <= 'z' || 'A' <= c <= 'Z' || '0' <= c <= '9' || c in "*-._+%"
  }

  predicate Safe(s: string) {
    forall i :: 0 <= i < |s| ==> SafeChar(s[i])
  }

  lemma {:induction false} EncodedIsSafe(bytes: seq<int>)
    requires forall i :: 0 <= i < |bytes| ==> 0 <= bytes[i] < 256
    ensures Safe(EncodeBytes(bytes))
  {
    if bytes != [] {
      EncodedIsSafe(bytes[1..]);
      assert Safe(EncodeByte(bytes[0]));
    }
  }

  /** What the parser does to the bytes of a piece before UTF-8. */
  function Unescape(s: string): seq<int> {
    PercentDecode(PlusToSpace(Utf8.Encode(s)))
  }

  lemma EncodeAscii(c: char, s: string)
    requires c as int < 0x80
    ensures Utf8.Encode([c] + s) == [c as int] + Utf8.Encode(s)
  {
  }

  lemma UnescapeLiteral(b: int, rest: string)
    requires b == 0x20 || Unreserved(b)
    ensures Unescape(EncodeByte(b) + rest) == [b] + Unescape(rest)
  {
  }

  lemma EncodeThreeAscii(a: char, b: char, c: char, rest: string)
    requires a as int < 0x80 && b as int < 0x80 && c as int < 0x80
    ensures Utf8.Encode([a, b, c] + rest) == [a as int, b as int, c as int] + Utf8.Encode(rest)
  {
    assert [a, b, c] + rest == [a] + ([b] + ([c] + rest));
    EncodeAscii(a, [b] + ([c] + rest));
    EncodeAscii(b, [c] + rest);
    EncodeAscii(c, rest);
  }

  lemma UnescapeHex(b: int, rest: string)
    requires 0 <= b < 256 && b != 0x20 && !Unreserved(b)
    ensures Unescape(EncodeByte(b) + rest) == [b] + Unescape(rest)
  {
    var h, l := HexDigit(b / 16), HexDigit(b % 16);
    EncodeThreeAscii('%', h, l, rest);
    PlusToSpaceOfThree([0x25, h as int, l as int], Utf8.Encode(rest));
    DecodeHex(b, PlusToSpace(Utf8.Encode(rest)));
  }

  lemma DecodeHex(b: int, tail: seq<int>)
    requires 0 <= b < 256
    ensures PercentDecode([0x25, HexDigit(b / 16) as int, HexDigit(b % 16) as int] + tail) == [b] + PercentDecode(tail)
  {
  }

  lemma UnescapeByte(b: int, rest: string)
    requires 0 <= b < 256
    ensures Unescape(EncodeByte(b) + rest) == [b] + Unescape(rest)
  {
    if b == 0x20 || Unreserved(b) {
      UnescapeLiteral(b, rest);
    } else {
      UnescapeHex(b, rest);
    }
  }

  lemma PlusToSpaceOfThree(three: seq<int>, rest: seq<int>)
    requires |three| == 3 && 0x2B !in three
    ensures PlusToSpace(three + rest) == three + PlusToSpace(rest)
  {
    var s := three + rest;
    assert s[1..][0] == three[1] && s[1..][1..][0] == three[2] && s[1..][1..][1..] == rest;
    assert three[0] in three && three[1] in three && three[2] in three;
    assert PlusToSpace(s[1..][1..]) == [three[2]] + PlusToSpace(rest);
  }

  lemma {:induction false} UnescapeEncoded(bytes: seq<int>)
    requires forall i :: 0 <= i < |bytes| ==> 0 <= bytes[i] < 256
    ensures Unescape(EncodeBytes(bytes)) == bytes
  {
    if bytes != [] {
      UnescapeByte(bytes[0], EncodeBytes(bytes[1..]));
      UnescapeEncoded(bytes[1..]);
    }
  }

  /** Decoding an encoded name or value gives it back, for all Unicode text. */
  lemma FieldRoundTrip(s: string)
    ensures DecodeField(EncodeField(s)) == s && Safe(EncodeField(s))
  {
    UnescapeEncoded(Utf8.Encode(s));
    EncodedIsSafe(Utf8.Encode(s));
    Utf8.DecodeEncode(s);
  }

  lemma {:induction false} FindAfter(c: char, a: string, b: string)
    requires c !in a
    ensures Find(c, a + [c] + b) == |a|
    ensures Find(c, a) == |a|
  {
    var s := a + [c] + b;
    if a != [] {
      assert s[1..] == a[1..] + [c] + b;
      assert a[0] in a && forall x :: x in a[1..] ==> x in a;
      FindAfter(c, a[1..], b);
    }
  }

  lemma SafeHasNo(s: string, c: char)
    requires Safe(s) && !SafeChar(c)
    ensures c !in s
  {
  }

  lemma PairOfFields(a: string, b: string)
    requires Safe(a) && Safe(b)
    ensures ParsePair(a + "=" + b) == (DecodeField(a), DecodeField(b))
    ensures a + "=" + b != "" && '&' !in a + "=" + b && '?' !in a + "=" + b
  {
    var s := a + "=" + b;
    SafeHasNo(a, '=');
    SafeHasNo(a, '&');
    SafeHasNo(b, '&');
    SafeHasNo(a, '?');
    SafeHasNo(b, '?');
    FindAfter('=', a, b);
    assert s[..|a|] == a && s[|a| + 1..] == b;
  }

  lemma PairRoundTrip(p: (string, string))
    ensures ParsePair(EncodePair(p)) == p && EncodePair(p) != "" && '&' !in EncodePair(p) && '?' !in EncodePair(p)
  {
    FieldRoundTrip(p.0);
    FieldRoundTrip(p.1);
    PairOfFields(EncodeField(p.0), EncodeField(p.1));
  }

  lemma ParseFirst(first: string, rest: string)
    requires first != "" && '&' !in first
    ensures Parse(first + "&" + rest) == [ParsePair(first)] + Parse(rest)
    ensures Parse(first) == [ParsePair(first)]
  {
    var s := first + "&" + rest;
    FindAfter('&', first, rest);
    assert s[..|first|] == first && s[|first| + 1..] == rest;
    assert Split('&', s) == [first] + Split('&', rest);
    assert ([first] + Split('&', rest))[1..] == Split('&', rest);
    assert [first][1..] == [];
    assert ParsePieces([first]) == [ParsePair(first)] + ParsePieces([]);
  }

  lemma ParsePairFirst(p: (string, string), rest: string)
    ensures Parse(EncodePair(p) + "&" + rest) == [p] + Parse(rest)
    ensures Parse(EncodePair(p)) == [p]
  {
    PairRoundTrip(p);
    ParseFirst(EncodePair(p), rest);
  }

  /** Parsing what was serialized gives back every pair, in order, for all Unicode names and values. */
  lemma {:induction false} RoundTrip(pairs: Pairs)
    ensures Parse(Serialize(pairs)) == pairs
  {
    if pairs == [] {
      assert Split('&', "") == [""];
      assert [""][1..] == [];
    } else {
      ParsePairFirst(pairs[0], Serialize(pairs[1..]));
      if |pairs| == 1 {
        assert pairs == [pairs[0]];
      } else {
        RoundTrip(pairs[1..]);
      }
    }
  }

  lemma {:induction false} SerializedText(pairs: Pairs)
    ensures '?' !in Serialize(pairs)
    ensures Serialize(pairs) == "" <==> pairs == []
  {
    if pairs != [] {
      PairRoundTrip(pairs[0]);
      if |pairs| > 1 {
        SerializedText(pairs[1..]);
      }
    }
  }

  // ----- The text itself

  const HEX := "0123456789ABCDEF"
  const LOWER_HEX := "0123456789abcdef"

  /** A space is written '+', ASCII letters, digits and * - . _ stand for themselves, and every other byte is written
      as '%' and two upper-case hexadecimal digits. */
  lemma WrittenBytes(b: int)
    requires 0 <= b < 256
    ensures EncodeByte(b)
         == if b == 32 then "+"
            else if 48 <= b <= 57 || 65 <= b <= 90 || 97 <= b <= 122 || b in {42, 45, 46, 95} then [b as char]
            else ['%', HEX[b / 16], HEX[b % 16]]
  {
    HexDigits(b / 16);
    HexDigits(b % 16);
  }

  /** Both cases of hexadecimal digits are read. */
  lemma HexDigits(d: int)
    requires 0 <= d < 16
    ensures HexDigit(d) == HEX[d]
    ensures IsHex(HEX[d] as int) && HexValue(HEX[d] as int) == d
    ensures IsHex(LOWER_HEX[d] as int) && HexValue(LOWER_HEX[d] as int) == d
  {
    if d == 0 { } else if d == 1 { } else if d == 2 { } else if d == 3 { } else if d == 4 { } else if d == 5 { }
    else if d == 6 { } else if d == 7 { } else if d == 8 { } else if d == 9 { } else if d == 10 { }
    else if d == 11 { } else if d == 12 { } else if d == 13 { } else if d == 14 { } else { }
  }

  /** A hexadecimal digit in either case. */
  predicate HexOf(c: char, d: int) {
    0 <= d < 16 && (c == HEX[d] || c == LOWER_HEX[d])
  }

  lemma HexOfValue(c: char, d: int)
    requires HexOf(c, d)
    ensures IsHex(c as int) && HexValue(c as int) == d
  {
    HexDigits(d);
  }

  /** An escape stands for its byte, in whatever case its digits are. */
  lemma EscapesAreRead(a: char, b: char, hi: int, lo: int, rest: seq<int>)
    requires HexOf(a, hi) && HexOf(b, lo)
    ensures PercentDecode([0x25, a as int, b as int] + rest) == [hi * 16 + lo] + PercentDecode(rest)
  {
    HexOfValue(a, hi);
    HexOfValue(b, lo);
    EscapeIsRead(a as int, b as int, hi, lo, rest);
  }

  lemma EscapeIsRead(a: int, b: int, hi: int, lo: int, rest: seq<int>)
    requires IsHex(a) && IsHex(b) && HexValue(a) == hi && HexValue(b) == lo
    ensures PercentDecode([0x25, a, b] + rest) == [hi * 16 + lo] + PercentDecode(rest)
  {
    assert ([0x25, a, b] + rest)[3..] == rest;
  }

  /** A '%' that two hexadecimal digits do not follow stands for itself. */
  lemma StrayPercentIsRead(rest: seq<int>)
    requires |rest| < 2 || !IsHex(rest[0]) || !IsHex(rest[1])
    ensures PercentDecode([0x25] + rest) == [0x25] + PercentDecode(rest)
  {
    assert ([0x25] + rest)[1..] == rest;
  }

  /** ASCII text is written byte by byte. */
  lemma AsciiField(c: char, s: string)
    requires c as int < 0x80
    ensures EncodeField([c] + s) == EncodeByte(c as int) + EncodeField(s)
    ensures EncodeField("") == ""
  {
    EncodeAscii(c, s);
    assert ([c as int] + Utf8.Encode(s))[1..] == Utf8.Encode(s);
  }

  /** A piece is split at its first '='; without one it is a name with an empty value. */
  lemma PiecesAreSplit(name: string, value: string)
    requires '=' !in name
    ensures ParsePair(name + "=" + value) == (DecodeField(name), DecodeField(value))
    ensures ParsePair(name) == (DecodeField(name), "")
  {
    FindAfter('=', name, value);
    var s := name + "=" + value;
    assert s[..|name|] == name && s[|name| + 1..] == value;
  }

  /** A query is read piece by piece, and empty pieces are skipped. */
  lemma QueryIsRead(piece: string, rest: string)
    requires '&' !in piece
    ensures Parse(piece + "&" + rest) == (if piece == "" then [] else [ParsePair(piece)]) + Parse(rest)
    ensures Parse(piece) == if piece == "" then [] else [ParsePair(piece)]
  {
    if piece == "" {
      var s := piece + "&" + rest;
      FindAfter('&', piece, rest);
      assert s[..0] == "" && s[1..] == rest;
      assert Split('&', s) == [""] + Split('&', rest);
      assert ([""] + Split('&', rest))[1..] == Split('&', rest);
      assert Split('&', "") == [""] && [""][1..] == [];
    } else {
      ParseFirst(piece, rest);
    }
  }
}
