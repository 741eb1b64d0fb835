/** UTF-8 as browsers encode and decode it: the encoder, and the decoder with U+FFFD replacement of
    the WHATWG Encoding Standard, section 8.1.1. A `char` is a Unicode scalar value. */
module Utf8 {
  /** The bytes of one character. */
  function EncodeChar(c: char): (b: seq<int>)
    ensures b != [] && forall i :: 0 <= i < |b| ==> 0 <= b[i] < 256
  {
    var n := c as int;
    if n < 0x80 then [n]
    else if n < 0x800 then [0xC0 + n / 64, 0x80 + n % 64]
    else if n < 0x10000 then [0xE0 + n / 4096, 0x80 + n / 64 % 64, 0x80 + n % 64]
    else [0xF0 + n / 262144, 0x80 + n / 4096 % 64, 0x80 + n / 64 % 64, 0x80 + n % 64]
  }

  function Encode(s: string): (b: seq<int>)
    ensures forall i :: 0 <= i < |b| ==> 0 <= b[i] < 256
  {
    if s == [] then [] else EncodeChar(s[0]) + Encode(s[1..])
  }

  /** How many continuation bytes a lead byte asks for; none for a byte that cannot lead. */
  function Needed(lead: int): (n: nat)
    ensures n <= 3
  {
    if 0xC2 <= lead <= 0xDF then 1
    else if 0xE0 <= lead <= 0xEF then 2
    else if 0xF0 <= lead <= 0xF4 then 3
    else 0
  }

  /** The range of the first continuation byte: no overlong forms, no surrogates, nothing above U+10FFFF. */
  function Lower(lead: int): int {
    if lead == 0xE0 then 0xA0 else if lead == 0xF0 then 0x90 else 0x80
  }

  function Upper(lead: int): int {
    if lead == 0xED then 0x9F else if lead == 0xF4 then 0x8F else 0xBF
  }

  /** How many of the needed continuation bytes are there. */
  function Present(b: seq<int>, needed: nat, lower: int, upper: int): (k: nat)
    ensures k <= needed && k <= |b|
    ensures k > 0 ==> lower <= b[0] <= upper
    ensures forall i :: 1 <= i < k ==> 0x80 <= b[i] <= 0xBF
  {
    if needed == 0 || b == [] || !(lower <= b[0] <= upper) then 0
    else 1 + Present(b[1..], needed - 1, 0x80, 0xBF)
  }

  function Decode(b: seq<int>): string
    decreases |b|
  {
    if b == [] then []
    else if 0 <= b[0] < 0x80 then [b[0] as char] + Decode(b[1..])
    else
      var needed := Needed(b[0]);
      var present := Present(b[1..], needed, Lower(b[0]), Upper(b[0]));
      if needed == 0 || present < needed then ['\U{FFFD}'] + Decode(b[1 + present..])
      else [Character(b[..1 + needed])] + Decode(b[1 + needed..])
  }

  predicate Complete(b: seq<int>) {
    && b != [] && Needed(b[0]) > 0 && |b| == 1 + Needed(b[0])
    && Lower(b[0]) <= b[1] <= Upper(b[0])
    && (forall i :: 2 <= i < |b| ==> 0x80 <= b[i] <= 0xBF)
  }

  /** The character of a complete sequence of two to four bytes. */
  function Character(b: seq<int>): char
    requires Complete(b)
  {
    var n :=
      if |b| == 2 then (b[0] - 0xC0) * 64 + (b[1] - 0x80)
      else if |b| == 3 then ((b[0] - 0xE0) * 64 + (b[1] - 0x80)) * 64 + (b[2] - 0x80)
      else (((b[0] - 0xF0) * 64 + (b[1] - 0x80)) * 64 + (b[2] - 0x80)) * 64 + (b[3] - 0x80);
    n as char
  }

  lemma EncodedCharIsComplete(c: char)
    requires c as int >= 0x80
    ensures Complete(EncodeChar(c)) && Character(EncodeChar(c)) == c
  {
    var n := c as int;
    var b := EncodeChar(c);
    if n < 0x800 {
      assert 2 <= n / 64 < 32;
    } else if n < 0x10000 {
      assert n / 4096 == n / 64 / 64;
    } else {
      assert n / 4096 == n / 64 / 64 && n / 262144 == n / 64 / 64 / 64;
    }
  }

  lemma PresentInComplete(b: seq<int>, rest: seq<int>)
    requires Complete(b)
    ensures Present(b[1..] + rest, Needed(b[0]), Lower(b[0]), Upper(b[0])) == Needed(b[0])
  {
    var s := b[1..] + rest;
    if |b| > 2 {
      assert s[1..][0] == b[2];
      if |b| > 3 {
        assert s[1..][1..][0] == b[3];
        assert Present(s[1..][1..], 1, 0x80, 0xBF) == 1;
      }
    }
  }

  lemma DecodeFirst(c: char, rest: seq<int>)
    ensures Decode(EncodeChar(c) + rest) == [c] + Decode(rest)
  {
    var b := EncodeChar(c);
    var all := b + rest;
    if c as int < 0x80 {
      assert all[1..] == rest;
    } else {
      EncodedCharIsComplete(c);
      PresentInComplete(b, rest);
      assert all[1..] == b[1..] + rest;
      assert all[..1 + Needed(b[0])] == b && all[1 + Needed(b[0])..] == rest;
    }
  }

  /** Decoding what was encoded gives it back. */
  lemma {:induction false} DecodeEncode(s: string)
    ensures Decode(Encode(s)) == s
  {
    if s != [] {
      DecodeFirst(s[0], Encode(s[1..]));
      DecodeEncode(s[1..]);
    }
  }

  predicate Continuation(b: int) {
    0x80 <= b <= 0xBF
  }

  /** The bytes of one character are those of section 3 of RFC 3629: the lead byte says how many follow, and the
      payload bits, six to each continuation byte, are the code point. */
  lemma EncodingIsStandard(c: char)
    ensures var b, n := EncodeChar(c), c as int;
            && (n < 0x80 ==> b == [n])
            && (0x80 <= n < 0x800 ==>
                  |b| == 2 && 0xC2 <= b[0] <= 0xDF && Continuation(b[1]) && n == (b[0] - 0xC0) * 64 + (b[1] - 0x80))
            && (0x800 <= n < 0x10000 ==>
                  |b| == 3 && 0xE0 <= b[0] <= 0xEF && Continuation(b[1]) && Continuation(b[2])
                  && n == ((b[0] - 0xE0) * 64 + (b[1] - 0x80)) * 64 + (b[2] - 0x80))
            && (0x10000 <= n ==>
                  |b| == 4 && 0xF0 <= b[0] <= 0xF4 && Continuation(b[1]) && Continuation(b[2]) && Continuation(b[3])
                  && n == (((b[0] - 0xF0) * 64 + (b[1] - 0x80)) * 64 + (b[2] - 0x80)) * 64 + (b[3] - 0x80))
  {
    var n := c as int;
    if 0x800 <= n < 0x10000 {
      assert n / 4096 == n / 64 / 64;
    } else if n >= 0x10000 {
      assert n / 4096 == n / 64 / 64 && n / 262144 == n / 64 / 64 / 64;
    }
  }

  /** A text is encoded character by character. */
  lemma {:induction false} EncodingIsPiecewise(s: string, t: string)
    ensures Encode(s + t) == Encode(s) + Encode(t)
    ensures forall c: char :: Encode([c]) == EncodeChar(c)
  {
    if s == [] {
      assert s + t == t;
    } else {
      assert (s + t)[1..] == s[1..] + t;
      EncodingIsPiecewise(s[1..], t);
    }
  }

  /** A byte that cannot start a character becomes a replacement character. */
  lemma StrayByteIsReplaced(b: int, rest: seq<int>)
    requires 0x80 <= b < 0xC2 || b > 0xF4
    ensures Decode([b] + rest) == ['\U{FFFD}'] + Decode(rest)
  {
    assert ([b] + rest)[1..] == rest;
  }

  /** So does a character that breaks off, up to the first byte that does not belong to it. */
  lemma BrokenCharacterIsReplaced()
    ensures Decode([0xE2, 0x82]) == "\U{FFFD}"
    ensures Decode([0xE2, 0x41]) == "\U{FFFD}A"
  {
    assert [0xE2, 0x82][1..] == [0x82] && [0x82][1..] == [];
    assert Present([0x82], 2, 0x80, 0xBF) == 1;
    assert [0xE2, 0x82][2..] == [];
    assert Decode([]) == [];
    assert [0xE2, 0x41][1..] == [0x41] && [0x41][1..] == [];
    assert Decode([0x41]) == "A" + Decode([]);
  }
}
