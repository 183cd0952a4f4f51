/**
 * UTF-8 as `Buffer.from(text)` writes it and as `buffer.toString('utf8')` reads it:
 * each ill-formed piece of the input becomes one replacement character
 * (section 8.1.1 of the WHATWG Encoding standard).
 */
module Utf8 {
  import opened Text

  const REPLACEMENT: char := '\U{FFFD}'

  function EncodeChar(c: char): (b: seq<byte>)
    ensures 1 <= |b| <= 4
  {
    var n := c as int;
    if n < 0x80 then [n]
    else if n < 0x800 then [0xC0 + n / 64, 0x80 + n % 64]
    else if n < 0x10000 then [0xE0 + n / 4096, 0x80 + n / 64 % 64, 0x80 + n % 64]
    else [0xF0 + n / 262144, 0x80 + n / 4096 % 64, 0x80 + n / 64 % 64, 0x80 + n % 64]
  }

  function Encode(s: string): seq<byte> {
    if s == "" then [] else EncodeChar(s[0]) + Encode(s[1..])
  }

  predicate IsContinuation(b: seq<byte>, k: nat) {
    k < |b| && 0x80 <= b[k] < 0xC0
  }

  /** What a continuation byte carries. */
  function Low(x: int): int {
    x - 0x80
  }

  /** The second byte is in the range that its lead byte allows. */
  predicate SecondFits(b: seq<byte>)
    requires b != []
  {
    && 1 < |b|
    && (if b[0] == 0xE0 then 0xA0 else if b[0] == 0xF0 then 0x90 else 0x80) <= b[1]
    && b[1] <= (if b[0] == 0xED then 0x9F else if b[0] == 0xF4 then 0x8F else 0xBF)
  }

  /** The first character of `b` and the number of bytes it takes. */
  function DecodeFirst(b: seq<byte>): (r: (char, nat))
    requires b != []
    ensures 1 <= r.1 <= |b|
  {
    var b0: int := b[0];
    if b0 < 0x80 then (b0 as char, 1)
    else if b0 < 0xC2 || 0xF4 < b0 || !SecondFits(b) then (REPLACEMENT, 1)
    else if b0 < 0xE0 then (((b0 - 0xC0) * 64 + Low(b[1])) as char, 2)
    else if !IsContinuation(b, 2) then (REPLACEMENT, 2)
    else if b0 < 0xF0 then (((b0 - 0xE0) * 4096 + Low(b[1]) * 64 + Low(b[2])) as char, 3)
    else if !IsContinuation(b, 3) then (REPLACEMENT, 3)
    else (((b0 - 0xF0) * 262144 + Low(b[1]) * 4096 + Low(b[2]) * 64 + Low(b[3])) as char, 4)
  }

  function Decode(b: seq<byte>): string
    decreases |b|
  {
    if b == [] then ""
    else
      var first := DecodeFirst(b);
      [first.0] + Decode(b[first.1..])
  }

  lemma DecodeFirstOfEncoded(c: char, rest: seq<byte>)
    ensures DecodeFirst(EncodeChar(c) + rest) == (c, |EncodeChar(c)|)
  {
    var n := c as int;
    assert n == n / 64 * 64 + n % 64;
    assert n / 64 == n / 4096 * 64 + n / 64 % 64;
    assert n / 4096 == n / 262144 * 64 + n / 4096 % 64;
  }

  /** Every text survives being written and read. */
  lemma {:induction false} RoundTrip(s: string)
    ensures Decode(Encode(s)) == s
  {
    if s != "" {
      var head, rest := EncodeChar(s[0]), Encode(s[1..]);
      DecodeFirstOfEncoded(s[0], rest);
      assert (head + rest)[|head|..] == rest;
      RoundTrip(s[1..]);
    }
  }

  /** Plain ASCII text takes one byte a character. */
  lemma EncodeAscii(s: string)
    requires forall k :: 0 <= k < |s| ==> s[k] as int < 0x80
    ensures |Encode(s)| == |s|
    ensures forall k :: 0 <= k < |s| ==> Encode(s)[k] == s[k] as int
  {
    if s != "" {
      EncodeAscii(s[1..]);
      forall k | 0 <= k < |s| ensures Encode(s)[k] == s[k] as int {
        if k > 0 { assert Encode(s)[k] == Encode(s[1..])[k - 1]; }
      }
    }
  }

  // ---- ill-formed input ------------------------------------------------

  /** A plain character is read as itself and alone, whatever stands before it: reading starts anew there. */
  lemma {:induction false} AsciiResyncs(before: seq<byte>, plain: byte, after: seq<byte>)
    requires plain < 0x80
    ensures Decode(before + [plain] + after) == Decode(before) + [plain as char] + Decode(after)
    decreases |before|
  {
    var all := before + [plain] + after;
    if before == [] {
      assert all[1..] == after;
    } else {
      FirstStopsAtAscii(before, plain, after);
      var n := DecodeFirst(before).1;
      assert all[n..] == before[n..] + [plain] + after;
      AsciiResyncs(before[n..], plain, after);
    }
  }

  lemma FirstStopsAtAscii(before: seq<byte>, plain: byte, after: seq<byte>)
    requires before != [] && plain < 0x80
    ensures DecodeFirst(before + [plain] + after) == DecodeFirst(before)
  {
    var all := before + [plain] + after;
    assert all[..|before|] == before && all[|before|] == plain;
    assert forall k :: 0 <= k < |before| ==> all[k] == before[k];
  }

  /** A character cut short is read as one replacement character, whatever character it is and wherever it is cut. */
  lemma CutCharacter(c: char, k: nat)
    requires 0 < k < |EncodeChar(c)|
    ensures Decode(EncodeChar(c)[..k]) == [REPLACEMENT]
  {
    var b := EncodeChar(c);
    DecodeFirstOfEncoded(c, []);
    assert b + [] == b;
    var first := b[..k];
    assert forall i :: 0 <= i < k ==> first[i] == b[i];
    assert DecodeFirst(first) == (REPLACEMENT, k);
    assert first[k..] == [];
  }

  /** A byte that no character begins with is read as one replacement character. */
  lemma StrayByte(stray: byte, after: seq<byte>)
    requires 0x80 <= stray < 0xC2 || 0xF5 <= stray
    ensures Decode([stray] + after) == [REPLACEMENT] + Decode(after)
  {
    assert ([stray] + after)[1..] == after;
  }
}
