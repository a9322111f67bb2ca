/**
 * UTF-8 as defined by section 3 and section 4 of RFC 3629: the encoding Rust
 * uses for `&str` keys handed to the engine, and the validation that
 * `String::from_utf8` performs on the way back.
 */
module Utf8 {
  import opened Results
  import opened Bytes

  predicate IsContinuation(b: byte) { 0x80 <= b <= 0xBF }

  /** The bytes of one scalar value, shortest form. */
  function EncodeChar(c: char): (bs: seq<byte>)
    ensures 1 <= |bs| <= 4
  {
    var n := c as int;
    if n < 0x80 then [n as byte]
    else if n < 0x800 then [(0xC0 + n / 64) as byte, (0x80 + n % 64) as byte]
    else if n < 0x10000 then
      [(0xE0 + n / 4096) as byte, (0x80 + (n / 64) % 64) as byte, (0x80 + n % 64) as byte]
    else
      [(0xF0 + n / 262144) as byte, (0x80 + (n / 4096) % 64) as byte,
       (0x80 + (n / 64) % 64) as byte, (0x80 + n % 64) as byte]
  }

  function Encode(s: string): (bs: seq<byte>)
  {
    if s == [] then [] else EncodeChar(s[0]) + Encode(s[1..])
  }

  /**
   * Length of the well-formed sequence that starts `s`, following the
   * UTF8-char production of section 4 of RFC 3629; 0 when `s` does not start
   * with one (a stray continuation byte, an overlong form, a surrogate, a
   * value above U+10FFFF, or a sequence cut short).
   */
  function SequenceLength(s: seq<byte>): (n: nat)
    ensures n <= |s| && n <= 4
  {
    if |s| == 0 then 0
    else
      var b0 := s[0];
      if b0 <= 0x7F then 1
      else if 0xC2 <= b0 <= 0xDF then
        (if |s| >= 2 && IsContinuation(s[1]) then 2 else 0)
      else if 0xE0 <= b0 <= 0xEF then
        var lo: byte := if b0 == 0xE0 then 0xA0 else 0x80;
        var hi: byte := if b0 == 0xED then 0x9F else 0xBF;
        (if |s| >= 3 && lo <= s[1] <= hi && IsContinuation(s[2]) then 3 else 0)
      else if 0xF0 <= b0 <= 0xF4 then
        var lo: byte := if b0 == 0xF0 then 0x90 else 0x80;
        var hi: byte := if b0 == 0xF4 then 0x8F else 0xBF;
        (if |s| >= 4 && lo <= s[1] <= hi && IsContinuation(s[2]) && IsContinuation(s[3]) then 4 else 0)
      else 0
  }

  /** The scalar value carried by the well-formed sequence at the head of `s`. */
  function DecodeChar(s: seq<byte>): (c: char)
    requires SequenceLength(s) > 0
  {
    var n := SequenceLength(s);
    if n == 1 then s[0] as int as char
    else if n == 2 then ((s[0] as int - 0xC0) * 64 + (s[1] as int - 0x80)) as char
    else if n == 3 then
      ((s[0] as int - 0xE0) * 4096 + (s[1] as int - 0x80) * 64 + (s[2] as int - 0x80)) as char
    else
      ((s[0] as int - 0xF0) * 262144 + (s[1] as int - 0x80) * 4096
        + (s[2] as int - 0x80) * 64 + (s[3] as int - 0x80)) as char
  }

  /** `String::from_utf8`: the string, or `None` when `s` is not valid UTF-8. */
  function Decode(s: seq<byte>): (r: Option<string>)
    decreases |s|
  {
    if s == [] then Some([])
    else
      var n := SequenceLength(s);
      if n == 0 then None
      else match Decode(s[n..])
        case None => None
        case Some(rest) => Some([DecodeChar(s)] + rest)
  }

  lemma DivMod64(n: int, q: int, r: int)
    requires 0 <= r < 64 && n == q * 64 + r
    ensures n / 64 == q && n % 64 == r
  {
  }

  /** Decoding the encoding of one scalar value gives it back, whatever follows. */
  lemma DecodeEncodeChar(c: char, rest: seq<byte>)
    ensures SequenceLength(EncodeChar(c) + rest) == |EncodeChar(c)|
    ensures DecodeChar(EncodeChar(c) + rest) == c
  {
    var n := c as int;
    if 0x800 <= n < 0x10000 {
      DecodeEncodeThree(c, rest);
    } else if 0x10000 <= n {
      DecodeEncodeFour(c, rest);
    }
  }

  lemma DecodeEncodeThree(c: char, rest: seq<byte>)
    requires 0x800 <= c as int < 0x10000
    ensures SequenceLength(EncodeChar(c) + rest) == 3
    ensures DecodeChar(EncodeChar(c) + rest) == c
  {
    var n := c as int;
    DivMod64(n, n / 64, n % 64);
    DivMod64(n / 64, n / 4096, (n / 64) % 64);
  }

  lemma DecodeEncodeFour(c: char, rest: seq<byte>)
    requires 0x10000 <= c as int
    ensures SequenceLength(EncodeChar(c) + rest) == 4
    ensures DecodeChar(EncodeChar(c) + rest) == c
  {
    var n := c as int;
    DivMod64(n, n / 64, n % 64);
    DivMod64(n / 64, n / 4096, (n / 64) % 64);
    DivMod64(n / 4096, n / 262144, (n / 4096) % 64);
  }

  /** A well-formed sequence is exactly the encoding of the value it carries. */
  lemma EncodeDecodeChar(s: seq<byte>)
    requires SequenceLength(s) > 0
    ensures EncodeChar(DecodeChar(s)) == s[..SequenceLength(s)]
  {
    var n := SequenceLength(s);
    if n == 2 {
      EncodeDecodeTwo(s);
    } else if n == 3 {
      EncodeDecodeThree(s);
    } else if n == 4 {
      EncodeDecodeFour(s);
    }
  }

  lemma EncodeDecodeTwo(s: seq<byte>)
    requires SequenceLength(s) == 2
    ensures EncodeChar(DecodeChar(s)) == s[..2]
  {
    var c := (s[0] as int - 0xC0) * 64 + (s[1] as int - 0x80);
    assert DecodeChar(s) as int == c;
    assert 0x80 <= c < 0x800;
    DivMod64(c, s[0] as int - 0xC0, s[1] as int - 0x80);
  }

  lemma EncodeDecodeThree(s: seq<byte>)
    requires SequenceLength(s) == 3
    ensures EncodeChar(DecodeChar(s)) == s[..3]
  {
    var hi := (s[0] as int - 0xE0) * 64 + (s[1] as int - 0x80);
    var c := hi * 64 + (s[2] as int - 0x80);
    assert DecodeChar(s) as int == c;
    assert 0x800 <= c < 0x10000;
    DivMod64(c, hi, s[2] as int - 0x80);
    DivMod64(hi, s[0] as int - 0xE0, s[1] as int - 0x80);
  }

  lemma EncodeDecodeFour(s: seq<byte>)
    requires SequenceLength(s) == 4
    ensures EncodeChar(DecodeChar(s)) == s[..4]
  {
    var top := (s[0] as int - 0xF0) * 64 + (s[1] as int - 0x80);
    var mid := top * 64 + (s[2] as int - 0x80);
    var c := mid * 64 + (s[3] as int - 0x80);
    assert DecodeChar(s) as int == c;
    assert 0x10000 <= c;
    DivMod64(c, mid, s[3] as int - 0x80);
    DivMod64(mid, top, s[2] as int - 0x80);
    DivMod64(top, s[0] as int - 0xF0, s[1] as int - 0x80);
  }

  /** Every string survives the trip through its UTF-8 bytes. */
  lemma {:induction false} DecodeEncode(s: string)
    ensures Decode(Encode(s)) == Some(s)
  {
    if s != [] {
      var head := EncodeChar(s[0]);
      var tail := Encode(s[1..]);
      DecodeEncodeChar(s[0], tail);
      assert (head + tail)[|head|..] == tail;
      DecodeEncode(s[1..]);
      assert [s[0]] + s[1..] == s;
    }
  }

  /** Bytes that decode are the encoding of what they decode to. */
  lemma {:induction false} EncodeDecode(b: seq<byte>)
    requires Decode(b).Some?
    ensures Encode(Decode(b).value) == b
    decreases |b|
  {
    if b != [] {
      var n := SequenceLength(b);
      EncodeDecodeChar(b);
      EncodeDecode(b[n..]);
      var t := Decode(b).value;
      assert t[0] == DecodeChar(b) && t[1..] == Decode(b[n..]).value;
      assert b[..n] + b[n..] == b;
    }
  }

  /** Distinct strings are stored under distinct keys. */
  lemma EncodeInjective(s1: string, s2: string)
    ensures Encode(s1) == Encode(s2) ==> s1 == s2
  {
    DecodeEncode(s1);
    DecodeEncode(s2);
  }
}
