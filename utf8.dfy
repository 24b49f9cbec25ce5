/**
 * UTF-8, the encoding Go uses whenever a string becomes bytes (`[]byte(s)`)
 * and whenever bytes become a string again. A Dafny `char` is a Unicode
 * scalar value, so every string has exactly one encoding, and decoding that
 * encoding gives the string back.
 */
module Utf8 {

  import opened Wrappers
  import opened Bytes

  /** A byte of the form 10xxxxxx, which continues a multi-byte sequence. */
  predicate IsContinuation(b: byte)
  {
    0x80 <= b < 0xC0
  }

  /** The encoding of one scalar value: 1, 2, 3 or 4 bytes, as RFC 3629 section 3 lays them out. */
  function EncodeRune(c: char): (b: seq<byte>)
    ensures 1 <= |b| <= 4
    ensures |b| == 1 <==> c as int < 0x80
    ensures c as int < 0x80 ==> b == [c as int as byte]
    ensures forall i :: 1 <= i < |b| ==> IsContinuation(b[i])
  {
    var n := c as int;
    if n < 0x80 then [n as byte]
    else if n < 0x800 then [(0xC0 + n / 64) as byte, (0x80 + n % 64) as byte]
    else if n < 0x1_0000 then
      [(0xE0 + n / 64 / 64) as byte, (0x80 + n / 64 % 64) as byte, (0x80 + n % 64) as byte]
    else
      [(0xF0 + n / 64 / 64 / 64) as byte, (0x80 + n / 64 / 64 % 64) as byte,
       (0x80 + n / 64 % 64) as byte, (0x80 + n % 64) as byte]
  }

  /** The bytes of a string: the encodings of its characters, one after another. */
  function Encode(s: string): (b: seq<byte>)
    ensures |b| >= |s|
  {
    if s == [] then [] else EncodeRune(s[0]) + Encode(s[1..])
  }

  /**
   * The first scalar value of `b` and the number of bytes it takes. A lead
   * byte that does not fit, a missing continuation byte, an overlong form, a
   * surrogate and a value past U+10FFFF are each rejected.
   */
  function DecodeRune(b: seq<byte>): (r: Option<(char, nat)>)
    ensures r.Some? ==> 1 <= r.value.1 <= |b| && r.value.1 <= 4
  {
    if b == [] then None
    else
      var b0 := b[0] as int;
      if b0 < 0x80 then Some((b0 as char, 1))
      else if 0xC2 <= b0 < 0xE0 && |b| >= 2 && IsContinuation(b[1]) then
        Some((((b0 - 0xC0) * 64 + (b[1] as int - 0x80)) as char, 2))
      else if 0xE0 <= b0 < 0xF0 && |b| >= 3 && IsContinuation(b[1]) && IsContinuation(b[2]) then
        var n := (b0 - 0xE0) * 4096 + (b[1] as int - 0x80) * 64 + (b[2] as int - 0x80);
        if n < 0x800 || 0xD800 <= n < 0xE000 then None else Some((n as char, 3))
      else if 0xF0 <= b0 < 0xF5 && |b| >= 4 && IsContinuation(b[1]) && IsContinuation(b[2]) && IsContinuation(b[3]) then
        var n := (b0 - 0xF0) * 262144 + (b[1] as int - 0x80) * 4096 + (b[2] as int - 0x80) * 64 + (b[3] as int - 0x80);
        if n < 0x1_0000 || 0x11_0000 <= n then None else Some((n as char, 4))
      else None
  }

  /** The string a byte sequence encodes, or `None` when it is not valid UTF-8. */
  function Decode(b: seq<byte>): Option<string>
    decreases |b|
  {
    if b == [] then Some([])
    else if DecodeRune(b).None? then None
    else
      var k := DecodeRune(b).value.1;
      var t := Decode(b[k..]);
      if t.None? then None else Some([DecodeRune(b).value.0] + t.value)
  }

  /** A character's encoding decodes to that character, whatever bytes follow it. */
  lemma DecodeEncodeRune(c: char, rest: seq<byte>)
    ensures DecodeRune(EncodeRune(c) + rest) == Some((c, |EncodeRune(c)|))
  {
    var n := c as int;
    if n < 0x80 {
    } else if n < 0x800 {
      DecodeTwo(c, rest);
    } else if n < 0x1_0000 {
      DecodeThree(c, rest);
    } else {
      DecodeFour(c, rest);
    }
  }

  lemma DecodeTwo(c: char, rest: seq<byte>)
    requires 0x80 <= c as int < 0x800
    ensures DecodeRune(EncodeRune(c) + rest) == Some((c, 2))
  {
    var n := c as int;
    var b := EncodeRune(c) + rest;
    var hi, lo := n / 64, n % 64;
    assert hi * 64 + lo == n && 2 <= hi < 32;
    assert b[0] as int == 0xC0 + hi && b[1] as int == 0x80 + lo;
  }

  lemma DecodeThree(c: char, rest: seq<byte>)
    requires 0x800 <= c as int < 0x1_0000
    ensures DecodeRune(EncodeRune(c) + rest) == Some((c, 3))
  {
    var n := c as int;
    var b := EncodeRune(c) + rest;
    var q1 := n / 64;
    var q2 := q1 / 64;
    assert n == q1 * 64 + n % 64 && q1 == q2 * 64 + q1 % 64;
    assert b[0] as int == 0xE0 + q2 && b[1] as int == 0x80 + q1 % 64 && b[2] as int == 0x80 + n % 64;
  }

  lemma DecodeFour(c: char, rest: seq<byte>)
    requires 0x1_0000 <= c as int
    ensures DecodeRune(EncodeRune(c) + rest) == Some((c, 4))
  {
    var n := c as int;
    var b := EncodeRune(c) + rest;
    var q1 := n / 64;
    var q2 := q1 / 64;
    var q3 := q2 / 64;
    assert n == q1 * 64 + n % 64 && q1 == q2 * 64 + q1 % 64 && q2 == q3 * 64 + q2 % 64;
    assert b[0] as int == 0xF0 + q3 && b[1] as int == 0x80 + q2 % 64;
    assert b[2] as int == 0x80 + q1 % 64 && b[3] as int == 0x80 + n % 64;
  }

  /** Encoding distributes over concatenation. */
  lemma {:induction false} EncodeAppend(a: string, b: string)
    ensures Encode(a + b) == Encode(a) + Encode(b)
  {
    if a == [] {
      assert a + b == b;
    } else {
      assert (a + b)[1..] == a[1..] + b;
      EncodeAppend(a[1..], b);
    }
  }

  /** Decoding an encoded prefix yields the string and then whatever the rest decodes to. */
  lemma {:induction false} DecodeEncodePrefix(s: string, rest: seq<byte>)
    ensures Decode(rest).None? ==> Decode(Encode(s) + rest).None?
    ensures Decode(rest).Some? ==> Decode(Encode(s) + rest) == Some(s + Decode(rest).value)
  {
    if s == [] {
      assert Encode(s) + rest == rest;
      assert Decode(rest).Some? ==> s + Decode(rest).value == Decode(rest).value;
    } else {
      DecodeEncodePrefix(s[1..], rest);
      assert s == [s[0]] + s[1..];
      EncodeConsDecode(s[0], s[1..], rest);
    }
  }

  /** The inductive step of `DecodeEncodePrefix`: one more character in front. */
  lemma EncodeConsDecode(c: char, u: string, rest: seq<byte>)
    requires Decode(rest).None? ==> Decode(Encode(u) + rest).None?
    requires Decode(rest).Some? ==> Decode(Encode(u) + rest) == Some(u + Decode(rest).value)
    ensures Decode(rest).None? ==> Decode(Encode([c] + u) + rest).None?
    ensures Decode(rest).Some? ==> Decode(Encode([c] + u) + rest) == Some([c] + u + Decode(rest).value)
  {
    EncodeCons(c, u);
    AppendAssoc(EncodeRune(c), Encode(u), rest);
    DecodeRuneThenRest(c, Encode(u) + rest);
    if Decode(rest).Some? {
      ConsAppend(c, u, Decode(rest).value);
    }
  }

  lemma EncodeCons(c: char, u: string)
    ensures Encode([c] + u) == EncodeRune(c) + Encode(u)
  {
    assert ([c] + u)[1..] == u;
  }

  lemma AppendAssoc<T>(a: seq<T>, b: seq<T>, t: seq<T>)
    ensures (a + b) + t == a + (b + t)
  {
  }

  lemma SplitJoin<T>(s: seq<T>, k: nat)
    requires k <= |s|
    ensures s[..k] + s[k..] == s
  {
  }

  lemma ConsAppend<T>(x: T, u: seq<T>, t: seq<T>)
    ensures [x] + (u + t) == ([x] + u) + t
  {
  }

  /** Decoding a character's encoding followed by `y` is that character, then what `y` decodes to. */
  lemma DecodeRuneThenRest(c: char, y: seq<byte>)
    ensures Decode(y).None? ==> Decode(EncodeRune(c) + y).None?
    ensures Decode(y).Some? ==> Decode(EncodeRune(c) + y) == Some([c] + Decode(y).value)
  {
    var x := EncodeRune(c) + y;
    DecodeEncodeRune(c, y);
    assert x[|EncodeRune(c)|..] == y;
  }

  /** Every string survives the trip to bytes and back. */
  lemma EncodeDecode(s: string)
    ensures Decode(Encode(s)) == Some(s)
  {
    DecodeEncodePrefix(s, []);
    assert Encode(s) + [] == Encode(s);
    assert s + [] == s;
  }

  /** Every valid byte sequence is the encoding of what it decodes to. */
  lemma {:induction false} DecodeThenEncode(b: seq<byte>)
    ensures Decode(b).Some? ==> Encode(Decode(b).value) == b
    decreases |b|
  {
    if b != [] && Decode(b).Some? {
      var c, k := DecodeRune(b).value.0, DecodeRune(b).value.1;
      DecodeThenEncode(b[k..]);
      DecodeThenEncodeStep(b, c, k, Decode(b[k..]).value);
    }
  }

  /** The inductive step of `DecodeThenEncode`: one more scalar value in front. */
  lemma DecodeThenEncodeStep(b: seq<byte>, c: char, k: nat, t: string)
    requires DecodeRune(b) == Some((c, k)) && b != []
    requires Decode(b[k..]) == Some(t) && Encode(t) == b[k..]
    ensures Decode(b) == Some([c] + t) && Encode([c] + t) == b
  {
    EncodeDecodedRune(b);
    EncodeCons(c, t);
    SplitJoin(b, k);
  }

  /** The bytes a scalar value is decoded from are exactly its encoding. */
  lemma EncodeDecodedRune(b: seq<byte>)
    requires DecodeRune(b).Some?
    ensures EncodeRune(DecodeRune(b).value.0) == b[..DecodeRune(b).value.1]
  {
    var b0 := b[0] as int;
    if b0 < 0x80 {
      assert b[..1] == [b[0]];
    } else if 0xC2 <= b0 < 0xE0 && |b| >= 2 && IsContinuation(b[1]) {
      EncodeTwoBytes(b0, b[1] as int);
      assert b[..2] == [b[0], b[1]];
    } else if 0xE0 <= b0 < 0xF0 && |b| >= 3 && IsContinuation(b[1]) && IsContinuation(b[2]) {
      EncodeThreeBytes(b0, b[1] as int, b[2] as int);
      assert b[..3] == [b[0], b[1], b[2]];
    } else {
      EncodeFourBytes(b0, b[1] as int, b[2] as int, b[3] as int);
      assert b[..4] == [b[0], b[1], b[2], b[3]];
    }
  }

  lemma DivMod64(q: int, r: int)
    requires 0 <= r < 64
    ensures (q * 64 + r) / 64 == q && (q * 64 + r) % 64 == r
  {
  }

  lemma EncodeTwoBytes(x: int, y: int)
    requires 0xC2 <= x < 0xE0 && 0x80 <= y < 0xC0
    ensures var n := (x - 0xC0) * 64 + (y - 0x80);
      0x80 <= n < 0x800 && EncodeRune(n as char) == [x as byte, y as byte]
  {
    DivMod64(x - 0xC0, y - 0x80);
  }

  lemma EncodeThreeBytes(x: int, y: int, z: int)
    requires 0xE0 <= x < 0xF0 && 0x80 <= y < 0xC0 && 0x80 <= z < 0xC0
    requires var n := (x - 0xE0) * 4096 + (y - 0x80) * 64 + (z - 0x80);
      0x800 <= n && !(0xD800 <= n < 0xE000)
    ensures var n := (x - 0xE0) * 4096 + (y - 0x80) * 64 + (z - 0x80);
      EncodeRune(n as char) == [x as byte, y as byte, z as byte]
  {
    var q1 := (x - 0xE0) * 64 + (y - 0x80);
    var n := q1 * 64 + (z - 0x80);
    DivMod64(q1, z - 0x80);
    DivMod64(x - 0xE0, y - 0x80);
    assert n / 64 == q1 && n % 64 == z - 0x80;
    assert q1 / 64 == x - 0xE0 && q1 % 64 == y - 0x80;
  }

  lemma EncodeFourBytes(x: int, y: int, z: int, w: int)
    requires 0xF0 <= x < 0xF5 && 0x80 <= y < 0xC0 && 0x80 <= z < 0xC0 && 0x80 <= w < 0xC0
    requires var n := (x - 0xF0) * 262144 + (y - 0x80) * 4096 + (z - 0x80) * 64 + (w - 0x80);
      0x1_0000 <= n < 0x11_0000
    ensures var n := (x - 0xF0) * 262144 + (y - 0x80) * 4096 + (z - 0x80) * 64 + (w - 0x80);
      EncodeRune(n as char) == [x as byte, y as byte, z as byte, w as byte]
  {
    var q2 := (x - 0xF0) * 64 + (y - 0x80);
    var q1 := q2 * 64 + (z - 0x80);
    var n := q1 * 64 + (w - 0x80);
    DivMod64(q1, w - 0x80);
    DivMod64(q2, z - 0x80);
    DivMod64(x - 0xF0, y - 0x80);
    assert n / 64 == q1 && n % 64 == w - 0x80;
    assert q1 / 64 == q2 && q1 % 64 == z - 0x80;
    assert q2 / 64 == x - 0xF0 && q2 % 64 == y - 0x80;
  }

  /** A string of ASCII characters is its own byte string. */
  lemma {:induction false} EncodeAscii(s: string)
    requires forall i :: 0 <= i < |s| ==> s[i] as int < 0x80
    ensures Encode(s) == seq(|s|, i requires 0 <= i < |s| => s[i] as int as byte)
  {
    if s != [] {
      EncodeAscii(s[1..]);
    }
  }
}
