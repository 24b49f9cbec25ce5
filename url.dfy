/**
 * Percent-encoding as Go's `net/url` does it, over the UTF-8 bytes of a
 * string (section 2.1 of RFC 3986): `QueryEscape`, which the peer client
 * applies to the group and the key, `PathEscape`, and the decoding of a
 * request path that `net/http` performs before a handler reads
 * `r.URL.Path`.
 */
module Urls {

  import opened Wrappers
  import opened Bytes
  import Utf8

  /** Which component is escaped: the two differ on reserved characters and on the space. */
  datatype Mode = PathSegment | QueryComponent

  /** Letters, digits and `-_.~`, which no mode escapes (section 2.3 of RFC 3986). */
  predicate Unreserved(b: byte)
  {
    var c := b as int as char;
    ('a' <= c <= 'z') || ('A' <= c <= 'Z') || ('0' <= c <= '9') || c in "-_.~"
  }

  /**
   * Go's `shouldEscape`: unreserved bytes stay; of the reserved characters a
   * path segment escapes only `/;,?` while a query component escapes all of
   * them; every other byte is escaped.
   */
  predicate ShouldEscape(b: byte, mode: Mode)
  {
    var c := b as int as char;
    if Unreserved(b) then false
    else if c in "$&+,/:;=?@" then
      match mode
      case PathSegment => c in "/;,?"
      case QueryComponent => true
    else true
  }

  /** An upper-case hexadecimal digit, as Go writes them. */
  function HexDigit(d: int): (c: char)
    requires 0 <= d < 16
    ensures HexValue(c) == Some(d)
  {
    if d < 10 then ('0' as int + d) as char else ('A' as int + d - 10) as char
  }

  /** The value of a hexadecimal digit of either case, or `None` for any other character. */
  function HexValue(c: char): Option<int>
  {
    if '0' <= c <= '9' then Some(c as int - '0' as int)
    else if 'a' <= c <= 'f' then Some(c as int - 'a' as int + 10)
    else if 'A' <= c <= 'F' then Some(c as int - 'A' as int + 10)
    else None
  }

  /** One byte of output: itself, "+" for a space in a query component, or `%XY`. */
  function EscapeByte(b: byte, mode: Mode): (s: string)
    ensures 1 <= |s| <= 3 && '/' !in s
    ensures forall i :: 0 <= i < |s| ==> s[i] as int < 0x80
  {
    if mode == QueryComponent && b == 0x20 then "+"
    else if ShouldEscape(b, mode) then ['%', HexDigit(b as int / 16), HexDigit(b as int % 16)]
    else [b as int as char]
  }

  /** Go's `escape`: every byte in turn. */
  function EscapeBytes(bs: seq<byte>, mode: Mode): (s: string)
    ensures '/' !in s
    ensures forall i :: 0 <= i < |s| ==> s[i] as int < 0x80
  {
    if bs == [] then [] else EscapeByte(bs[0], mode) + EscapeBytes(bs[1..], mode)
  }

  /** `url.QueryEscape`, as the peer client calls it. */
  function QueryEscape(s: string): string
  {
    EscapeBytes(Utf8.Encode(s), QueryComponent)
  }

  /** `url.PathEscape`, the escape meant for one segment of a path. */
  function PathEscape(s: string): string
  {
    EscapeBytes(Utf8.Encode(s), PathSegment)
  }

  /**
   * Go's `unescape` of a path: `%XY` becomes the byte XY and every other
   * character its own UTF-8 bytes, "+" included; a "%" without two
   * hexadecimal digits after it is an error.
   */
  function PercentDecode(s: string): Option<seq<byte>>
  {
    if s == [] then Some([])
    else if s[0] == '%' then
      if |s| < 3 || HexValue(s[1]).None? || HexValue(s[2]).None? then None
      else
        var rest := PercentDecode(s[3..]);
        if rest.None? then None
        else Some([(HexValue(s[1]).value * 16 + HexValue(s[2]).value) as byte] + rest.value)
    else
      var rest := PercentDecode(s[1..]);
      if rest.None? then None else Some(Utf8.EncodeRune(s[0]) + rest.value)
  }

  /** `r.URL.Path`: the path percent-decoded and read back as a string. */
  function PathUnescape(s: string): Option<string>
  {
    var b := PercentDecode(s);
    if b.None? then None else Utf8.Decode(b.value)
  }

  /** A byte escaped for a path segment decodes to itself, whatever follows it. */
  lemma DecodeEscapedByte(b: byte, t: string)
    ensures PercentDecode(t).None? ==> PercentDecode(EscapeByte(b, PathSegment) + t).None?
    ensures PercentDecode(t).Some? ==>
      PercentDecode(EscapeByte(b, PathSegment) + t) == Some([b] + PercentDecode(t).value)
  {
    if ShouldEscape(b, PathSegment) {
      DecodePercentByte(b, t);
    } else {
      DecodeKeptByte(b, t);
    }
  }

  lemma DecodePercentByte(b: byte, t: string)
    requires ShouldEscape(b, PathSegment)
    ensures PercentDecode(t).None? ==> PercentDecode(EscapeByte(b, PathSegment) + t).None?
    ensures PercentDecode(t).Some? ==>
      PercentDecode(EscapeByte(b, PathSegment) + t) == Some([b] + PercentDecode(t).value)
  {
    var hi, lo := HexDigit(b as int / 16), HexDigit(b as int % 16);
    var x := ['%', hi, lo] + t;
    assert EscapeByte(b, PathSegment) + t == x;
    assert x[0] == '%' && x[1] == hi && x[2] == lo && x[3..] == t;
    assert (b as int / 16) * 16 + b as int % 16 == b as int;
  }

  lemma DecodeKeptByte(b: byte, t: string)
    requires !ShouldEscape(b, PathSegment)
    ensures PercentDecode(t).None? ==> PercentDecode(EscapeByte(b, PathSegment) + t).None?
    ensures PercentDecode(t).Some? ==>
      PercentDecode(EscapeByte(b, PathSegment) + t) == Some([b] + PercentDecode(t).value)
  {
    var c := b as int as char;
    var x := [c] + t;
    assert EscapeByte(b, PathSegment) + t == x;
    assert b as int < 0x80 && c != '%';
    assert c as int == b as int;
    assert x[0] == c && x[1..] == t;
  }

  /** Bytes escaped for a path segment decode to themselves, whatever follows them. */
  lemma {:induction false} DecodeEscapedBytes(bs: seq<byte>, t: string)
    ensures PercentDecode(t).None? ==> PercentDecode(EscapeBytes(bs, PathSegment) + t).None?
    ensures PercentDecode(t).Some? ==>
      PercentDecode(EscapeBytes(bs, PathSegment) + t) == Some(bs + PercentDecode(t).value)
  {
    if bs == [] {
      assert EscapeBytes(bs, PathSegment) + t == t;
      assert PercentDecode(t).Some? ==> bs + PercentDecode(t).value == PercentDecode(t).value;
    } else {
      DecodeEscapedBytes(bs[1..], t);
      assert bs == [bs[0]] + bs[1..];
      DecodeEscapedCons(bs[0], bs[1..], t);
    }
  }

  /** The inductive step of `DecodeEscapedBytes`: one more byte in front. */
  lemma DecodeEscapedCons(b: byte, u: seq<byte>, t: string)
    requires PercentDecode(t).None? ==> PercentDecode(EscapeBytes(u, PathSegment) + t).None?
    requires PercentDecode(t).Some? ==>
      PercentDecode(EscapeBytes(u, PathSegment) + t) == Some(u + PercentDecode(t).value)
    ensures PercentDecode(t).None? ==> PercentDecode(EscapeBytes([b] + u, PathSegment) + t).None?
    ensures PercentDecode(t).Some? ==>
      PercentDecode(EscapeBytes([b] + u, PathSegment) + t) == Some([b] + u + PercentDecode(t).value)
  {
    assert ([b] + u)[1..] == u;
    assert EscapeBytes([b] + u, PathSegment) == EscapeByte(b, PathSegment) + EscapeBytes(u, PathSegment);
    Utf8.AppendAssoc(EscapeByte(b, PathSegment), EscapeBytes(u, PathSegment), t);
    DecodeEscapedByte(b, EscapeBytes(u, PathSegment) + t);
    if PercentDecode(t).Some? {
      Utf8.ConsAppend(b, u, PercentDecode(t).value);
    }
  }

  /** Text without "%" decodes to its own UTF-8 bytes, whatever follows it. */
  lemma {:induction false} DecodePlain(p: string, t: string)
    requires '%' !in p
    ensures PercentDecode(t).None? ==> PercentDecode(p + t).None?
    ensures PercentDecode(t).Some? ==> PercentDecode(p + t) == Some(Utf8.Encode(p) + PercentDecode(t).value)
  {
    if p == [] {
      assert p + t == t;
      assert PercentDecode(t).Some? ==> Utf8.Encode(p) + PercentDecode(t).value == PercentDecode(t).value;
    } else {
      assert p[0] in p;
      assert '%' !in p[1..] by {
        forall i | 0 <= i < |p[1..]|
          ensures p[1..][i] != '%'
        {
          assert p[1..][i] == p[i + 1];
        }
      }
      DecodePlain(p[1..], t);
      assert (p + t)[1..] == p[1..] + t;
      Utf8.EncodeCons(p[0], p[1..]);
      assert p == [p[0]] + p[1..];
      if PercentDecode(t).Some? {
        Utf8.AppendAssoc(Utf8.EncodeRune(p[0]), Utf8.Encode(p[1..]), PercentDecode(t).value);
      }
    }
  }

  /** A path without "%" is its own decoding. */
  lemma PlainPathUnescape(p: string)
    requires '%' !in p
    ensures PathUnescape(p) == Some(p)
  {
    DecodePlain(p, []);
    assert p + [] == p;
    assert Utf8.Encode(p) + [] == Utf8.Encode(p);
    Utf8.EncodeDecode(p);
  }

  /** A path-segment escape survives the decoding `net/http` applies: the server reads back the very string. */
  lemma PathEscapeRoundTrip(s: string)
    ensures PercentDecode(PathEscape(s)) == Some(Utf8.Encode(s))
    ensures PathUnescape(PathEscape(s)) == Some(s)
  {
    DecodeEscapedBytes(Utf8.Encode(s), []);
    assert PathEscape(s) + [] == PathEscape(s);
    assert Utf8.Encode(s) + [] == Utf8.Encode(s);
    Utf8.EncodeDecode(s);
  }

  /**
   * The path a peer requests, `basePath`, the escaped group, "/" and the
   * escaped key, decodes to the plain `basePath + group + "/" + key`.
   */
  lemma DecodeRequestPath(basePath: string, group: string, key: string)
    requires '%' !in basePath
    ensures PathUnescape(basePath + PathEscape(group) + "/" + PathEscape(key)) == Some(basePath + group + "/" + key)
  {
    var eg, ek := PathEscape(group), PathEscape(key);
    var t2 := eg + ("/" + ek);
    DecodeGroupAndKey(group, key);
    DecodePlain(basePath, t2);
    Utf8.EncodeAppend(basePath, group + ("/" + key));
    var plain := basePath + (group + ("/" + key));
    Utf8.AppendAssoc(basePath + eg, "/", ek);
    Utf8.AppendAssoc(basePath, eg, "/" + ek);
    Utf8.AppendAssoc(basePath + group, "/", key);
    Utf8.AppendAssoc(basePath, group, "/" + key);
    Utf8.EncodeDecode(plain);
  }

  /** The escaped group, "/" and the escaped key decode to the bytes of `group + "/" + key`. */
  lemma DecodeGroupAndKey(group: string, key: string)
    ensures PercentDecode(PathEscape(group) + ("/" + PathEscape(key))) == Some(Utf8.Encode(group + ("/" + key)))
  {
    var ek := PathEscape(key);
    PathEscapeRoundTrip(key);
    DecodePlain("/", ek);
    Utf8.EncodeAppend("/", key);
    DecodeEscapedBytes(Utf8.Encode(group), "/" + ek);
    Utf8.EncodeAppend(group, "/" + key);
    Utf8.AppendAssoc(Utf8.Encode(group), Utf8.Encode("/"), Utf8.Encode(key));
  }

  /** `url.QueryEscape` keeps a plain name and writes the space in "a b" as "+". */
  lemma QueryEscapeOfSpace()
    ensures QueryEscape("g") == "g"
    ensures QueryEscape("a b") == "a+b"
  {
    Utf8.EncodeAscii("g");
    Utf8.EncodeAscii("a b");
    var ab: seq<byte> := [0x61, 0x20, 0x62];
    assert Utf8.Encode("a b") == ab;
    assert EscapeByte(0x61, QueryComponent) == "a";
    assert EscapeByte(0x20, QueryComponent) == "+";
    assert EscapeByte(0x62, QueryComponent) == "b";
    assert ab[1..] == [0x20, 0x62] && ab[1..][1..] == [0x62] && ab[1..][1..][1..] == [];
  }
}
