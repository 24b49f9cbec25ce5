/** The immutable byte view handed out by the cache (ppcache/byteview.go). */
module ByteViews {

  import opened Wrappers
  import Bytes
  import Utf8

  /** One byte of a Go `[]byte`. */
  type byte = Bytes.byte

  /**
   * A read-only view of cached bytes. The bytes are a value, so no caller can
   * reach into a view and change it: every member below only reads `b`.
   */
  datatype ByteView = ByteView(b: seq<byte>) {

    /**
     * Number of bytes in the view; this is what the LRU charges against its
     * budget. For a view holding a string it is the string's UTF-8 length,
     * Go's `len` of a string, not its number of characters.
     */
    function Length(): (n: nat)
      ensures String().Some? ==> n == |Utf8.Encode(String().value)|
    {
      |b|
    }

    /**
     * Go's `string(v.b)`: the string whose UTF-8 bytes are exactly `b`. A
     * Dafny string is a sequence of scalar values, so bytes that are not
     * valid UTF-8 have no such string and give `None`.
     */
    function String(): (s: Option<string>)
      ensures s.Some? ==> Utf8.Encode(s.value) == b
    {
      Utf8.DecodeThenEncode(b);
      Utf8.Decode(b)
    }

    /** A defensive copy of the bytes, as a buffer the caller may write to. */
    method ByteSlice() returns (a: array<byte>)
      ensures fresh(a)
      ensures a.Length == Length() && a[..] == b
    {
      a := CloneBytes(b);
    }
  }

  /** A new buffer of the same length holding the same bytes (`make` then `copy`). */
  method CloneBytes(src: seq<byte>) returns (c: array<byte>)
    ensures fresh(c)
    ensures c[..] == src
  {
    c := new byte[|src|];
    forall i | 0 <= i < |src| {
      c[i] := src[i];
    }
  }

  /** A string stored as its bytes reads back as the same string: `string([]byte(s)) == s`. */
  lemma BytesRoundTrip(s: string)
    ensures ByteView(Utf8.Encode(s)).String() == Some(s)
  {
    Utf8.EncodeDecode(s);
  }

  /** Bytes that read as a string are that string's bytes: `[]byte(string(b)) == b` for valid UTF-8. */
  lemma StringRoundTrip(v: ByteView)
    ensures v.String().Some? ==> ByteView(Utf8.Encode(v.String().value)) == v
  {
  }

  /** A view of ASCII bytes always reads as a string, one character per byte. */
  lemma {:induction false} AsciiString(v: ByteView)
    requires forall i :: 0 <= i < |v.b| ==> v.b[i] < 0x80
    ensures v.String() == Some(seq(|v.b|, i requires 0 <= i < |v.b| => v.b[i] as int as char))
  {
    var s := seq(|v.b|, i requires 0 <= i < |v.b| => v.b[i] as int as char);
    Utf8.EncodeAscii(s);
    assert Utf8.Encode(s) == v.b;
    Utf8.EncodeDecode(s);
  }
}
