/** The header's length-prefixed strings, as `parse_string` reads them: a
    marker byte, then for marker 0x0B a ULEB128 length and that many bytes. */
module LengthPrefixed {
  import opened Wrappers
  import opened Bytes
  import opened Stream
  import opened Leb128

  const EmptyMarker: byte := 0x00
  const PresentMarker: byte := 0x0B

  /** The string at the front of `s`: `Some(Decoded(Some(bytes), n))` for a
      string, `Some(Decoded(None, 1))` when the marker is neither 0x00 nor 0x0B
      (the Python function then falls off its end and returns `None`), and
      `None` when the marker or the length cannot be read. A length beyond the
      end of the input yields the bytes that remain, as `f.read` does. */
  function ReadString(s: seq<byte>): (r: Option<Decoded<Option<seq<byte>>>>)
    ensures r.Some? ==> 1 <= r.value.consumed <= |s|
    ensures r.Some? && r.value.value.Some? ==>
      var d := r.value;
      |d.value.value| < d.consumed && s[d.consumed - |d.value.value| .. d.consumed] == d.value.value
  {
    if s == [] then None
    else if s[0] == EmptyMarker then Some(Decoded(Some([]), 1))
    else if s[0] == PresentMarker then
      match Uleb128(s[1..])
      case None => None
      case Some(len) =>
        var bytes := Take(s[1 + len.consumed..], len.value);
        Some(Decoded(Some(bytes), 1 + len.consumed + |bytes|))
    else Some(Decoded(None, 1))
  }

  /** How each marker byte is read: 0x00 gives the empty string and consumes
      only itself, 0x0B consumes the marker, the length and then `length`
      bytes (or what remains of the input, if less), and any other marker
      returns no string after consuming only itself. */
  lemma StringByMarker(s: seq<byte>)
    requires s != []
    ensures s[0] == EmptyMarker ==> ReadString(s) == Some(Decoded(Some([]), 1))
    ensures s[0] != EmptyMarker && s[0] != PresentMarker ==> ReadString(s) == Some(Decoded(None, 1))
    ensures s[0] == PresentMarker ==>
      match Uleb128(s[1..])
      case None => ReadString(s).None?
      case Some(len) =>
        var start := 1 + len.consumed;
        if start + len.value <= |s| then
          ReadString(s) == Some(Decoded(Some(s[start..start + len.value]), start + len.value))
        else
          ReadString(s) == Some(Decoded(Some(s[start..]), |s|))
  {
    if s[0] == PresentMarker && Uleb128(s[1..]).Some? {
      var len := Uleb128(s[1..]).value;
      var start := 1 + len.consumed;
      if start + len.value > |s| {
        assert Take(s[start..], len.value) == s[start..];
      }
    }
  }

  /** A string field as a writer would produce it; a missing string is
      written with marker 0x01, one of the markers that read back as none. */
  function EncodeString(x: Option<seq<byte>>): seq<byte>
  {
    match x
    case None => [0x01]
    case Some(bytes) => [PresentMarker] + EncodeUleb128(|bytes|) + bytes
  }

  /** Encoding then reading gives the field back and consumes exactly its
      encoding, whatever follows. */
  lemma StringRoundTrip(x: Option<seq<byte>>, rest: seq<byte>)
    ensures ReadString(EncodeString(x) + rest) == Some(Decoded(x, |EncodeString(x)|))
  {
    if x.Some? {
      var bytes := x.value;
      var len := EncodeUleb128(|bytes|);
      var s := EncodeString(x) + rest;
      assert s == [PresentMarker] + (len + (bytes + rest));
      assert s[1..] == len + (bytes + rest);
      Uleb128RoundTrip(|bytes|, bytes + rest);
      var tail := s[1 + |len|..];
      assert tail == bytes + rest;
      assert Take(tail, |bytes|) == bytes;
    }
  }

  /** `parse_string(f)`. */
  method ParseString(f: ByteStream) returns (r: Option<Option<seq<byte>>>)
    modifies f
    ensures match ReadString(old(f.rest))
      case Some(d) => r == Some(d.value) && f.rest == old(f.rest)[d.consumed..]
      case None => r == None
  {
    ghost var s := f.rest;
    var head := f.Read(1);
    if |head| != 1 {
      return None;
    }
    if head[0] == EmptyMarker {
      return Some(Some([]));
    } else if head[0] == PresentMarker {
      var length := ParseUleb128(f);
      if length.None? {
        return None;
      }
      var bytes := f.Read(length.value);
      return Some(Some(bytes));
    }
    return Some(None);
  }
}
