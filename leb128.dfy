/** Unsigned LEB128 integers (section 7.6 of the DWARF 4 standard), as
    `parse_uleb128` reads them: seven value bits per byte, least significant
    group first, the high bit marking that another byte follows. */
module Leb128 {
  import opened Wrappers
  import opened Bits
  import opened Bytes
  import opened Stream

  /** The value of a byte string as `parse_uleb128` accumulates it: byte `i`
      contributes its low seven bits shifted left by `7 * i`. */
  function Accumulated(bs: seq<byte>): nat
  {
    if bs == [] then 0
    else Accumulated(bs[..|bs| - 1]) + (bs[|bs| - 1] % 0x80) * Pow2(7 * (|bs| - 1))
  }

  /** The integer at the front of `s` and the number of bytes it takes, or
      `None` when the input ends before a byte with a clear high bit. */
  function Uleb128(s: seq<byte>): (r: Option<Decoded<nat>>)
    ensures r.Some? ==> 1 <= r.value.consumed <= |s|
  {
    if s == [] then None
    else if s[0] < 0x80 then Some(Decoded(s[0], 1))
    else match Uleb128(s[1..])
      case None => None
      case Some(d) => Some(Decoded(s[0] % 0x80 + 0x80 * d.value, d.consumed + 1))
  }

  /** The shortest encoding of `n`. */
  function EncodeUleb128(n: nat): (s: seq<byte>)
    ensures |s| >= 1
  {
    if n < 0x80 then [n] else [n % 0x80 + 0x80] + EncodeUleb128(n / 0x80)
  }

  /** The accumulated value of `n` bytes fits in `7 * n` bits. */
  lemma {:induction false} AccumulatedBound(bs: seq<byte>)
    ensures Accumulated(bs) < Pow2(7 * |bs|)
    decreases |bs|
  {
    if bs != [] {
      var k := 7 * (|bs| - 1);
      var init, c := bs[..|bs| - 1], bs[|bs| - 1] % 0x80;
      AccumulatedBound(init);
      Pow2Add(k, 7);
      var p := Pow2(k);
      assert Pow2(7) == 0x80;
      assert Pow2(7 * |bs|) == 0x80 * p;
      MulMonotone(c, 0x7F, p);
      assert Accumulated(bs) == Accumulated(init) + c * p;
    }
  }

  lemma MulMonotone(a: nat, b: nat, p: nat)
    requires a <= b
    ensures a * p <= b * p
  {
  }

  lemma AccumulatedSnoc(bs: seq<byte>, b: byte)
    ensures Accumulated(bs + [b]) == Accumulated(bs) + (b % 0x80) * Pow2(7 * |bs|)
  {
    assert (bs + [b])[..|bs|] == bs;
  }

  /** Accumulating `[b] + bs` is the low group of `b` plus 128 times the
      value of `bs`: the accumulating loop and the recursive reading agree. */
  lemma {:induction false} AccumulatedCons(b: byte, bs: seq<byte>)
    ensures Accumulated([b] + bs) == b % 0x80 + 0x80 * Accumulated(bs)
    decreases |bs|
  {
    if bs == [] {
      assert ([b] + bs)[..0] == [];
    } else {
      var init := bs[..|bs| - 1];
      var last := bs[|bs| - 1];
      assert ([b] + bs)[..|bs|] == [b] + init;
      AccumulatedCons(b, init);
      Pow2Add(7, 7 * (|bs| - 1));
      assert Pow2(7) == 0x80;
      calc {
        Accumulated([b] + bs);
        Accumulated([b] + init) + (last % 0x80) * Pow2(7 * |bs|);
        b % 0x80 + 0x80 * Accumulated(init) + (last % 0x80) * (0x80 * Pow2(7 * (|bs| - 1)));
        b % 0x80 + 0x80 * (Accumulated(init) + (last % 0x80) * Pow2(7 * (|bs| - 1)));
      }
    }
  }

  /** There is no value exactly when every byte has its high bit set. */
  lemma {:induction false} Uleb128Fails(s: seq<byte>)
    ensures Uleb128(s).None? <==> forall i :: 0 <= i < |s| ==> s[i] >= 0x80
  {
    if s != [] && s[0] >= 0x80 {
      var tail := s[1..];
      Uleb128Fails(tail);
      if forall i :: 0 <= i < |tail| ==> tail[i] >= 0x80 {
        forall i | 0 <= i < |s| ensures s[i] >= 0x80 {
          if i > 0 { assert s[i] == tail[i - 1]; }
        }
      }
      if forall i :: 0 <= i < |s| ==> s[i] >= 0x80 {
        forall i | 0 <= i < |tail| ensures tail[i] >= 0x80 {
          assert tail[i] == s[i + 1];
        }
      }
    }
  }

  /** The decoded value is the accumulation of the bytes up to and including
      the first one whose high bit is clear, and exactly those bytes are
      consumed. */
  lemma {:induction false} Uleb128Terminator(s: seq<byte>)
    ensures Uleb128(s).Some? ==>
      var n := Uleb128(s).value.consumed;
      && s[n - 1] < 0x80
      && (forall i :: 0 <= i < n - 1 ==> s[i] >= 0x80)
      && Uleb128(s).value.value == Accumulated(s[..n])
  {
    if s != [] {
      if s[0] < 0x80 {
        assert s[..1] == [s[0]];
        assert Accumulated(s[..1]) == Accumulated([]) + s[0] % 0x80 * Pow2(0);
      } else if Uleb128(s[1..]).Some? {
        var tail := s[1..];
        Uleb128Terminator(tail);
        var n := Uleb128(s).value.consumed;
        assert n - 1 == Uleb128(tail).value.consumed;
        assert s[n - 1] == tail[n - 2];
        assert s[..n] == [s[0]] + tail[..n - 1];
        AccumulatedCons(s[0], tail[..n - 1]);
        forall i | 0 <= i < n - 1 ensures s[i] >= 0x80 {
          if i > 0 { assert s[i] == tail[i - 1]; }
        }
      }
    }
  }

  /** Encoding then decoding returns the number and consumes exactly the
      encoding, whatever follows it. */
  lemma {:induction false} Uleb128RoundTrip(n: nat, rest: seq<byte>)
    ensures Uleb128(EncodeUleb128(n) + rest) == Some(Decoded(n, |EncodeUleb128(n)|))
    decreases n
  {
    if n >= 0x80 {
      Uleb128RoundTrip(n / 0x80, rest);
      var s := EncodeUleb128(n) + rest;
      assert s[1..] == EncodeUleb128(n / 0x80) + rest;
    }
  }

  /** The reading the loop of `parse_uleb128` performs: when the first `k`
      bytes have their high bit set and byte `k` does not, the value is the
      accumulation of the first `k + 1` bytes. */
  lemma {:induction false} Uleb128At(s: seq<byte>, k: nat)
    requires k < |s| && s[k] < 0x80
    requires forall i :: 0 <= i < k ==> s[i] >= 0x80
    ensures Uleb128(s) == Some(Decoded(Accumulated(s[..k + 1]), k + 1))
  {
    if k == 0 {
      assert s[..1] == [] + [s[0]];
    } else {
      Uleb128At(s[1..], k - 1);
      assert s[..k + 1] == [s[0]] + s[1..][..k];
      AccumulatedCons(s[0], s[1..][..k]);
    }
  }

  lemma {:induction false} Uleb128Unterminated(s: seq<byte>)
    requires forall i :: 0 <= i < |s| ==> s[i] >= 0x80
    ensures Uleb128(s) == None
  {
    if s != [] { Uleb128Unterminated(s[1..]); }
  }

  /** `parse_uleb128(f)`: reads bytes until one has a clear high bit, OR-ing
      each one's low seven bits in at the next multiple of seven. A read at
      the end of the file fails (`struct.unpack` of an empty read), having
      consumed everything. */
  method ParseUleb128(f: ByteStream) returns (r: Option<nat>)
    modifies f
    ensures match Uleb128(old(f.rest))
      case Some(d) => r == Some(d.value) && f.rest == old(f.rest)[d.consumed..]
      case None => r == None && f.rest == []
  {
    ghost var s := f.rest;
    var result: nat := 0;
    var shift: nat := 0;
    ghost var read: seq<byte> := [];
    while true
      invariant |read| <= |s| && read == s[..|read|]
      invariant f.rest == s[|read|..]
      invariant forall i :: 0 <= i < |read| ==> s[i] >= 0x80
      invariant shift == 7 * |read|
      invariant result == Accumulated(read)
      decreases |f.rest|
    {
      var chunk := f.Read(1);
      if |chunk| != 1 {
        assert read == s;
        Uleb128Unterminated(s);
        return None;
      }
      var b := chunk[0];
      assert s[..|read| + 1] == read + [b];
      var low: nat, p: nat := b % 0x80, Pow2(shift);
      MulMonotone(0, low, p);
      AccumulatedBound(read);
      OrDisjoint(result, low, shift);
      AccumulatedSnoc(read, b);
      result := Or(result, low * p);
      if b < 0x80 {
        Uleb128At(s, |read|);
        return Some(result);
      }
      shift := shift + 7;
      read := read + [b];
    }
  }
}
