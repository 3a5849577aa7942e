/** Byte strings: the fixed-width little-endian integers of Python's `struct`
    formats, `str.split` on a one-byte separator, and the ordering Python
    uses when it compares two strings. */
module Bytes {

  type byte = b: int | 0 <= b < 256

  function Pow256(w: nat): (p: nat)
    ensures p >= 1
  {
    if w == 0 then 1 else 256 * Pow256(w - 1)
  }

  /** The unsigned little-endian integer stored in `s` (`struct` codes `B`,
      `H`, `I` and `Q` under `<` read 1, 2, 4 and 8 bytes this way). */
  function LittleEndian(s: seq<byte>): (n: nat)
    ensures n < Pow256(|s|)
  {
    if s == [] then 0 else s[0] + 256 * LittleEndian(s[1..])
  }

  /** The `w` little-endian bytes of `n` modulo `256^w`. */
  function ToLittleEndian(n: nat, w: nat): (s: seq<byte>)
    ensures |s| == w
  {
    if w == 0 then [] else [n % 256] + ToLittleEndian(n / 256, w - 1)
  }

  lemma {:induction false} LittleEndianOfBytes(n: nat, w: nat)
    requires n < Pow256(w)
    ensures LittleEndian(ToLittleEndian(n, w)) == n
  {
    if w > 0 {
      assert n / 256 < Pow256(w - 1);
      LittleEndianOfBytes(n / 256, w - 1);
      assert ToLittleEndian(n, w)[1..] == ToLittleEndian(n / 256, w - 1);
    }
  }

  lemma {:induction false} BytesOfLittleEndian(s: seq<byte>)
    ensures ToLittleEndian(LittleEndian(s), |s|) == s
  {
    if s != [] {
      var n := LittleEndian(s);
      assert n % 256 == s[0] && n / 256 == LittleEndian(s[1..]);
      BytesOfLittleEndian(s[1..]);
    }
  }

  /** Python's `s.split(sep)`: the pieces between occurrences of `sep`, so
      always at least one piece, possibly empty. */
  function Split(s: seq<byte>, sep: byte): (pieces: seq<seq<byte>>)
    ensures |pieces| >= 1
    ensures forall i :: 0 <= i < |pieces| ==> sep !in pieces[i]
  {
    if s == [] then [[]]
    else
      var rest := Split(s[1..], sep);
      if s[0] == sep then [[]] + rest else [[s[0]] + rest[0]] + rest[1..]
  }

  /** Python's `sep.join(pieces)`, for bytes and for text alike. */
  function Join<T>(pieces: seq<seq<T>>, sep: T): (r: seq<T>)
    ensures |pieces| > 0 ==> pieces[0] <= r
    ensures |pieces| > 1 ==> |pieces[0]| < |r| && r[|pieces[0]|] == sep
    ensures |pieces| == 0 ==> r == []
  {
    if |pieces| == 0 then []
    else if |pieces| == 1 then pieces[0]
    else pieces[0] + [sep] + Join(pieces[1..], sep)
  }

  /** Joining the pieces back with the separator gives the original text. */
  lemma {:induction false} JoinSplit(s: seq<byte>, sep: byte)
    ensures Join(Split(s, sep), sep) == s
  {
    if s != [] {
      var rest := Split(s[1..], sep);
      JoinSplit(s[1..], sep);
      if s[0] != sep && |rest| > 1 {
        assert ([[s[0]] + rest[0]] + rest[1..])[1..] == rest[1..];
        assert Join(rest, sep) == rest[0] + [sep] + Join(rest[1..], sep);
      }
    }
  }

  lemma {:induction false} SplitWithoutSeparator(p: seq<byte>, sep: byte)
    requires sep !in p
    ensures Split(p, sep) == [p]
  {
    if p != [] {
      SplitWithoutSeparator(p[1..], sep);
      assert [p[0]] + p[1..] == p;
    }
  }

  lemma {:induction false} SplitAfterPiece(p: seq<byte>, s: seq<byte>, sep: byte)
    requires sep !in p
    ensures Split(p + [sep] + s, sep) == [p] + Split(s, sep)
  {
    if p == [] {
      assert ([] + [sep] + s)[1..] == s;
    } else {
      assert (p + [sep] + s)[1..] == p[1..] + [sep] + s;
      SplitAfterPiece(p[1..], s, sep);
      assert [p[0]] + p[1..] == p;
    }
  }

  /** Splitting the joined pieces gives the pieces back, when none of them
      holds the separator. */
  lemma {:induction false} SplitJoin(pieces: seq<seq<byte>>, sep: byte)
    requires |pieces| >= 1
    requires forall i :: 0 <= i < |pieces| ==> sep !in pieces[i]
    ensures Split(Join(pieces, sep), sep) == pieces
  {
    if |pieces| == 1 {
      SplitWithoutSeparator(pieces[0], sep);
    } else {
      SplitJoin(pieces[1..], sep);
      SplitAfterPiece(pieces[0], Join(pieces[1..], sep), sep);
      assert [pieces[0]] + pieces[1..] == pieces;
    }
  }

  /** The pieces that are not empty, in their original order (the loops'
      `if rec:` test). */
  function NonEmpty(pieces: seq<seq<byte>>): (kept: seq<seq<byte>>)
    ensures |kept| <= |pieces|
    ensures forall i :: 0 <= i < |kept| ==> kept[i] != []
  {
    if pieces == [] then []
    else
      var last := pieces[|pieces| - 1];
      NonEmpty(pieces[..|pieces| - 1]) + (if last == [] then [] else [last])
  }

  lemma {:induction false} NonEmptyAppend(a: seq<seq<byte>>, b: seq<seq<byte>>)
    ensures NonEmpty(a + b) == NonEmpty(a) + NonEmpty(b)
    decreases |b|
  {
    if b == [] {
      assert a + b == a;
    } else {
      var bInit := b[..|b| - 1];
      assert (a + b)[..|a + b| - 1] == a + bInit;
      NonEmptyAppend(a, bInit);
    }
  }

  lemma NonEmptySnoc(pieces: seq<seq<byte>>, p: seq<byte>)
    ensures NonEmpty(pieces + [p]) == NonEmpty(pieces) + (if p == [] then [] else [p])
  {
    assert (pieces + [p])[..|pieces|] == pieces;
  }

  /** Taking one more piece keeps it exactly when it is not empty. */
  lemma NonEmptyStep(pieces: seq<seq<byte>>, i: nat)
    requires i < |pieces|
    ensures pieces[i] == [] ==> NonEmpty(pieces[..i + 1]) == NonEmpty(pieces[..i])
    ensures pieces[i] != [] ==> NonEmpty(pieces[..i + 1]) == NonEmpty(pieces[..i]) + [pieces[i]]
  {
    assert pieces[..i + 1] == pieces[..i] + [pieces[i]];
    NonEmptySnoc(pieces[..i], pieces[i]);
    assert NonEmpty(pieces[..i]) + [] == NonEmpty(pieces[..i]);
  }

  /** A piece that is not empty, followed by the rest: everything from `i`
      on, filtered, starts with it. */
  lemma NonEmptySplitAt(pieces: seq<seq<byte>>, i: nat)
    requires i < |pieces|
    ensures NonEmpty(pieces) == NonEmpty(pieces[..i + 1]) + NonEmpty(pieces[i + 1..])
  {
    assert pieces == pieces[..i + 1] + pieces[i + 1..];
    NonEmptyAppend(pieces[..i + 1], pieces[i + 1..]);
  }

  /** Dropping the empty pieces keeps every other piece, in order: a
      sequence with no empty piece is left as it is. */
  lemma {:induction false} NonEmptyKeepsAll(pieces: seq<seq<byte>>)
    requires forall i :: 0 <= i < |pieces| ==> pieces[i] != []
    ensures NonEmpty(pieces) == pieces
  {
    if pieces != [] {
      NonEmptyKeepsAll(pieces[..|pieces| - 1]);
    }
  }

  /** Python's `<` on two strings: lexicographic, a proper prefix first. */
  predicate LexLess(a: seq<byte>, b: seq<byte>): (r: bool)
    ensures r ==> a != b
    ensures a < b ==> r
    ensures a != [] && b != [] && a[0] < b[0] ==> r
  {
    if a == [] then b != []
    else if b == [] then false
    else if a[0] != b[0] then a[0] < b[0]
    else LexLess(a[1..], b[1..])
  }

  lemma {:induction false} LexLessIrreflexive(a: seq<byte>)
    ensures !LexLess(a, a)
  {
    if a != [] { LexLessIrreflexive(a[1..]); }
  }

  lemma {:induction false} LexLessTransitive(a: seq<byte>, b: seq<byte>, c: seq<byte>)
    requires LexLess(a, b) && LexLess(b, c)
    ensures LexLess(a, c)
  {
    if a != [] && b != [] && c != [] && a[0] == b[0] == c[0] {
      LexLessTransitive(a[1..], b[1..], c[1..]);
    }
  }

  lemma {:induction false} LexLessTotal(a: seq<byte>, b: seq<byte>)
    requires a != b
    ensures LexLess(a, b) || LexLess(b, a)
  {
    if a != [] && b != [] && a[0] == b[0] {
      assert a == [a[0]] + a[1..] && b == [b[0]] + b[1..];
      LexLessTotal(a[1..], b[1..]);
    }
  }
}
