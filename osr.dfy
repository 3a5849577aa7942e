/** The replay decoder of `osr.py`: the header, the life graph and the input
    frames of a replay file, the button decoding, and the `Replay` object the
    viewers index and rank. */
module Osr {
  import opened Wrappers
  import opened Bits
  import opened Bytes
  import opened Stream
  import opened LengthPrefixed
  import opened Records

  const Modes: seq<string> := ["osu!", "Taiko", "Catch the Beat", "osu!mania"]

  /** The HardRock mod bit. */
  const HardRock: nat := 16

  /** The five flags `keys(z)` yields, in order. */
  datatype Buttons = Buttons(k1: bool, k2: bool, m1: bool, m2: bool, smoke: bool)

  /** `keys(z)`: a key alias is tested first, and a mouse button counts only
      when its key alias does not. */
  function Keys(z: int): (b: Buttons)
    ensures !(b.k1 && b.m1) && !(b.k2 && b.m2)
  {
    var k1 := And(z, 5) == 5;
    var k2 := And(z, 10) == 10;
    Buttons(k1, k2, !k1 && And(z, 1) == 1, !k2 && And(z, 2) == 2, And(z, 16) == 16)
  }

  lemma MaskFive(z: int)
    ensures And(z, 5) == 5 <==> Bit(z, 0) && Bit(z, 2)
  {
    assert And(z, 5) == 2 * And(z / 2, 2) + (if z % 2 == 1 then 1 else 0);
    assert And(z / 2, 2) == 2 * And(z / 2 / 2, 1);
    assert And(z / 2 / 2, 1) == (if z / 2 / 2 % 2 == 1 then 1 else 0);
    assert Bit(z, 2) == Bit(z / 2 / 2, 0);
  }

  lemma MaskTen(z: int)
    ensures And(z, 10) == 10 <==> Bit(z, 1) && Bit(z, 3)
  {
    assert And(z, 10) == 2 * And(z / 2, 5);
    MaskFive(z / 2);
    assert Bit(z, 1) == Bit(z / 2, 0) && Bit(z, 3) == Bit(z / 2, 2);
  }

  /** Which bits of `z` set each flag: key 1 needs bits 0 and 2, key 2 bits
      1 and 3, a mouse button its own bit without its key alias, smoke bit 4;
      so a key and its mouse button are never both reported. */
  lemma KeysByBit(z: int)
    ensures Keys(z).k1 <==> Bit(z, 0) && Bit(z, 2)
    ensures Keys(z).k2 <==> Bit(z, 1) && Bit(z, 3)
    ensures Keys(z).m1 <==> !Keys(z).k1 && Bit(z, 0)
    ensures Keys(z).m2 <==> !Keys(z).k2 && Bit(z, 1)
    ensures Keys(z).smoke <==> Bit(z, 4)
    ensures !(Keys(z).k1 && Keys(z).m1) && !(Keys(z).k2 && Keys(z).m2)
  {
    MaskFive(z);
    MaskTen(z);
    AndPow2(z, 0);
    assert Pow2(1) == 2;
    AndPow2(z, 1);
    assert Pow2(4) == 16;
    AndPow2(z, 4);
  }

  /** `each_bit(n, count)`: `n & (1 << x)` for each `x` below `count`. */
  function EachBit(n: int, count: nat): (masks: seq<nat>)
    ensures |masks| == count
  {
    seq(count, x requires 0 <= x < count => And(n, Pow2(x)))
  }

  /** Element `x` of `each_bit` is `2^x` when bit `x` is set and 0 otherwise. */
  lemma EachBitValues(n: int, count: nat)
    ensures forall x :: 0 <= x < count ==> EachBit(n, count)[x] == if Bit(n, x) then Pow2(x) else 0
  {
    forall x | 0 <= x < count ensures EachBit(n, count)[x] == if Bit(n, x) then Pow2(x) else 0 {
      AndPow2(n, x);
    }
  }

  /** The 23-byte block `<HHHHHHIH?I`. */
  datatype Counts = Counts(
    n300: nat, n100: nat, n50: nat, ngeki: nat, nkatu: nat, nmiss: nat,
    score: nat, combo: nat, perfect: bool, mods: nat)

  datatype ReplayHeader = ReplayHeader(
    mode: nat, version: nat,
    beatmapHash: Option<seq<byte>>, player: Option<seq<byte>>, replayHash: Option<seq<byte>>,
    counts: Counts, lifeEvents: seq<LifeEvent>, timestamp: nat, length: nat)

  /** A value read from the front of the input and the input left after it. */
  datatype Read<T> = Read(value: T, rest: seq<byte>)

  /** `struct.unpack(fmt, f.read(n))`: exactly `n` bytes, or a failure. */
  function FixedBlock(s: seq<byte>, n: nat): (r: Result<Read<seq<byte>>, Error>)
    ensures r.Success? <==> n <= |s|
    ensures r.Success? ==> |r.value.value| == n && r.value.value + r.value.rest == s
  {
    if |s| < n then Failure(Truncated) else Success(Read(s[..n], s[n..]))
  }

  /** `parse_string(f)` as a step of the header: it fails exactly when the
      string cannot be read, and takes at least its marker byte. */
  function StringField(s: seq<byte>): (r: Result<Read<Option<seq<byte>>>, Error>)
    ensures r.Success? <==> ReadString(s).Some?
    ensures r.Failure? ==> r.error == Truncated
    ensures r.Success? ==> |r.value.rest| < |s| && Suffix(r.value.rest, s)
  {
    match ReadString(s)
    case None => Failure(Truncated)
    case Some(d) => Success(Read(d.value, s[d.consumed..]))
  }

  /** `<HHHHHHIH?I` on 23 bytes: six 16-bit counts, the 32-bit score, the
      16-bit combo, the perfect flag (any non-zero byte) and the 32-bit mods. */
  function UnpackCounts(b: seq<byte>): (c: Counts)
    requires |b| == 23
    ensures c.n300 < 0x1_0000 && c.n100 < 0x1_0000 && c.n50 < 0x1_0000
    ensures c.ngeki < 0x1_0000 && c.nkatu < 0x1_0000 && c.nmiss < 0x1_0000
    ensures c.score < 0x1_0000_0000 && c.combo < 0x1_0000 && c.mods < 0x1_0000_0000
    ensures c.perfect <==> b[18] != 0
  {
    assert Pow256(2) == 0x1_0000;
    assert Pow256(4) == 0x1_0000 * Pow256(2);
    Counts(LittleEndian(b[0..2]), LittleEndian(b[2..4]), LittleEndian(b[4..6]),
           LittleEndian(b[6..8]), LittleEndian(b[8..10]), LittleEndian(b[10..12]),
           LittleEndian(b[12..16]), LittleEndian(b[16..18]), b[18] != 0,
           LittleEndian(b[19..23]))
  }

  function LifeParser(env: Env): seq<byte> -> Result<LifeEvent, Error>
  {
    rec => ParseLifeEvent(env, rec)
  }

  function FrameParser(env: Env): seq<byte> -> Result<Frame, Error>
  {
    rec => ParseFrame(env, rec)
  }

  /** The life-graph string; a missing one cannot be split. */
  function LifeText(field: Option<seq<byte>>): Result<seq<byte>, Error>
  {
    match field
    case None => Failure(MissingLifeGraph)
    case Some(text) => Success(text)
  }

  /** The error of the mode assertion: its message names the mode, and
      building it on a mode past the table raises IndexError first. */
  function ModeError(mode: nat): (e: Error)
    ensures e.UnsupportedMode? <==> mode < |Modes|
    ensures mode < |Modes| ==> e.name == Modes[mode]
    ensures mode >= |Modes| ==> e == UnknownMode(mode)
  {
    if mode < |Modes| then UnsupportedMode(Modes[mode]) else UnknownMode(mode)
  }

  /** The first fields of the header: mode, version and the three strings. */
  datatype Identity = Identity(
    mode: nat, version: nat,
    beatmapHash: Option<seq<byte>>, player: Option<seq<byte>>, replayHash: Option<seq<byte>>)

  /** The three `parse_string` calls: beatmap hash, player, replay hash;
      only a short read stops them. */
  function ReadNames(s: seq<byte>): (r: Result<Read<(Option<seq<byte>>, Option<seq<byte>>, Option<seq<byte>>)>, Error>)
    ensures r.Failure? ==> r.error == Truncated
    ensures r.Success? ==> |r.value.rest| + 3 <= |s|
  {
    var beatmapHash :- StringField(s);
    var player :- StringField(beatmapHash.rest);
    var replayHash :- StringField(player.rest);
    Success(Read((beatmapHash.value, player.value, replayHash.value), replayHash.rest))
  }

  /** `<BI`, the mode check, then the three strings: a decoded identity is
      always of mode 0, and a failure is a short read or the mode byte. */
  function ReadIdentity(s: seq<byte>): (r: Result<Read<Identity>, Error>)
    ensures r.Success? ==> r.value.value.mode == 0 && |r.value.rest| + 8 <= |s|
    ensures r.Failure? ==> r.error == Truncated || (|s| >= 5 && s[0] != 0 && r.error == ModeError(s[0]))
  {
    var first :- FixedBlock(s, 5);
    var mode := first.value[0];
    if mode != 0 then Failure(ModeError(mode)) else
    var names :- ReadNames(first.rest);
    Success(Read(Identity(mode, LittleEndian(first.value[1..5]),
                          names.value.0, names.value.1, names.value.2),
                 names.rest))
  }

  /** The 23-byte block of counts, score, combo, perfect flag and mods. */
  function ReadCounts(s: seq<byte>): (r: Result<Read<Counts>, Error>)
    ensures r.Success? <==> |s| >= 23
    ensures r.Failure? ==> r.error == Truncated
    ensures r.Success? ==> |r.value.rest| + 23 == |s|
  {
    var block :- FixedBlock(s, 23);
    Success(Read(UnpackCounts(block.value), block.rest))
  }

  /** The life-graph string and the events of its non-empty records; a
      string that is absent fails with `MissingLifeGraph`. */
  function ReadLife(env: Env, s: seq<byte>): (r: Result<Read<seq<LifeEvent>>, Error>)
    ensures StringField(s).Success? && StringField(s).value.value.None? ==> r == Failure(MissingLifeGraph)
    ensures StringField(s).Failure? ==> r == Failure(Truncated)
    ensures StringField(s).Success? && StringField(s).value.value.Some? ==>
      var p := ParseEach(Pieces(StringField(s).value.value.value), LifeParser(env));
      && (r.Success? <==> p.Success?)
      && (p.Success? ==> r == Success(Read(p.value, StringField(s).value.rest)))
      && (p.Failure? ==> r == Failure(p.error))
    ensures r.Success? ==> |r.value.rest| < |s|
  {
    var life :- StringField(s);
    var text :- LifeText(life.value);
    var events :- ParseEach(Pieces(text), LifeParser(env));
    Success(Read(events, life.rest))
  }

  /** `<QI`: the timestamp and the payload length. */
  function ReadTimes(s: seq<byte>): (r: Result<Read<(nat, nat)>, Error>)
    ensures r.Success? <==> |s| >= 12
    ensures r.Failure? ==> r.error == Truncated
    ensures r.Success? ==> |r.value.rest| + 12 == |s|
  {
    var last :- FixedBlock(s, 12);
    Success(Read((LittleEndian(last.value[..8]), LittleEndian(last.value[8..])), last.rest))
  }

  /** The header part of `Replay.read_file`, up to the payload length: a
      decoded header is of mode 0 and takes at least 44 bytes (5 of `<BI`,
      three string markers, 23 of counts, a life-graph marker and 12 of
      `<QI`). */
  function ReadHeader(env: Env, s: seq<byte>): (r: Result<Read<ReplayHeader>, Error>)
    ensures r.Success? ==> r.value.value.mode == 0 && |r.value.rest| + 44 <= |s|
  {
    var id :- ReadIdentity(s);
    var counts :- ReadCounts(id.rest);
    var events :- ReadLife(env, counts.rest);
    var times :- ReadTimes(events.rest);
    var i := id.value;
    Success(Read(
      ReplayHeader(i.mode, i.version, i.beatmapHash, i.player, i.replayHash,
                   counts.value, events.value, times.value.0, times.value.1),
      times.rest))
  }

  /** `rest` is what is left of `s` after reading from its front. */
  predicate Suffix(rest: seq<byte>, s: seq<byte>)
  {
    |rest| <= |s| && s[|s| - |rest|..] == rest
  }

  lemma SuffixTransitive(a: seq<byte>, b: seq<byte>, c: seq<byte>)
    requires Suffix(a, b) && Suffix(b, c)
    ensures Suffix(a, c)
  {
    assert c[|c| - |a|..] == c[|c| - |b|..][|b| - |a|..];
  }

  /** The three strings take at least three bytes. */
  lemma NamesConsume(s: seq<byte>)
    ensures ReadNames(s).Success? ==> |ReadNames(s).value.rest| + 3 <= |s| && Suffix(ReadNames(s).value.rest, s)
  {
    if ReadNames(s).Success? {
      var a := StringField(s).value.rest;
      var b := StringField(a).value.rest;
      SuffixTransitive(b, a, s);
      SuffixTransitive(StringField(b).value.rest, b, s);
    }
  }

  /** The `<BI` block: five bytes, the version little-endian in the last four,
      and any mode byte other than 0 stops the decoding with that mode. */
  lemma IdentityLayout(s: seq<byte>)
    ensures |s| < 5 ==> ReadIdentity(s) == Failure(Truncated)
    ensures |s| >= 5 && s[0] != 0 ==> ReadIdentity(s) == Failure(ModeError(s[0]))
    ensures ReadIdentity(s).Success? ==>
      var id := ReadIdentity(s).value;
      && s[0] == 0 && id.value.mode == 0 && id.value.version == LittleEndian(s[1..5])
      && |id.rest| + 8 <= |s| && Suffix(id.rest, s)
  {
    if ReadIdentity(s).Success? {
      assert s[..5][1..5] == s[1..5];
      NamesConsume(s[5..]);
      SuffixTransitive(ReadNames(s[5..]).value.rest, s[5..], s);
    }
  }

  /** The parts of a header that decodes, each read where the one before it
      stopped. */
  lemma HeaderParts(env: Env, s: seq<byte>)
    requires ReadHeader(env, s).Success?
    ensures ReadIdentity(s).Success?
    ensures var a := ReadIdentity(s).value.rest;
      ReadCounts(a).Success? && ReadLife(env, ReadCounts(a).value.rest).Success?
    ensures var a := ReadIdentity(s).value.rest;
      var c := ReadLife(env, ReadCounts(a).value.rest).value.rest;
      ReadTimes(c).Success? && ReadHeader(env, s).value.rest == ReadTimes(c).value.rest
    ensures var h, id := ReadHeader(env, s).value.value, ReadIdentity(s).value;
      h.mode == id.value.mode && h.version == id.value.version
      && h.beatmapHash == id.value.beatmapHash && h.player == id.value.player
      && h.replayHash == id.value.replayHash
      && h.counts == ReadCounts(id.rest).value.value
    ensures var a := ReadIdentity(s).value.rest;
      ReadHeader(env, s).value.value.lifeEvents == ReadLife(env, ReadCounts(a).value.rest).value.value
    ensures var a := ReadIdentity(s).value.rest;
      var c := ReadLife(env, ReadCounts(a).value.rest).value.rest;
      var h := ReadHeader(env, s).value.value;
      (h.timestamp, h.length) == ReadTimes(c).value.value
  {
  }

  /** The front of the header: the `<BI` block, whose mode must be 0, then
      the three strings, then the 23 bytes of counts. */
  lemma HeaderFront(env: Env, s: seq<byte>)
    ensures |s| >= 5 && s[0] != 0 ==> ReadHeader(env, s) == Failure(ModeError(s[0]))
    ensures ReadHeader(env, s).Success? ==>
      var h, id := ReadHeader(env, s).value.value, ReadIdentity(s).value.rest;
      && h.mode == 0 && s[0] == 0 && h.version == LittleEndian(s[1..5])
      && |id| + 8 <= |s| && Suffix(id, s)
      && |id| >= 23 && h.counts == UnpackCounts(id[..23])
  {
    IdentityLayout(s);
    if ReadHeader(env, s).Success? {
      HeaderParts(env, s);
    }
  }

  /** The twelve bytes that end where `rest` begins hold `timestamp` and
      `length`, little-endian, eight bytes and four. */
  predicate TimesEndAt(s: seq<byte>, rest: seq<byte>, timestamp: nat, length: nat)
  {
    var e := |s| - |rest|;
    && Suffix(rest, s) && e >= 12
    && timestamp == LittleEndian(s[e - 12..e - 4]) && length == LittleEndian(s[e - 4..e])
  }

  /** The back of the header: the life-graph string, then the 12 bytes of
      `<QI` that end it; the payload length is the last four of them. */
  lemma HeaderBack(env: Env, s: seq<byte>)
    ensures ReadHeader(env, s).Success? ==>
      var h, rest := ReadHeader(env, s).value.value, ReadHeader(env, s).value.rest;
      TimesEndAt(s, rest, h.timestamp, h.length) && 8 + 23 + 1 + 12 <= |s| - |rest|
  {
    if ReadHeader(env, s).Success? {
      HeaderParts(env, s);
      IdentityLayout(s);
      var a := ReadIdentity(s).value.rest;
      var b := ReadCounts(a).value.rest;
      var c := ReadLife(env, b).value.rest;
      CountsLayout(a);
      LifeConsumes(env, b);
      SuffixTransitive(c, b, a);
      SuffixTransitive(c, a, s);
      var h := ReadHeader(env, s).value.value;
      TimesAtEnd(s, c, ReadHeader(env, s).value.rest, h.timestamp, h.length);
    }
  }

  /** The `<QI` block read from a suffix `c` of `s`: its two fields are the
      twelve bytes that end where the rest begins. */
  lemma TimesAtEnd(s: seq<byte>, c: seq<byte>, rest: seq<byte>, timestamp: nat, length: nat)
    requires Suffix(c, s) && ReadTimes(c) == Success(Read((timestamp, length), rest))
    ensures TimesEndAt(s, rest, timestamp, length) && |c| == |rest| + 12
  {
    TimesLayout(c);
    TailBlock(s, c);
  }

  /** The 23-byte block of counts is consumed exactly. */
  lemma CountsLayout(s: seq<byte>)
    ensures ReadCounts(s).Success? <==> |s| >= 23
    ensures ReadCounts(s).Success? ==>
      && ReadCounts(s).value.rest == s[23..] && Suffix(s[23..], s)
      && ReadCounts(s).value.value == UnpackCounts(s[..23])
  {
  }

  /** Twelve bytes at the front of a suffix `c` of `s` end at `|s| - |c| + 12`. */
  lemma TailBlock(s: seq<byte>, c: seq<byte>)
    requires Suffix(c, s) && |c| >= 12
    ensures var e := |s| - |c| + 12;
      && Suffix(c[12..], s) && s[e - 12..e - 4] == c[..8] && s[e - 4..e] == c[8..12]
  {
    var e := |s| - |c| + 12;
    assert s[e - 12..e] == c[..12];
    assert s[e - 12..e - 4] == c[..12][..8];
    assert s[e - 4..e] == c[..12][8..12];
    assert s[e..] == c[12..];
  }

  /** The life-graph string takes at least its marker byte. */
  lemma LifeConsumes(env: Env, s: seq<byte>)
    ensures ReadLife(env, s).Success? ==> |ReadLife(env, s).value.rest| < |s| && Suffix(ReadLife(env, s).value.rest, s)
  {
  }

  /** The `<QI` block: twelve bytes, eight of timestamp and four of length. */
  lemma TimesLayout(s: seq<byte>)
    ensures ReadTimes(s).Success? <==> |s| >= 12
    ensures ReadTimes(s).Success? ==>
      && ReadTimes(s).value.rest == s[12..] && Suffix(s[12..], s)
      && ReadTimes(s).value.value == (LittleEndian(s[..8]), LittleEndian(s[8..12]))
  {
    if |s| >= 12 {
      assert s[..12][..8] == s[..8] && s[..12][8..] == s[8..12];
    }
  }

  /** Whether `read_file` mirrors: `flip_hr and has_mod(16)`, that is, the
      flag and the HardRock bit, bit 4 of the mods. */
  function Flips(flipHr: bool, mods: nat): (r: bool)
    ensures r <==> flipHr && Bit(mods, 4)
  {
    AndPow2(mods, 4);
    assert Pow2(4) == 16;
    flipHr && And(mods, HardRock) == HardRock
  }

  datatype Decode = Decode(header: ReplayHeader, points: seq<ReplayPoint>)

  /** All of `Replay.read_file`: the header, then `length` bytes of payload
      decompressed, then one point per non-empty frame record. */
  function ReadReplay(env: Env, s: seq<byte>, flipHr: bool): (r: Result<Read<Decode>, Error>)
    ensures ReadHeader(env, s).Failure? ==> r == Failure(ReadHeader(env, s).error)
    ensures r.Success? ==> r.value.value.header.mode == 0 && |r.value.rest| + 44 <= |s|
    ensures r.Success? ==> r.value.value.header == ReadHeader(env, s).value.value
    ensures ReadHeader(env, s).Success? ==>
      var h := ReadHeader(env, s).value;
      env.decompress(Take(h.rest, h.value.length)).None? ==> r == Failure(DecompressionFailure)
    ensures ReadHeader(env, s).Success? ==>
      var h := ReadHeader(env, s).value;
      var payload := Take(h.rest, h.value.length);
      env.decompress(payload).Some? ==>
        var p := ParseEach(Pieces(env.decompress(payload).value), FrameParser(env));
        && (r.Success? <==> p.Success?)
        && (p.Failure? ==> r == Failure(p.error))
        && (p.Success? ==>
              r.value.value.points == Timeline(p.value, Flips(flipHr, h.value.counts.mods))
              && r.value.rest == h.rest[|payload|..])
  {
    var header :- ReadHeader(env, s);
    var h := header.value;
    var payload := Take(header.rest, h.length);
    var text :- match env.decompress(payload)
      case None => Failure(DecompressionFailure)
      case Some(text) => Success(text);
    var frames :- ParseEach(Pieces(text), FrameParser(env));
    Success(Read(Decode(h, Timeline(frames, Flips(flipHr, h.counts.mods))),
                 header.rest[|payload|..]))
  }

  /** Mirroring depends on the flag only: decoding the same bytes with and
      without `flip_hr` gives the same header and points, except that with
      the HardRock bit set each mirrored `y` is 384 minus the plain one. */
  lemma HardRockMirror(env: Env, s: seq<byte>)
    ensures ReadReplay(env, s, true).Success? <==> ReadReplay(env, s, false).Success?
    ensures ReadReplay(env, s, true).Success? ==>
      var flipped, plain := ReadReplay(env, s, true).value.value, ReadReplay(env, s, false).value.value;
      && flipped.header == plain.header
      && |flipped.points| == |plain.points|
      && forall i :: 0 <= i < |plain.points| ==>
           && flipped.points[i].(y := plain.points[i].y) == plain.points[i]
           && (if Bit(plain.header.counts.mods, 4)
               then flipped.points[i].y + plain.points[i].y == 384.0
               else flipped.points[i].y == plain.points[i].y)
  {
    if ReadReplay(env, s, true).Success? {
      var h := ReadHeader(env, s).value;
      var text := env.decompress(Take(h.rest, h.value.length)).value;
      var frames := ParseEach(Pieces(text), FrameParser(env)).value;
      TimelineMirror(frames);
    }
  }

  /** There is one point per non-empty frame record, in record order: point
      `i` carries record `i`'s cursor and buttons, `y` mirrored exactly when
      the replay flips, at the sum of the deltas of records `0..i`. */
  lemma PointsPerRecord(env: Env, s: seq<byte>, flipHr: bool)
    requires ReadReplay(env, s, flipHr).Success?
    ensures var h := ReadHeader(env, s).value;
      var text := env.decompress(Take(h.rest, h.value.length)).value;
      var recs := Pieces(text);
      var frames := ParseEach(recs, FrameParser(env)).value;
      var pts := ReadReplay(env, s, flipHr).value.value.points;
      && |pts| == |frames| == |recs|
      && forall i :: 0 <= i < |recs| ==>
           && ParseFrame(env, recs[i]) == Success(frames[i])
           && pts[i] == ReplayPoint(SumW(frames[..i + 1]), frames[i].x,
                                    Mirror(frames[i].y, Flips(flipHr, h.value.counts.mods)), frames[i].z)
  {
    var h := ReadHeader(env, s).value;
    var text := env.decompress(Take(h.rest, h.value.length)).value;
    RecordsToPoints(env, Pieces(text), Flips(flipHr, h.value.counts.mods));
  }

  /** The frame records and the points made from them, one for one. */
  lemma RecordsToPoints(env: Env, recs: seq<seq<byte>>, flip: bool)
    requires ParseEach(recs, FrameParser(env)).Success?
    ensures var frames := ParseEach(recs, FrameParser(env)).value;
      var pts := Timeline(frames, flip);
      && |pts| == |frames| == |recs|
      && forall i :: 0 <= i < |recs| ==>
           && ParseFrame(env, recs[i]) == Success(frames[i])
           && pts[i] == ReplayPoint(SumW(frames[..i + 1]), frames[i].x, Mirror(frames[i].y, flip), frames[i].z)
  {
    var frames := ParseEach(recs, FrameParser(env)).value;
    ParseEachSpec(recs, FrameParser(env));
    forall i | 0 <= i < |recs|
      ensures ParseFrame(env, recs[i]) == Success(frames[i])
      ensures Timeline(frames, flip)[i] ==
        ReplayPoint(SumW(frames[..i + 1]), frames[i].x, Mirror(frames[i].y, flip), frames[i].z)
    {
      assert FrameParser(env)(recs[i]) == ParseFrame(env, recs[i]);
      TimelineAt(frames, flip, i);
    }
  }

  /** `Replay._key()`. */
  datatype RankKey = RankKey(score: nat, negTimestamp: int, player: Option<seq<byte>>)

  /** `(score, -timestamp, player)`: a later timestamp gives a smaller second
      component. */
  function RankKeyOf(h: ReplayHeader): (k: RankKey)
    ensures k.score == h.counts.score && k.player == h.player
    ensures k.negTimestamp <= 0 && k.negTimestamp + h.timestamp == 0
  {
    RankKey(h.counts.score, -(h.timestamp as int), h.player)
  }

  /** Python's `<` on the key tuples: the first differing component decides;
      comparing a missing player with a present one raises TypeError (here
      `None`); equal keys are not less. */
  function KeyLess(a: RankKey, b: RankKey): (r: Option<bool>)
    ensures r.None? <==> a.score == b.score && a.negTimestamp == b.negTimestamp && a.player.Some? != b.player.Some?
    ensures r == Some(true) <==>
      || a.score < b.score
      || (a.score == b.score && a.negTimestamp < b.negTimestamp)
      || (a.score == b.score && a.negTimestamp == b.negTimestamp
          && a.player.Some? && b.player.Some? && LexLess(a.player.value, b.player.value))
  {
    if a.score != b.score then Some(a.score < b.score)
    else if a.negTimestamp != b.negTimestamp then Some(a.negTimestamp < b.negTimestamp)
    else match (a.player, b.player)
      case (Some(p), Some(q)) => Some(LexLess(p, q))
      case (None, None) => Some(false)
      case _ => None
  }

  /** The key order is a strict order: never less than itself, transitive,
      and of two different comparable keys exactly one is less. */
  lemma KeyLessStrictOrder(a: RankKey, b: RankKey, c: RankKey)
    ensures KeyLess(a, a) == Some(false)
    ensures KeyLess(a, b) == Some(true) && KeyLess(b, c) == Some(true) ==> KeyLess(a, c) == Some(true)
    ensures KeyLess(a, b) == Some(true) ==> KeyLess(b, a) == Some(false)
    ensures a != b && KeyLess(a, b).Some? ==> KeyLess(a, b) == Some(true) || KeyLess(b, a) == Some(true)
  {
    if a.player.Some? { LexLessIrreflexive(a.player.value); }
    if KeyLess(a, b) == Some(true) && KeyLess(b, c) == Some(true)
       && a.score == b.score == c.score && a.negTimestamp == b.negTimestamp == c.negTimestamp {
      LexLessTransitive(a.player.value, b.player.value, c.player.value);
    }
    if KeyLess(a, b) == Some(true) && a.score == b.score && a.negTimestamp == b.negTimestamp {
      if LexLess(b.player.value, a.player.value) {
        LexLessTransitive(a.player.value, b.player.value, a.player.value);
      }
    }
    if a != b && KeyLess(a, b).Some? && a.score == b.score && a.negTimestamp == b.negTimestamp {
      if a.player.Some? { LexLessTotal(a.player.value, b.player.value); }
    }
  }

  /** A decoded replay (`Replay` with its `__slots__`). */
  class Replay {
    var mode: nat
    var version: nat
    var beatmapHash: Option<seq<byte>>
    var player: Option<seq<byte>>
    var replayHash: Option<seq<byte>>
    var counts: Counts
    var lifeEvents: seq<LifeEvent>
    var timestamp: nat
    var length: nat
    var replay: seq<ReplayPoint>

    constructor ()
      ensures lifeEvents == [] && replay == []
    {
      lifeEvents, replay := [], [];
    }

    function Header(): ReplayHeader
      reads this
    {
      ReplayHeader(mode, version, beatmapHash, player, replayHash, counts, lifeEvents, timestamp, length)
    }

    /** `has_mod(mod)`: every bit of `m` is set in the mods. */
    function HasMod(m: nat): (r: bool)
      reads this
      ensures r <==> Covers(counts.mods, m)
    {
      AndIsMaskTest(counts.mods, m);
      And(counts.mods, m) == m
    }

    /** `len(replay)`: the number of points; a replay can be indexed exactly
        when it has one. */
    function Length(): (n: nat)
      reads this
      ensures n == |replay|
      ensures n > 0 <==> Get(0).Some?
    {
      |replay|
    }

    /** `replay[t]`: the point at `t`, the last point for any later `t` (the
        pose holds after the end), and IndexError (`None`) on an empty replay. */
    function Get(t: nat): (r: Option<ReplayPoint>)
      reads this
      ensures r.Some? <==> replay != []
      ensures r.Some? ==> r.value == replay[if t < |replay| then t else |replay| - 1]
      ensures t >= |replay| > 0 ==> r == Some(replay[|replay| - 1])
    {
      if t < |replay| then Some(replay[t])
      else if replay == [] then None
      else Some(replay[|replay| - 1])
    }

    function Key(): RankKey
      reads this
    {
      RankKeyOf(Header())
    }

    /** `self < other`: by score, then the later timestamp first, then by
        player name; `None` where Python raises TypeError (equal score and
        timestamp, and only one player name present). */
    function Less(other: Replay): (r: Option<bool>)
      reads this, other
      ensures r.None? <==>
        counts.score == other.counts.score && timestamp == other.timestamp && player.Some? != other.player.Some?
      ensures r == Some(true) <==>
        || counts.score < other.counts.score
        || (counts.score == other.counts.score && timestamp > other.timestamp)
        || (counts.score == other.counts.score && timestamp == other.timestamp
            && player.Some? && other.player.Some? && LexLess(player.value, other.player.value))
    {
      KeyLess(Key(), other.Key())
    }

    /** `Replay.read_file(f, flip_hr)`: the fields are those of the decoded
        header and the points those of the decoded frames; on a failure the
        error is the first one the input runs into. */
    method ReadFile(f: ByteStream, flipHr: bool, env: Env) returns (err: Option<Error>)
      modifies this, f
      ensures match ReadReplay(env, old(f.rest), flipHr)
        case Success(d) => err == None && Header() == d.value.header && replay == d.value.points
                           && f.rest == d.rest
        case Failure(e) => err == Some(e)
    {
      var d := ReadReplayFrom(f, flipHr, env);
      if d.Failure? {
        return Some(d.error);
      }
      SetFields(d.value);
      return None;
    }

    /** The attribute assignments of `read_file`, from the decoded values. */
    method SetFields(d: Decode)
      modifies this
      ensures Header() == d.header && replay == d.points
    {
      var h := d.header;
      mode, version, beatmapHash, player, replayHash := h.mode, h.version, h.beatmapHash, h.player, h.replayHash;
      counts, lifeEvents, timestamp, length := h.counts, h.lifeEvents, h.timestamp, h.length;
      replay := d.points;
    }
  }

  /** The reading `Replay.read_file` performs: the header, then `length`
      bytes of payload decompressed and turned into points. */
  method ReadReplayFrom(f: ByteStream, flipHr: bool, env: Env) returns (r: Result<Decode, Error>)
    modifies f
    ensures match ReadReplay(env, old(f.rest), flipHr)
      case Success(d) => r == Success(d.value) && f.rest == d.rest
      case Failure(e) => r == Failure(e)
  {
    var h := ReadHeaderFrom(f, env);
    if h.Failure? {
      return Failure(h.error);
    }
    var flip := Flips(flipHr, h.value.counts.mods);
    var payload := f.Read(h.value.length);
    var text := env.decompress(payload);
    if text.None? {
      return Failure(DecompressionFailure);
    }
    var points := ParsePoints(FrameParser(env), Split(text.value, Comma), flip);
    if points.Failure? {
      return Failure(points.error);
    }
    return Success(Decode(h.value, points.value));
  }

  /** The loop over the comma pieces of the decompressed payload, each
      non-empty one parsed by `parse` (the `w|x|y|z` split and conversions):
      the running time `t` advances by each record's `w`, `y` is mirrored
      when `flip` holds, and one point is appended per non-empty record. */
  method ParsePoints(parse: seq<byte> -> Result<Frame, Error>, pieces: seq<seq<byte>>, flip: bool)
    returns (r: Result<seq<ReplayPoint>, Error>)
    ensures r.Success? <==> ParseEach(NonEmpty(pieces), parse).Success?
    ensures r.Success? ==> r.value == Timeline(ParseEach(NonEmpty(pieces), parse).value, flip)
    ensures r.Failure? ==> r.error == ParseEach(NonEmpty(pieces), parse).error
  {
    var points: seq<ReplayPoint> := [];
    var t := 0;
    ghost var frames: seq<Frame> := [];
    var i := 0;
    while i < |pieces|
      invariant 0 <= i <= |pieces|
      invariant ParseEach(NonEmpty(pieces[..i]), parse) == Success(frames)
      invariant PointsSoFar(frames, points, t, flip)
    {
      var rec := pieces[i];
      if rec == [] {
        ParseSkip(pieces, i, frames, parse);
      } else {
        var fr := parse(rec);
        if fr.Failure? {
          ParseStop(pieces, i, frames, parse, fr.error);
          return Failure(fr.error);
        }
        ParseNext(pieces, i, frames, parse, fr.value);
        var f := fr.value;
        PointStep(frames, points, t, f, flip);
        t := t + f.w;
        points := points + [ReplayPoint(t, f.x, Mirror(f.y, flip), f.z)];
        frames := frames + [f];
      }
      i := i + 1;
    }
    assert pieces[..i] == pieces;
    return Success(points);
  }

  /** What the loop has built from the frames so far: their points, and the
      running time at their total delta. */
  predicate PointsSoFar(frames: seq<Frame>, points: seq<ReplayPoint>, t: int, flip: bool)
  {
    points == Timeline(frames, flip) && t == SumW(frames)
  }

  /** One record's step of the loop keeps the loop's invariant: `t += w`,
      `y` mirrored when flipping, and the point appended. */
  lemma PointStep(frames: seq<Frame>, points: seq<ReplayPoint>, t: int, f: Frame, flip: bool)
    requires PointsSoFar(frames, points, t, flip)
    ensures PointsSoFar(frames + [f],
      points + [ReplayPoint(t + f.w, f.x, Mirror(f.y, flip), f.z)], t + f.w, flip)
  {
    TimelineSnoc(frames, f, flip);
  }

  /** The header of `Replay.read_file`, read from `f` up to the payload. */
  method ReadHeaderFrom(f: ByteStream, env: Env) returns (r: Result<ReplayHeader, Error>)
    modifies f
    ensures match ReadHeader(env, old(f.rest))
      case Success(d) => r == Success(d.value) && f.rest == d.rest
      case Failure(e) => r == Failure(e)
  {
    var id := ReadIdentityFrom(f);
    if id.Failure? {
      return Failure(id.error);
    }
    var counts := ReadCountsFrom(f);
    if counts.Failure? {
      return Failure(counts.error);
    }
    var events := ReadLifeFrom(f, env);
    if events.Failure? {
      return Failure(events.error);
    }
    var times := ReadTimesFrom(f);
    if times.Failure? {
      return Failure(times.error);
    }
    var i := id.value;
    return Success(ReplayHeader(i.mode, i.version, i.beatmapHash, i.player, i.replayHash,
                                counts.value, events.value, times.value.0, times.value.1));
  }

  /** The life-graph string and the loop over its records. */
  method ReadLifeFrom(f: ByteStream, env: Env) returns (r: Result<seq<LifeEvent>, Error>)
    modifies f
    ensures match ReadLife(env, old(f.rest))
      case Success(d) => r == Success(d.value) && f.rest == d.rest
      case Failure(e) => r == Failure(e)
  {
    var life := ParseString(f);
    if life.None? {
      return Failure(Truncated);
    }
    if life.value.None? {
      return Failure(MissingLifeGraph);
    }
    r := ParseLifeEvents(env, life.value.value);
  }

  /** The loop over the life-graph records: one event per non-empty record,
      in order, or the first record's error. */
  method ParseLifeEvents(env: Env, text: seq<byte>) returns (r: Result<seq<LifeEvent>, Error>)
    ensures r == ParseEach(Pieces(text), LifeParser(env))
  {
    var pieces := Split(text, Comma);
    ghost var parse := LifeParser(env);
    var events: seq<LifeEvent> := [];
    var i := 0;
    while i < |pieces|
      invariant 0 <= i <= |pieces|
      invariant ParseEach(NonEmpty(pieces[..i]), parse) == Success(events)
    {
      var rec := pieces[i];
      if rec == [] {
        ParseSkip(pieces, i, events, parse);
      } else {
        var ev := ParseLifeEvent(env, rec);
        assert parse(rec) == ev;
        if ev.Failure? {
          ParseStop(pieces, i, events, parse, ev.error);
          return Failure(ev.error);
        }
        ParseNext(pieces, i, events, parse, ev.value);
        events := events + [ev.value];
      }
      i := i + 1;
    }
    assert pieces[..i] == pieces;
    return Success(events);
  }

  /** The life graph decodes only when every non-empty record splits on `|`
      into exactly two fields that convert; event `i` is then record `i`'s
      offset and life, in record order. */
  lemma LifeEventsInOrder(env: Env, text: seq<byte>)
    ensures var recs := Pieces(text);
      (exists i :: 0 <= i < |recs| && |Split(recs[i], Bar)| != 2) ==>
        ParseEach(recs, LifeParser(env)).Failure?
    ensures var recs, r := Pieces(text), ParseEach(Pieces(text), LifeParser(env));
      r.Success? ==>
        && |r.value| == |recs|
        && forall i :: 0 <= i < |recs| ==>
             && |Split(recs[i], Bar)| == 2
             && env.toInt(Split(recs[i], Bar)[0]) == Some(r.value[i].offset)
             && env.toFloat(Split(recs[i], Bar)[1]) == Some(r.value[i].life)
  {
    var recs := Pieces(text);
    ParseEachSpec(recs, LifeParser(env));
    forall i | 0 <= i < |recs| ensures LifeParser(env)(recs[i]) == ParseLifeEvent(env, recs[i]) { }
  }

  /** `<BI`, the mode check and the three strings, read from `f`. */
  method ReadIdentityFrom(f: ByteStream) returns (r: Result<Identity, Error>)
    modifies f
    ensures match ReadIdentity(old(f.rest))
      case Success(d) => r == Success(d.value) && f.rest == d.rest
      case Failure(e) => r == Failure(e)
  {
    var first := f.Read(5);
    if |first| != 5 {
      return Failure(Truncated);
    }
    var mode, version := first[0], LittleEndian(first[1..5]);
    if mode != 0 {
      return Failure(ModeError(mode));
    }
    var names := ReadNamesFrom(f);
    if names.Failure? {
      return Failure(names.error);
    }
    var (beatmapHash, player, replayHash) := names.value;
    return Success(Identity(mode, version, beatmapHash, player, replayHash));
  }

  /** `parse_string(f)` three times. */
  method ReadNamesFrom(f: ByteStream) returns (r: Result<(Option<seq<byte>>, Option<seq<byte>>, Option<seq<byte>>), Error>)
    modifies f
    ensures match ReadNames(old(f.rest))
      case Success(d) => r == Success(d.value) && f.rest == d.rest
      case Failure(e) => r == Failure(e)
  {
    var beatmapHash := ParseString(f);
    if beatmapHash.None? {
      return Failure(Truncated);
    }
    var player := ParseString(f);
    if player.None? {
      return Failure(Truncated);
    }
    var replayHash := ParseString(f);
    if replayHash.None? {
      return Failure(Truncated);
    }
    return Success((beatmapHash.value, player.value, replayHash.value));
  }

  /** `struct.unpack("<HHHHHHIH?I", f.read(23))`. */
  method ReadCountsFrom(f: ByteStream) returns (r: Result<Counts, Error>)
    modifies f
    ensures match ReadCounts(old(f.rest))
      case Success(d) => r == Success(d.value) && f.rest == d.rest
      case Failure(e) => r == Failure(e)
  {
    var block := f.Read(23);
    if |block| != 23 {
      return Failure(Truncated);
    }
    return Success(UnpackCounts(block));
  }

  /** `struct.unpack("<QI", f.read(12))`: the timestamp and the payload length. */
  method ReadTimesFrom(f: ByteStream) returns (r: Result<(nat, nat), Error>)
    modifies f
    ensures match ReadTimes(old(f.rest))
      case Success(d) => r == Success(d.value) && f.rest == d.rest
      case Failure(e) => r == Failure(e)
  {
    var last := f.Read(12);
    if |last| != 12 {
      return Failure(Truncated);
    }
    return Success((LittleEndian(last[..8]), LittleEndian(last[8..])));
  }

  /** `read_file(f, flip_hr)`: a fresh replay, returned only when the whole
      file decodes. */
  method ReadReplayFile(f: ByteStream, flipHr: bool, env: Env) returns (r: Result<Replay, Error>)
    modifies f
    ensures match ReadReplay(env, old(f.rest), flipHr)
      case Success(d) => r.Success? && fresh(r.value)
                         && r.value.Header() == d.value.header && r.value.replay == d.value.points
                         && f.rest == d.rest
      case Failure(e) => r == Failure(e)
  {
    var replay := new Replay();
    var err := replay.ReadFile(f, flipHr, env);
    if err.Some? {
      return Failure(err.value);
    }
    return Success(replay);
  }
}
