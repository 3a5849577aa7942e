/** The comma-separated text records: the life graph (`offset|life`) and the
    decompressed input frames (`w|x|y|z`), and the point sequence `read_file`
    builds from the frames. */
module Records {
  import opened Wrappers
  import opened Bytes

  /** Why a decode stops (each is a Python exception in the source). */
  datatype Error =
    | Truncated              // struct.unpack on a short read (struct.error)
    | UnsupportedMode(name: string) // the mode assertion, naming the mode
    | UnknownMode(mode: nat) // a mode byte past the mode table (IndexError in the assertion message)
    | MissingLifeGraph       // the life-graph string came back as None (AttributeError on .split)
    | WrongFieldCount        // a record does not split into the expected fields (ValueError)
    | BadNumber              // int() or float() rejects a field (ValueError)
    | DecompressionFailure   // lzma.decompress rejects the payload

  /** The calls into Python's standard library that the model does not
      implement: LZMA decompression and the `int`/`float` text conversions. */
  datatype Env = Env(
    decompress: seq<byte> -> Option<seq<byte>>,
    toInt: seq<byte> -> Option<int>,
    toFloat: seq<byte> -> Option<real>)

  const Comma: byte := 0x2C
  const Bar: byte := 0x7C

  datatype LifeEvent = LifeEvent(offset: int, life: real)

  /** One input frame: time delta `w`, cursor `x`, `y` and button bits `z`. */
  datatype Frame = Frame(w: int, x: real, y: real, z: int)

  /** `ReplayPoint(t, x, y, z)`: a frame placed at absolute time `t`. */
  datatype ReplayPoint = ReplayPoint(t: int, x: real, y: real, z: int)

  /** The records of a comma-separated text: its non-empty pieces. */
  function Pieces(text: seq<byte>): seq<seq<byte>>
  {
    NonEmpty(Split(text, Comma))
  }

  /** `u, v = rec.split("|")` and `(int(u), float(v))`. */
  function ParseLifeEvent(env: Env, rec: seq<byte>): (r: Result<LifeEvent, Error>)
    ensures r == Failure(WrongFieldCount) <==> |Split(rec, Bar)| != 2
    ensures r.Success? <==>
      var f := Split(rec, Bar);
      |f| == 2 && env.toInt(f[0]).Some? && env.toFloat(f[1]).Some?
    ensures r.Success? ==>
      var f := Split(rec, Bar);
      env.toInt(f[0]) == Some(r.value.offset) && env.toFloat(f[1]) == Some(r.value.life)
  {
    var fields := Split(rec, Bar);
    if |fields| != 2 then Failure(WrongFieldCount)
    else match (env.toInt(fields[0]), env.toFloat(fields[1]))
      case (Some(u), Some(v)) => Success(LifeEvent(u, v))
      case _ => Failure(BadNumber)
  }

  /** `w, x, y, z = rec.split("|")` and `int(w), float(x), float(y), int(z)`. */
  function ParseFrame(env: Env, rec: seq<byte>): (r: Result<Frame, Error>)
    ensures r == Failure(WrongFieldCount) <==> |Split(rec, Bar)| != 4
    ensures r.Success? <==>
      var f := Split(rec, Bar);
      && |f| == 4 && env.toInt(f[0]).Some? && env.toFloat(f[1]).Some?
      && env.toFloat(f[2]).Some? && env.toInt(f[3]).Some?
    ensures r.Success? ==>
      var f := Split(rec, Bar);
      && env.toInt(f[0]) == Some(r.value.w) && env.toFloat(f[1]) == Some(r.value.x)
      && env.toFloat(f[2]) == Some(r.value.y) && env.toInt(f[3]) == Some(r.value.z)
  {
    var fields := Split(rec, Bar);
    if |fields| != 4 then Failure(WrongFieldCount)
    else match (env.toInt(fields[0]), env.toFloat(fields[1]), env.toFloat(fields[2]), env.toInt(fields[3]))
      case (Some(w), Some(x), Some(y), Some(z)) => Success(Frame(w, x, y, z))
      case _ => Failure(BadNumber)
  }

  /** Parsing records one after another: the first failing record's error,
      or every record's value in order. */
  function ParseEach<T>(recs: seq<seq<byte>>, parse: seq<byte> -> Result<T, Error>): (r: Result<seq<T>, Error>)
    ensures r.Success? ==> |r.value| == |recs|
  {
    if recs == [] then Success([])
    else match ParseEach(recs[..|recs| - 1], parse)
      case Failure(e) => Failure(e)
      case Success(vs) =>
        match parse(recs[|recs| - 1])
        case Failure(e) => Failure(e)
        case Success(v) => Success(vs + [v])
  }

  /** Parsing succeeds exactly when every record parses, yields the records'
      values in input order, and otherwise reports the first failing record. */
  lemma {:induction false} ParseEachSpec<T>(recs: seq<seq<byte>>, parse: seq<byte> -> Result<T, Error>)
    ensures ParseEach(recs, parse).Success? <==> forall i :: 0 <= i < |recs| ==> parse(recs[i]).Success?
    ensures ParseEach(recs, parse).Success? ==>
      forall i :: 0 <= i < |recs| ==> ParseEach(recs, parse).value[i] == parse(recs[i]).value
    ensures ParseEach(recs, parse).Failure? ==>
      exists k :: 0 <= k < |recs| && parse(recs[k]).Failure?
        && (forall i :: 0 <= i < k ==> parse(recs[i]).Success?)
        && ParseEach(recs, parse).error == parse(recs[k]).error
  {
    if recs != [] {
      var init := recs[..|recs| - 1];
      ParseEachSpec(init, parse);
      assert forall i :: 0 <= i < |init| ==> init[i] == recs[i];
      if ParseEach(init, parse).Failure? {
        var k :| 0 <= k < |init| && parse(init[k]).Failure?
          && (forall i :: 0 <= i < k ==> parse(init[i]).Success?)
          && ParseEach(init, parse).error == parse(init[k]).error;
        assert recs[k] == init[k];
      } else if parse(recs[|recs| - 1]).Failure? {
        assert parse(recs[|recs| - 1]).Failure?;
      }
    }
  }

  lemma ParseEachSnoc<T>(recs: seq<seq<byte>>, rec: seq<byte>, parse: seq<byte> -> Result<T, Error>)
    ensures ParseEach(recs, parse).Failure? ==> ParseEach(recs + [rec], parse) == ParseEach(recs, parse)
    ensures ParseEach(recs, parse).Success? && parse(rec).Failure? ==>
      ParseEach(recs + [rec], parse) == Failure(parse(rec).error)
    ensures ParseEach(recs, parse).Success? && parse(rec).Success? ==>
      ParseEach(recs + [rec], parse) == Success(ParseEach(recs, parse).value + [parse(rec).value])
  {
    assert (recs + [rec])[..|recs|] == recs;
  }

  /** The three steps of a loop over the comma pieces that parses the
      non-empty ones. An empty piece changes nothing. */
  lemma ParseSkip<T>(pieces: seq<seq<byte>>, i: nat, vs: seq<T>, parse: seq<byte> -> Result<T, Error>)
    requires i < |pieces| && ParseEach(NonEmpty(pieces[..i]), parse) == Success(vs)
    requires pieces[i] == []
    ensures ParseEach(NonEmpty(pieces[..i + 1]), parse) == Success(vs)
  {
    NonEmptyStep(pieces, i);
  }

  /** A piece that parses extends the values. */
  lemma ParseNext<T>(pieces: seq<seq<byte>>, i: nat, vs: seq<T>, parse: seq<byte> -> Result<T, Error>, v: T)
    requires i < |pieces| && ParseEach(NonEmpty(pieces[..i]), parse) == Success(vs)
    requires pieces[i] != [] && parse(pieces[i]) == Success(v)
    ensures ParseEach(NonEmpty(pieces[..i + 1]), parse) == Success(vs + [v])
  {
    NonEmptyStep(pieces, i);
    ParseEachSnoc(NonEmpty(pieces[..i]), pieces[i], parse);
  }

  /** A piece that fails to parse is the failure of the whole text. */
  lemma ParseStop<T>(pieces: seq<seq<byte>>, i: nat, vs: seq<T>, parse: seq<byte> -> Result<T, Error>, e: Error)
    requires i < |pieces| && ParseEach(NonEmpty(pieces[..i]), parse) == Success(vs)
    requires pieces[i] != [] && parse(pieces[i]) == Failure(e)
    ensures ParseEach(NonEmpty(pieces), parse) == Failure(e)
  {
    NonEmptyStep(pieces, i);
    ParseEachSnoc(NonEmpty(pieces[..i]), pieces[i], parse);
    NonEmptySplitAt(pieces, i);
    ParseEachFailurePersists(NonEmpty(pieces[..i + 1]), NonEmpty(pieces[i + 1..]), parse);
  }

  /** A failure in some records is the failure of any longer run of records
      that starts with them. */
  lemma {:induction false} ParseEachFailurePersists<T>(a: seq<seq<byte>>, b: seq<seq<byte>>, parse: seq<byte> -> Result<T, Error>)
    requires ParseEach(a, parse).Failure?
    ensures ParseEach(a + b, parse) == ParseEach(a, parse)
    decreases |b|
  {
    if b != [] {
      var bInit := b[..|b| - 1];
      assert a + b == (a + bInit) + [b[|b| - 1]];
      ParseEachFailurePersists(a, bInit, parse);
      ParseEachSnoc(a + bInit, b[|b| - 1], parse);
    } else {
      assert a + b == a;
    }
  }

  /** The sum of the time deltas. */
  function SumW(frames: seq<Frame>): int
  {
    if frames == [] then 0 else SumW(frames[..|frames| - 1]) + frames[|frames| - 1].w
  }

  /** The HardRock transform on the vertical coordinate. */
  function Mirror(y: real, flip: bool): (r: real)
    ensures flip ==> r + y == 384.0 && (0.0 <= y <= 384.0 <==> 0.0 <= r <= 384.0)
    ensures !flip ==> r == y
  {
    if flip then 384.0 - y else y
  }

  /** The points `read_file` appends: one per frame, the last at the sum of
      all deltas, with the frame's cursor and buttons and `y` mirrored when
      `flip` holds. */
  function Timeline(frames: seq<Frame>, flip: bool): (points: seq<ReplayPoint>)
    ensures |points| == |frames|
  {
    if frames == [] then []
    else
      var last := frames[|frames| - 1];
      Timeline(frames[..|frames| - 1], flip) + [ReplayPoint(SumW(frames), last.x, Mirror(last.y, flip), last.z)]
  }

  /** One more frame adds one point, at the previous total plus its delta. */
  lemma TimelineSnoc(frames: seq<Frame>, f: Frame, flip: bool)
    ensures SumW(frames + [f]) == SumW(frames) + f.w
    ensures Timeline(frames + [f], flip) ==
      Timeline(frames, flip) + [ReplayPoint(SumW(frames) + f.w, f.x, Mirror(f.y, flip), f.z)]
  {
    assert (frames + [f])[..|frames|] == frames;
  }

  /** Point `i` carries frame `i`'s cursor and buttons at the running time
      `w_0 + ... + w_i`. */
  lemma {:induction false} TimelineAt(frames: seq<Frame>, flip: bool, i: nat)
    requires i < |frames|
    ensures Timeline(frames, flip)[i] ==
      ReplayPoint(SumW(frames[..i + 1]), frames[i].x, Mirror(frames[i].y, flip), frames[i].z)
    decreases |frames|
  {
    var init := frames[..|frames| - 1];
    if i == |frames| - 1 {
      assert frames[..i + 1] == frames;
    } else {
      TimelineAt(init, flip, i);
      assert init[..i + 1] == frames[..i + 1];
    }
  }

  /** The times are the prefix sums of the deltas: the first point is at its
      own delta, each later one is its predecessor's time plus its delta, and
      the cursor x and the buttons are carried unchanged. */
  lemma TimelinePrefixSums(frames: seq<Frame>, flip: bool)
    ensures var pts := Timeline(frames, flip);
      && (|frames| > 0 ==> pts[0].t == frames[0].w)
      && (forall i :: 0 < i < |frames| ==> pts[i].t == pts[i - 1].t + frames[i].w)
      && (forall i :: 0 <= i < |frames| ==> pts[i].x == frames[i].x && pts[i].z == frames[i].z)
  {
    var pts := Timeline(frames, flip);
    if |frames| > 0 {
      TimelineAt(frames, flip, 0);
      assert frames[..1][..0] == [];
      assert SumW(frames[..1]) == frames[0].w;
    }
    forall i | 0 < i < |frames| ensures pts[i].t == pts[i - 1].t + frames[i].w {
      TimelineAt(frames, flip, i);
      TimelineAt(frames, flip, i - 1);
      assert frames[..i + 1][..i] == frames[..i];
    }
    forall i | 0 <= i < |frames| ensures pts[i].x == frames[i].x && pts[i].z == frames[i].z {
      TimelineAt(frames, flip, i);
    }
  }

  /** Mirroring is the only difference the flag makes: unmirrored points keep
      the frames' `y`, and a mirrored point's `y` and the unmirrored one's add
      up to 384. */
  lemma TimelineMirror(frames: seq<Frame>)
    ensures var plain, flipped := Timeline(frames, false), Timeline(frames, true);
      forall i :: 0 <= i < |frames| ==>
        && plain[i].y == frames[i].y
        && flipped[i].y + plain[i].y == 384.0
        && flipped[i].(y := plain[i].y) == plain[i]
  {
    forall i | 0 <= i < |frames|
      ensures Timeline(frames, false)[i].y == frames[i].y
      ensures Timeline(frames, true)[i] == Timeline(frames, false)[i].(y := 384.0 - frames[i].y)
    {
      TimelineAt(frames, false, i);
      TimelineAt(frames, true, i);
    }
  }
}
