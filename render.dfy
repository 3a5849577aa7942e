/** The decode loop of `render_osr.py`: the same comma and pipe records as
    `Replay.read_file`, but a record with a negative time delta is dropped,
    nothing is mirrored, and each entry keeps the cursor truncated to an
    integer. */
module RenderTrack {
  import opened Wrappers
  import opened Bytes
  import opened Records
  import Osr

  /** `(t, int(x), int(y))`, an entry of the deque `out`. */
  datatype Entry = Entry(t: int, x: int, y: int)

  /** Python's `int(r)` on a finite float: truncation toward zero. */
  function Trunc(r: real): (i: int)
    ensures 0.0 <= r ==> i as real <= r < i as real + 1.0
    ensures r < 0.0 ==> i as real - 1.0 < r <= i as real
  {
    if r >= 0.0 then r.Floor else -((-r).Floor)
  }

  /** The frames the loop keeps: those with `w >= 0`, in order. */
  function Kept(frames: seq<Frame>): (kept: seq<Frame>)
    ensures |kept| <= |frames|
  {
    if frames == [] then []
    else
      var last := frames[|frames| - 1];
      Kept(frames[..|frames| - 1]) + (if last.w >= 0 then [last] else [])
  }

  /** The entries the loop appends: one per kept frame, at the running sum
      of the kept deltas. */
  function Track(frames: seq<Frame>): (out: seq<Entry>)
    ensures |out| == |Kept(frames)|
  {
    if frames == [] then []
    else
      var last := frames[|frames| - 1];
      var init := frames[..|frames| - 1];
      if last.w < 0 then Track(init)
      else Track(init) + [Entry(SumW(Kept(frames)), Trunc(last.x), Trunc(last.y))]
  }

  /** One more frame: a negative delta changes nothing, any other adds one
      entry at the previous total plus the delta. */
  lemma TrackSnoc(frames: seq<Frame>, f: Frame)
    ensures Kept(frames + [f]) == Kept(frames) + (if f.w >= 0 then [f] else [])
    ensures f.w < 0 ==> Kept(frames + [f]) == Kept(frames) && Track(frames + [f]) == Track(frames)
    ensures f.w >= 0 ==> SumW(Kept(frames + [f])) == SumW(Kept(frames)) + f.w
    ensures f.w >= 0 ==>
      Track(frames + [f]) == Track(frames) + [Entry(SumW(Kept(frames)) + f.w, Trunc(f.x), Trunc(f.y))]
  {
    assert (frames + [f])[..|frames|] == frames;
    assert Kept(frames) + [] == Kept(frames);
    if f.w >= 0 {
      assert (Kept(frames) + [f])[..|Kept(frames)|] == Kept(frames);
    }
  }

  /** The kept frames are exactly the frames with a non-negative delta. */
  lemma {:induction false} KeptSpec(frames: seq<Frame>)
    ensures forall f :: f in Kept(frames) <==> f in frames && f.w >= 0
    decreases |frames|
  {
    if frames != [] {
      var init := frames[..|frames| - 1];
      KeptSpec(init);
      assert frames == init + [frames[|frames| - 1]];
    }
  }

  /** When no delta is negative every frame is kept. */
  lemma {:induction false} KeptAll(frames: seq<Frame>)
    requires forall i :: 0 <= i < |frames| ==> frames[i].w >= 0
    ensures Kept(frames) == frames
    decreases |frames|
  {
    if frames != [] {
      var init := frames[..|frames| - 1];
      KeptAll(init);
      assert frames == init + [frames[|frames| - 1]];
    }
  }

  /** The positions of the kept frames among all frames. */
  function KeptPositions(frames: seq<Frame>): seq<nat>
  {
    if frames == [] then []
    else
      KeptPositions(frames[..|frames| - 1]) + (if frames[|frames| - 1].w >= 0 then [|frames| - 1] else [])
  }

  /** The positions are those of the frames with a non-negative delta, in
      increasing order. */
  lemma {:induction false} KeptPositionsSpec(frames: seq<Frame>)
    ensures var ps := KeptPositions(frames);
      && (forall i: nat :: i in ps <==> i < |frames| && frames[i].w >= 0)
      && (forall a, b :: 0 <= a < b < |ps| ==> ps[a] < ps[b])
    decreases |frames|
  {
    if frames != [] {
      var init := frames[..|frames| - 1];
      var last := frames[|frames| - 1];
      KeptPositionsSpec(init);
      var qs := KeptPositions(init);
      var tail: seq<nat> := if last.w >= 0 then [|init|] else [];
      assert KeptPositions(frames) == qs + tail;
      assert forall a :: 0 <= a < |qs| ==> qs[a] < |init| by {
        forall a | 0 <= a < |qs| ensures qs[a] < |init| {
          assert qs[a] in qs;
        }
      }
      forall i: nat | i < |init| ensures frames[i] == init[i] { }
    }
  }

  /** The kept frames are the frames at those positions; so there are as
      many entries as there are records with `w >= 0`. */
  lemma {:induction false} KeptAtPositions(frames: seq<Frame>)
    ensures var ps := KeptPositions(frames);
      && |ps| == |Kept(frames)|
      && (forall i: nat :: i in ps <==> i < |frames| && frames[i].w >= 0)
      && (forall a, b :: 0 <= a < b < |ps| ==> ps[a] < ps[b])
      && (forall a :: 0 <= a < |ps| ==> ps[a] < |frames| && Kept(frames)[a] == frames[ps[a]])
    decreases |frames|
  {
    KeptPositionsSpec(frames);
    if frames != [] {
      var init := frames[..|frames| - 1];
      var last := frames[|frames| - 1];
      KeptAtPositions(init);
      assert frames == init + [last];
      TrackSnoc(init, last);
      var qs := KeptPositions(init);
      var tail: seq<nat> := if last.w >= 0 then [|init|] else [];
      var ps := qs + tail;
      assert KeptPositions(frames) == ps;
      forall a | 0 <= a < |ps| ensures ps[a] < |frames| && Kept(frames)[a] == frames[ps[a]] {
        if a < |qs| {
          assert ps[a] == qs[a] && Kept(frames)[a] == Kept(init)[a];
        }
      }
    }
  }

  /** Entry `i` is kept frame `i`'s truncated cursor at the sum of the first
      `i + 1` kept deltas. */
  lemma {:induction false} TrackAt(frames: seq<Frame>, i: nat)
    requires i < |Kept(frames)|
    ensures Track(frames)[i] ==
      Entry(SumW(Kept(frames)[..i + 1]), Trunc(Kept(frames)[i].x), Trunc(Kept(frames)[i].y))
    decreases |frames|
  {
    var init := frames[..|frames| - 1];
    var last := frames[|frames| - 1];
    assert frames == init + [last];
    TrackSnoc(init, last);
    if i < |Kept(init)| {
      TrackAt(init, i);
      assert Kept(frames)[..i + 1] == Kept(init)[..i + 1];
    } else {
      assert Kept(frames)[..i + 1] == Kept(frames);
    }
  }

  /** Prefix sums of non-negative deltas never decrease and never go below
      zero. */
  lemma {:induction false} SumWMonotone(frames: seq<Frame>, i: nat, j: nat)
    requires i <= j <= |frames|
    requires forall k :: 0 <= k < |frames| ==> frames[k].w >= 0
    ensures 0 <= SumW(frames[..i]) <= SumW(frames[..j])
    decreases j
  {
    if j > 0 {
      SumWMonotone(frames, if i < j then i else j - 1, j - 1);
      assert frames[..j][..j - 1] == frames[..j - 1];
    } else {
      assert frames[..0] == [];
    }
  }

  /** The stored times are non-negative and non-decreasing. */
  lemma TrackMonotone(frames: seq<Frame>)
    ensures forall i, j :: 0 <= i <= j < |Track(frames)| ==> 0 <= Track(frames)[i].t <= Track(frames)[j].t
  {
    var kept := Kept(frames);
    KeptSpec(frames);
    assert forall k :: 0 <= k < |kept| ==> kept[k].w >= 0 by {
      forall k | 0 <= k < |kept| ensures kept[k].w >= 0 {
        assert kept[k] in kept;
      }
    }
    forall i, j | 0 <= i <= j < |Track(frames)| ensures 0 <= Track(frames)[i].t <= Track(frames)[j].t {
      TrackAt(frames, i);
      TrackAt(frames, j);
      SumWMonotone(kept, i + 1, j + 1);
    }
  }

  /** Without negative deltas the track is the unmirrored timeline of
      `Replay.read_file`, with the cursor truncated. */
  lemma TrackMatchesTimeline(frames: seq<Frame>)
    requires forall i :: 0 <= i < |frames| ==> frames[i].w >= 0
    ensures |Track(frames)| == |frames|
    ensures forall i :: 0 <= i < |frames| ==>
      Track(frames)[i] == Entry(Timeline(frames, false)[i].t, Trunc(frames[i].x), Trunc(frames[i].y))
  {
    KeptAll(frames);
    forall i | 0 <= i < |frames|
      ensures Track(frames)[i] == Entry(Timeline(frames, false)[i].t, Trunc(frames[i].x), Trunc(frames[i].y))
    {
      TrackAt(frames, i);
      TimelineAt(frames, false, i);
    }
  }

  /** The loop `for record in data.split(","):` of `render_osr.py`: each
      non-empty piece is parsed by `parse`, a record with `w >= 0` advances
      `t` and appends its entry, and the others are dropped. */
  method RenderDecode(parse: seq<byte> -> Result<Frame, Error>, pieces: seq<seq<byte>>)
    returns (r: Result<seq<Entry>, Error>)
    ensures r.Success? <==> ParseEach(NonEmpty(pieces), parse).Success?
    ensures r.Success? ==> r.value == Track(ParseEach(NonEmpty(pieces), parse).value)
    ensures r.Failure? ==> r.error == ParseEach(NonEmpty(pieces), parse).error
  {
    var out: seq<Entry> := [];
    var t := 0;
    ghost var frames: seq<Frame> := [];
    var i := 0;
    while i < |pieces|
      invariant 0 <= i <= |pieces|
      invariant ParseEach(NonEmpty(pieces[..i]), parse) == Success(frames)
      invariant TrackSoFar(frames, out, t)
    {
      var rec := pieces[i];
      if rec == [] {
        ParseSkip(pieces, i, frames, parse);
      } else {
        var fr := parse(rec);
        if fr.Failure? {
          ParseStop(pieces, i, frames, parse, fr.error);
          return Failure(fr.error);
        }
        ParseNext(pieces, i, frames, parse, fr.value);
        var f := fr.value;
        EntryStep(frames, out, t, f);
        if f.w >= 0 {
          t := t + f.w;
          out := out + [Entry(t, Trunc(f.x), Trunc(f.y))];
        }
        frames := frames + [f];
      }
      i := i + 1;
    }
    assert pieces[..i] == pieces;
    return Success(out);
  }

  /** What the loop has built from the frames so far: the entries of the
      kept ones, and the running time at their total delta. */
  predicate TrackSoFar(frames: seq<Frame>, out: seq<Entry>, t: int)
  {
    out == Track(frames) && t == SumW(Kept(frames))
  }

  /** One record's step of the loop keeps the loop's invariant: a negative
      delta changes nothing, any other advances `t` and appends the entry. */
  lemma EntryStep(frames: seq<Frame>, out: seq<Entry>, t: int, f: Frame)
    requires TrackSoFar(frames, out, t)
    ensures f.w < 0 ==> TrackSoFar(frames + [f], out, t)
    ensures f.w >= 0 ==>
      TrackSoFar(frames + [f], out + [Entry(t + f.w, Trunc(f.x), Trunc(f.y))], t + f.w)
  {
    TrackSnoc(frames, f);
    if f.w >= 0 {
      assert Track(frames + [f]) == out + [Entry(t + f.w, Trunc(f.x), Trunc(f.y))];
      assert SumW(Kept(frames + [f])) == t + f.w;
    } else {
      assert Track(frames + [f]) == out && SumW(Kept(frames + [f])) == t;
    }
  }

  /** The payload `f.read(length)` decompressed and decoded into the track. */
  method DecodePayload(env: Env, payload: seq<byte>) returns (r: Result<seq<Entry>, Error>)
    ensures env.decompress(payload).None? ==> r == Failure(DecompressionFailure)
    ensures env.decompress(payload).Some? ==>
      (r.Success? <==> ParseEach(Pieces(env.decompress(payload).value), Osr.FrameParser(env)).Success?)
    ensures env.decompress(payload).Some? && r.Success? ==>
      r.value == Track(ParseEach(Pieces(env.decompress(payload).value), Osr.FrameParser(env)).value)
    ensures env.decompress(payload).Some? && r.Failure? ==>
      r.error == ParseEach(Pieces(env.decompress(payload).value), Osr.FrameParser(env)).error
  {
    var text := env.decompress(payload);
    if text.None? {
      return Failure(DecompressionFailure);
    }
    r := RenderDecode(Osr.FrameParser(env), Split(text.value, Comma));
  }
}
