/** The text helpers shared by `osr.py`, `parse_osr.py` and `render_osr.py`:
    the mod abbreviations (`shortmods`), the mod names (`mods_to_str`), the
    binary digits of an integer (`to_bin`) and the button columns (`keys`). */
module Formatting {
  import opened Wrappers
  import opened Bits
  import opened Bytes
  import Osr

  /** `SHORTMODS` of `osr.py` and `parse_osr.py`, indexed by bit + 1; NoVideo
      (bit 2) and Cinema (bit 22) have no abbreviation. */
  const ShortModsTable: seq<Option<string>> := [
    None, Some("NF"), Some("EZ"), None, Some("HD"), Some("HR"), Some("SD"), Some("DT"),
    Some("RX"), Some("HT"), Some("NC"), Some("FL"), Some("AO"), Some("SO"), Some("AP"),
    Some("PF"), Some("4K"), Some("5K"), Some("6K"), Some("7K"), Some("8K"), Some("FI"),
    Some("RD"), None, Some("TP"), Some("9K"), Some("CO"), Some("1K"), Some("3K"), Some("2K")]

  /** `SHORTMODS` of `render_osr.py`: only the first twelve, with empty
      strings where the other table has none. */
  const RenderShortModsTable: seq<Option<string>> := [
    Some(""), Some("NF"), Some("EZ"), Some(""), Some("HD"), Some("HR"), Some("SD"),
    Some("DT"), Some("RX"), Some("HT"), Some("NC"), Some("FL")]

  /** `MODS`, indexed by bit + 1. */
  const ModNames: seq<string> := [
    "None", "NoFail", "Easy", "NoVideo", "Hidden", "HardRock", "SuddenDeath",
    "DoubleTime", "Relax", "HalfTime", "NightCore", "Flashlight", "Autoplay",
    "SpunOut", "Autopilot", "Perfect", "Key4", "Key5", "Key6", "Key7", "Key8",
    "FadeIn", "Random", "Cinema", "TargetPractice", "Key9", "Co-op", "Key1",
    "Key3", "Key2"]

  /** The exceptions the loops raise: an index past the end of a table, and
      `str += None`. */
  datatype FormatError = IndexError(index: nat) | TypeError(index: nat)

  /** The indices the loops over `n` look up: with `i` starting at `start`
      and going up by one per bit, those `i` whose bit is set, in order. */
  function Visited(n: nat, start: nat): (js: seq<nat>)
    ensures |js| > 0 <==> n > 0
    ensures |js| > 0 ==> start <= js[0] && (js[0] == start <==> n % 2 == 1)
    decreases n
  {
    if n == 0 then []
    else (if n % 2 == 1 then [start] else []) + Visited(n / 2, start + 1)
  }

  /** Index `j` is visited exactly when bit `j - start` of `n` is set. */
  lemma {:induction false} VisitedSpec(n: nat, start: nat)
    ensures forall j: nat :: j in Visited(n, start) <==> start <= j && Bit(n, j - start)
    decreases n
  {
    if n == 0 {
      forall j: nat ensures j in Visited(n, start) <==> start <= j && Bit(n, j - start) {
        if start <= j { NoBitsOfZero(j - start); }
      }
    } else {
      var rest := Visited(n / 2, start + 1);
      VisitedSpec(n / 2, start + 1);
      var head: seq<nat> := if n % 2 == 1 then [start] else [];
      assert Visited(n, start) == head + rest;
      forall j: nat ensures j in Visited(n, start) <==> start <= j && Bit(n, j - start) {
        if start < j {
          assert Bit(n, j - start) == Bit(n / 2, j - (start + 1));
        }
      }
    }
  }

  /** The indices come in increasing order, all from `start` up: the loops
      look the lowest bit up first. */
  lemma {:induction false} VisitedIncreasing(n: nat, start: nat)
    ensures forall a, b :: 0 <= a < b < |Visited(n, start)| ==> Visited(n, start)[a] < Visited(n, start)[b]
    ensures forall a :: 0 <= a < |Visited(n, start)| ==> start <= Visited(n, start)[a]
    decreases n
  {
    if n != 0 {
      var rest := Visited(n / 2, start + 1);
      VisitedIncreasing(n / 2, start + 1);
      var head: seq<nat> := if n % 2 == 1 then [start] else [];
      assert Visited(n, start) == head + rest;
    }
  }

  /** `table[j]` as the loop body uses it. */
  function Entry(table: seq<Option<string>>, j: nat): (r: Result<string, FormatError>)
    ensures r == Failure(IndexError(j)) <==> j >= |table|
    ensures r == Failure(TypeError(j)) <==> j < |table| && table[j].None?
    ensures r.Success? ==> j < |table| && table[j] == Some(r.value)
  {
    if j >= |table| then Failure(IndexError(j))
    else match table[j]
      case None => Failure(TypeError(j))
      case Some(text) => Success(text)
  }

  /** The entries at `js` concatenated, or the error of the first one that
      cannot be read. */
  function Lookup(table: seq<Option<string>>, js: seq<nat>): (r: Result<string, FormatError>)
    ensures r.Success? ==> forall a :: 0 <= a < |js| ==> js[a] < |table| && table[js[a]].Some?
    ensures js == [] ==> r == Success("")
    decreases |js|
  {
    if js == [] then Success("")
    else
      var head :- Entry(table, js[0]);
      var rest :- Lookup(table, js[1..]);
      Success(head + rest)
  }

  /** `shortmods(n)` over a table: the entries of the set bits, lowest bit
      first, each bit `k` looking up index `k + 1`. */
  function ShortmodsOf(table: seq<Option<string>>, n: nat): (r: Result<string, FormatError>)
    ensures n == 0 ==> r == Success("")
  {
    Lookup(table, Visited(n, 1))
  }

  /** The lookup fails exactly when one of the entries does, with the error
      of the first that does. */
  lemma {:induction false} LookupFails(table: seq<Option<string>>, js: seq<nat>)
    ensures Lookup(table, js).Failure? <==> exists a :: 0 <= a < |js| && Entry(table, js[a]).Failure?
    ensures Lookup(table, js).Failure? ==>
      exists a :: 0 <= a < |js| && Entry(table, js[a]) == Failure(Lookup(table, js).error)
                  && forall b :: 0 <= b < a ==> Entry(table, js[b]).Success?
    decreases |js|
  {
    if js != [] {
      var tail := js[1..];
      LookupFails(table, tail);
      if Entry(table, js[0]).Success? {
        if exists a :: 0 <= a < |js| && Entry(table, js[a]).Failure? {
          var a :| 0 <= a < |js| && Entry(table, js[a]).Failure?;
          assert a > 0 && Entry(table, tail[a - 1]).Failure?;
        }
        if Lookup(table, tail).Failure? {
          var a :| 0 <= a < |tail| && Entry(table, tail[a]) == Failure(Lookup(table, tail).error)
                   && forall b :: 0 <= b < a ==> Entry(table, tail[b]).Success?;
          assert Entry(table, js[a + 1]) == Failure(Lookup(table, js).error);
          forall b | 0 <= b < a + 1 ensures Entry(table, js[b]).Success? {
            if b > 0 { assert js[b] == tail[b - 1]; }
          }
        }
        forall a | 0 <= a < |tail| ensures tail[a] == js[a + 1] { }
      }
    }
  }

  /** Bit `k` has no usable entry: `table[k + 1]` is past the end or missing. */
  predicate Unusable(table: seq<Option<string>>, k: nat)
  {
    Entry(table, k + 1).Failure?
  }

  /** `shortmods` fails exactly when a set bit has no usable entry. */
  lemma ShortmodsFails(table: seq<Option<string>>, n: nat)
    ensures ShortmodsOf(table, n).Failure? <==> exists k: nat :: Bit(n, k) && Unusable(table, k)
  {
    var js := Visited(n, 1);
    VisitedSpec(n, 1);
    LookupFails(table, js);
    if ShortmodsOf(table, n).Failure? {
      var a :| 0 <= a < |js| && Entry(table, js[a]).Failure?;
      assert js[a] in js;
      var k: nat := js[a] - 1;
      assert Bit(n, k) && Unusable(table, k);
    }
    if exists k: nat :: Bit(n, k) && Unusable(table, k) {
      var k: nat :| Bit(n, k) && Unusable(table, k);
      assert k + 1 in js;
      var a :| 0 <= a < |js| && js[a] == k + 1;
      assert Entry(table, js[a]).Failure?;
    }
  }

  /** With the 30-entry table, `shortmods` fails exactly when NoVideo (bit
      2), Cinema (bit 22) or a bit from 29 up is set. */
  lemma ShortmodsTableFails(n: nat)
    ensures ShortmodsOf(ShortModsTable, n).Failure? <==> exists k: nat :: Bit(n, k) && (k == 2 || k == 22 || k >= 29)
  {
    ShortmodsFails(ShortModsTable, n);
    ShortModsUnusable();
  }

  /** NoVideo alone raises the `TypeError` of `str += None` at index 3. */
  lemma ShortmodsNoVideo()
    ensures ShortmodsOf(ShortModsTable, 4) == Failure(TypeError(3))
  {
    VisitedFour();
    LookupOne(ShortModsTable, 3);
  }

  /** The bits without a usable abbreviation in the 30-entry table. */
  lemma ShortModsUnusable()
    ensures forall k: nat :: Unusable(ShortModsTable, k) <==> k == 2 || k == 22 || k >= 29
  {
    forall k: nat ensures Unusable(ShortModsTable, k) <==> k == 2 || k == 22 || k >= 29 {
      if k + 1 < |ShortModsTable| {
        assert ShortModsTable[k + 1].None? <==> k + 1 == 3 || k + 1 == 23;
      }
    }
  }

  /** With the 12-entry table of `render_osr.py`, `shortmods` fails exactly
      when a bit from 11 up is set; NoVideo contributes nothing. */
  lemma RenderShortmodsFails(n: nat)
    ensures ShortmodsOf(RenderShortModsTable, n).Failure? <==> exists k: nat :: Bit(n, k) && k >= 11
  {
    ShortmodsFails(RenderShortModsTable, n);
    RenderShortModsUnusable();
  }

  /** With that table NoVideo alone gives the empty text. */
  lemma RenderShortmodsNoVideo()
    ensures ShortmodsOf(RenderShortModsTable, 4) == Success("")
  {
    VisitedFour();
    LookupOne(RenderShortModsTable, 3);
  }

  /** The bits without a usable abbreviation in the 12-entry table. */
  lemma RenderShortModsUnusable()
    ensures forall k: nat :: Unusable(RenderShortModsTable, k) <==> k >= 11
  {
    forall k: nat ensures Unusable(RenderShortModsTable, k) <==> k >= 11 {
      if k + 1 < |RenderShortModsTable| {
        assert RenderShortModsTable[k + 1].Some?;
      }
    }
  }

  /** A table with the empty abbreviation wherever it has none, as the table
      of `render_osr.py` is written. */
  function Filled(table: seq<Option<string>>): seq<Option<string>>
  {
    seq(|table|, j requires 0 <= j < |table| => Some(if table[j].Some? then table[j].value else ""))
  }

  /** In a filled table only indices past the end are unusable. */
  lemma FilledUnusable(table: seq<Option<string>>)
    ensures forall k: nat :: Unusable(Filled(table), k) <==> k + 1 >= |table|
  {
  }

  /** Where the lookup in the table succeeds, the filled table gives the same
      text. */
  lemma {:induction false} FilledAgrees(table: seq<Option<string>>, js: seq<nat>)
    ensures Lookup(table, js).Success? ==> Lookup(Filled(table), js) == Lookup(table, js)
    decreases |js|
  {
    if js != [] {
      FilledAgrees(table, js[1..]);
    }
  }

  /** With the 30-entry table filled, `shortmods` fails only on a bit from 29
      up. */
  lemma FilledShortmodsFails(n: nat)
    ensures ShortmodsOf(Filled(ShortModsTable), n).Failure? <==> exists k: nat :: Bit(n, k) && k >= 29
  {
    ShortmodsFails(Filled(ShortModsTable), n);
    FilledUnusable(ShortModsTable);
  }

  /** With the filled table NoVideo alone gives the empty text. */
  lemma FilledShortmodsNoVideo()
    ensures ShortmodsOf(Filled(ShortModsTable), 4) == Success("")
  {
    VisitedFour();
    LookupOne(Filled(ShortModsTable), 3);
  }

  /** Every mod combination the table handles gives the same text with the
      filled table. */
  lemma FilledShortmodsAgree(n: nat)
    ensures ShortmodsOf(ShortModsTable, n).Success? ==>
      ShortmodsOf(Filled(ShortModsTable), n) == ShortmodsOf(ShortModsTable, n)
  {
    FilledAgrees(ShortModsTable, Visited(n, 1));
  }

  /** NoVideo alone looks up index 3 only. */
  lemma VisitedFour()
    ensures Visited(4, 1) == [3]
  {
    assert Visited(1, 3) == [3] + Visited(0, 4);
    assert Visited(2, 2) == [] + Visited(1, 3);
  }

  /** Looking up the single index `j` is reading that entry. */
  lemma LookupOne(table: seq<Option<string>>, j: nat)
    ensures Lookup(table, [j]) == Entry(table, j)
  {
    var none: seq<nat> := [];
    assert [j] == [j] + none;
    LookupCons(table, j, none);
    if Entry(table, j).Success? {
      assert Entry(table, j).value + "" == Entry(table, j).value;
    }
  }

  /** The result of a loop that has built `s` before the rest `r`. */
  function Prefixed(s: string, r: Result<string, FormatError>): Result<string, FormatError>
  {
    match r
    case Success(v) => Success(s + v)
    case Failure(e) => Failure(e)
  }

  lemma PrefixedAppend(s: string, t: string, r: Result<string, FormatError>)
    ensures Prefixed(s, Prefixed(t, r)) == Prefixed(s + t, r)
  {
    if r.Success? {
      assert s + (t + r.value) == (s + t) + r.value;
    }
  }

  /** One step of the lookup: the first entry, then the rest. */
  lemma LookupCons(table: seq<Option<string>>, j: nat, rest: seq<nat>)
    ensures Entry(table, j).Failure? ==> Lookup(table, [j] + rest) == Failure(Entry(table, j).error)
    ensures Entry(table, j).Success? ==> Lookup(table, [j] + rest) == Prefixed(Entry(table, j).value, Lookup(table, rest))
  {
    assert ([j] + rest)[0] == j && ([j] + rest)[1..] == rest;
  }

  /** `shortmods(n)`: the loop over the bits of `n`, lowest first. */
  method Shortmods(table: seq<Option<string>>, n: nat) returns (r: Result<string, FormatError>)
    ensures r == ShortmodsOf(table, n)
  {
    var i: nat := 1;
    var s := "";
    var m := n;
    assert Prefixed(s, Lookup(table, Visited(m, i))) == ShortmodsOf(table, n) by {
      match Lookup(table, Visited(m, i))
      case Success(v) => assert "" + v == v;
      case Failure(_) =>
    }
    while m != 0
      invariant Prefixed(s, Lookup(table, Visited(m, i))) == ShortmodsOf(table, n)
      decreases m
    {
      ghost var rest := Visited(m / 2, i + 1);
      if m % 2 == 1 {
        assert Visited(m, i) == [i] + rest;
        LookupCons(table, i, rest);
        if i >= |table| {
          return Failure(IndexError(i));
        }
        if table[i].None? {
          return Failure(TypeError(i));
        }
        PrefixedAppend(s, table[i].value, Lookup(table, rest));
        s := s + table[i].value;
      } else {
        assert Visited(m, i) == rest;
      }
      i := i + 1;
      m := m / 2;
    }
    assert s + "" == s;
    return Success(s);
  }

  /** The result of a loop that has put `s` into the set before the rest `r`. */
  function Added(s: set<string>, r: Result<set<string>, FormatError>): Result<set<string>, FormatError>
  {
    match r
    case Success(v) => Success(s + v)
    case Failure(e) => Failure(e)
  }

  lemma AddedAppend(s: set<string>, t: set<string>, r: Result<set<string>, FormatError>)
    ensures Added(s, Added(t, r)) == Added(s + t, r)
  {
    if r.Success? {
      assert s + (t + r.value) == (s + t) + r.value;
    }
  }

  /** The set `mods_to_str` builds from the indices `js`: the name at each,
      or the index error of the first index past the names. */
  function NamesAt(names: seq<string>, js: seq<nat>): (r: Result<set<string>, FormatError>)
    ensures r.Failure? ==> r.error.IndexError? && r.error.index >= |names|
    ensures r.Success? ==> |r.value| <= |js|
    ensures js == [] ==> r == Success({})
    decreases |js|
  {
    if js == [] then Success({})
    else if js[0] >= |names| then Failure(IndexError(js[0]))
    else Added({names[js[0]]}, NamesAt(names, js[1..]))
  }

  /** Collecting the names fails exactly when an index is past the names,
      and otherwise gives exactly the names at the indices. */
  lemma {:induction false} NamesAtSpec(names: seq<string>, js: seq<nat>)
    ensures NamesAt(names, js).Failure? <==> exists j :: j in js && j >= |names|
    ensures NamesAt(names, js).Success? ==>
      forall x :: x in NamesAt(names, js).value <==> exists j :: j in js && j < |names| && names[j] == x
    decreases |js|
  {
    if js != [] {
      var tail := js[1..];
      NamesAtSpec(names, tail);
      assert js == [js[0]] + tail;
      assert forall j :: j in js <==> j == js[0] || j in tail;
      if js[0] >= |names| {
        assert js[0] in js;
      } else if NamesAt(names, tail).Failure? {
        var j :| j in tail && j >= |names|;
        assert j in js;
      }
      if js[0] < |names| && NamesAt(names, tail).Success? {
        var found := NamesAt(names, js).value;
        assert found == {names[js[0]]} + NamesAt(names, tail).value;
        forall x ensures x in found <==> exists j :: j in js && j < |names| && names[j] == x {
          if x in NamesAt(names, tail).value {
            var j :| j in tail && j < |names| && names[j] == x;
            assert j in js;
          }
          if x == names[js[0]] {
            assert js[0] in js;
          }
        }
      }
    }
  }

  /** Collecting the names of the set bits of `n` (bit `k` at index `k + 1`)
      fails exactly when some set bit has no name. */
  lemma {:induction false} NamesOfBitsFail(names: seq<string>, n: nat)
    ensures NamesAt(names, Visited(n, 1)).Failure? <==> exists k: nat :: Bit(n, k) && 1 + k >= |names|
  {
    var js := Visited(n, 1);
    VisitedSpec(n, 1);
    NamesAtSpec(names, js);
    if NamesAt(names, js).Failure? {
      var j :| j in js && j >= |names|;
      var k: nat := j - 1;
      assert Bit(n, k) && 1 + k >= |names|;
      assert exists k: nat :: Bit(n, k) && 1 + k >= |names|;
    } else {
      forall k: nat | Bit(n, k) ensures 1 + k < |names| {
        var j: nat := 1 + k;
        assert j in js;
      }
    }
  }

  /** Otherwise the names collected are exactly those of the set bits. */
  lemma NamesOfBits(names: seq<string>, n: nat)
    ensures NamesAt(names, Visited(n, 1)).Success? ==>
      forall x :: x in NamesAt(names, Visited(n, 1)).value <==>
        exists k: nat :: Bit(n, k) && 1 + k < |names| && names[1 + k] == x
  {
    VisitedSpec(n, 1);
    NamesAtSpec(names, Visited(n, 1));
    NamesOfIndices(names, n, Visited(n, 1));
  }

  lemma {:induction false} NamesOfIndices(names: seq<string>, n: nat, js: seq<nat>)
    requires forall j: nat :: j in js <==> 1 <= j && Bit(n, j - 1)
    requires NamesAt(names, js).Success? ==>
      forall x :: x in NamesAt(names, js).value <==> exists j :: j in js && j < |names| && names[j] == x
    ensures NamesAt(names, js).Success? ==>
      forall x :: x in NamesAt(names, js).value <==>
        exists k: nat :: Bit(n, k) && 1 + k < |names| && names[1 + k] == x
  {
    if NamesAt(names, js).Success? {
      forall x | x in NamesAt(names, js).value
        ensures exists k: nat :: Bit(n, k) && 1 + k < |names| && names[1 + k] == x
      {
        var j :| j in js && j < |names| && names[j] == x;
        var k: nat := j - 1;
        assert Bit(n, k) && 1 + k < |names| && names[1 + k] == x;
      }
      forall x, k: nat | Bit(n, k) && 1 + k < |names| && names[1 + k] == x
        ensures x in NamesAt(names, js).value
      {
        var j: nat := 1 + k;
        assert j in js;
      }
    }
  }

  /** The `while n:` loop of `mods_to_str` that adds the names to a set. */
  method CollectNames(names: seq<string>, n: nat) returns (r: Result<set<string>, FormatError>)
    ensures r == NamesAt(names, Visited(n, 1))
  {
    var i: nat := 1;
    var s: set<string> := {};
    var m := n;
    assert Added(s, NamesAt(names, Visited(m, i))) == NamesAt(names, Visited(n, 1)) by {
      match NamesAt(names, Visited(m, i))
      case Success(v) => assert {} + v == v;
      case Failure(_) =>
    }
    while m != 0
      invariant Added(s, NamesAt(names, Visited(m, i))) == NamesAt(names, Visited(n, 1))
      decreases m
    {
      ghost var rest := Visited(m / 2, i + 1);
      if m % 2 == 1 {
        assert Visited(m, i) == [i] + rest;
        assert ([i] + rest)[0] == i && ([i] + rest)[1..] == rest;
        if i >= |names| {
          return Failure(IndexError(i));
        }
        AddedAppend(s, {names[i]}, NamesAt(names, rest));
        s := s + {names[i]};
      } else {
        assert Visited(m, i) == rest;
      }
      i := i + 1;
      m := m / 2;
    }
    assert s + {} == s;
    return Success(s);
  }

  /** Listing a set in some order (the order Python's iteration happens to
      produce): every element exactly once. */
  method Enumerate(elements: set<string>) returns (listed: seq<string>)
    ensures forall x :: x in listed <==> x in elements
    ensures forall a, b :: 0 <= a < b < |listed| ==> listed[a] != listed[b]
    ensures |listed| == |elements|
  {
    var rest := elements;
    listed := [];
    while rest != {}
      invariant forall x :: x in elements <==> x in listed || x in rest
      invariant forall x :: x in listed ==> x !in rest
      invariant forall a, b :: 0 <= a < b < |listed| ==> listed[a] != listed[b]
      invariant |listed| + |rest| == |elements|
      decreases |rest|
    {
      var x :| x in rest;
      listed := listed + [x];
      rest := rest - {x};
    }
  }

  /** `mods_to_str(n)` over a name table: the names of the set bits joined
      with commas, in the order `order` records, each exactly once, or the
      index error when a set bit has no name. */
  method NamesToStr(names: seq<string>, n: nat) returns (r: Result<string, FormatError>, order: seq<string>)
    ensures r.Failure? <==> exists k: nat :: Bit(n, k) && 1 + k >= |names|
    ensures r.Success? ==>
      && r.value == Join(order, ',')
      && (forall x :: x in order <==> exists k: nat :: Bit(n, k) && 1 + k < |names| && names[1 + k] == x)
      && (forall a, b :: 0 <= a < b < |order| ==> order[a] != order[b])
    ensures n == 0 ==> r == Success("")
  {
    NamesOfBitsFail(names, n);
    NamesOfBits(names, n);
    var found := CollectNames(names, n);
    if found.Failure? {
      return Failure(found.error), [];
    }
    var listed := Enumerate(found.value);
    if n == 0 {
      assert found.value == {};
      assert |listed| == 0;
    }
    return Success(Join(listed, ',')), listed;
  }

  /** `mods_to_str(n)` with the 30 names of `MODS`: it fails exactly when a
      bit from 29 up is set. */
  method ModsToStr(n: nat) returns (r: Result<string, FormatError>, order: seq<string>)
    ensures r.Failure? <==> exists k: nat :: Bit(n, k) && k >= 29
    ensures r.Success? ==>
      && r.value == Join(order, ',')
      && (forall x :: x in order <==> exists k: nat :: Bit(n, k) && k < 29 && ModNames[k + 1] == x)
      && (forall a, b :: 0 <= a < b < |order| ==> order[a] != order[b])
    ensures n == 0 ==> r == Success("")
  {
    r, order := NamesToStr(ModNames, n);
  }

  /** `to_bin(n, size)`: `size` binary digits of `n`, least significant
      first (`n` may be negative: Python shifts in copies of the sign bit). */
  method ToBin(n: int, size: nat) returns (s: string)
    ensures |s| == size
    ensures forall i :: 0 <= i < size ==> s[i] == if Bit(n, i) then '1' else '0'
  {
    s := "";
    var m := n;
    var left: nat := size;
    while left != 0
      invariant left <= size && |s| == size - left
      invariant m == Shr(n, |s|)
      invariant forall i :: 0 <= i < |s| ==> s[i] == if Bit(n, i) then '1' else '0'
      decreases left
    {
      ShrStep(n, |s|);
      s := s + ["01"[m % 2]];
      m := m / 2;
      left := left - 1;
    }
  }

  /** Reading `to_bin`'s digits back, least significant first. */
  function FromBin(s: string): int
  {
    if s == [] then 0 else (if s[0] == '1' then 1 else 0) + 2 * FromBin(s[1..])
  }

  /** The digits of `to_bin(n, size)` are the low `size` bits of `n`: read
      back they give a value below `2^size` that, with `n >> size` above it,
      is `n` again. */
  lemma {:induction false} ToBinValue(n: int, s: string)
    requires forall i :: 0 <= i < |s| ==> s[i] == if Bit(n, i) then '1' else '0'
    ensures 0 <= FromBin(s) < Pow2(|s|)
    ensures n == FromBin(s) + Pow2(|s|) * Shr(n, |s|)
    decreases |s|
  {
    if s != [] {
      var tail := s[1..];
      forall i | 0 <= i < |tail| ensures tail[i] == if Bit(n / 2, i) then '1' else '0' {
        assert tail[i] == s[i + 1];
      }
      ToBinValue(n / 2, tail);
      var p, h := Pow2(|tail|), Shr(n / 2, |tail|);
      assert Pow2(|s|) == 2 * p && Shr(n, |s|) == h;
      assert FromBin(s) == n % 2 + 2 * FromBin(tail);
      DoubleProduct(p, h);
    }
  }

  lemma DoubleProduct(p: int, h: int)
    ensures (2 * p) * h == 2 * (p * h)
  {
  }

  /** The string `keys(n)` of the scripts: the five flags of `Osr.Keys` as
      columns `K1 K2 M1 M2 SMOKE`, blank where the flag is off, joined with
      single blanks. */
  function KeysText(n: int): (s: string)
    ensures |s| == 17
  {
    var b := Osr.Keys(n);
    var c1, c2, c3 := if b.k1 then "K1" else "  ", if b.k2 then "K2" else "  ", if b.m1 then "M1" else "  ";
    var c4, c5 := if b.m2 then "M2" else "  ", if b.smoke then "SMOKE" else "     ";
    JoinFive(c1, c2, c3, c4, c5, ' ');
    Join([c1, c2, c3, c4, c5], ' ')
  }

  /** `keys(n)` is always 17 characters: columns at 0, 3, 6, 9 and 12, each
      its label exactly when the button is down (key 1 on bits 0 and 2, key 2
      on bits 1 and 3, mouse 1 on bit 0 without key 1, mouse 2 on bit 1
      without key 2, smoke on bit 4) and blanks otherwise. */
  lemma KeysTextColumns(n: int)
    ensures var s := KeysText(n);
      && |s| == 17
      && s[2] == s[5] == s[8] == s[11] == ' '
      && s[0..2] == (if Bit(n, 0) && Bit(n, 2) then "K1" else "  ")
      && s[3..5] == (if Bit(n, 1) && Bit(n, 3) then "K2" else "  ")
      && s[6..8] == (if Bit(n, 0) && !Bit(n, 2) then "M1" else "  ")
      && s[9..11] == (if Bit(n, 1) && !Bit(n, 3) then "M2" else "  ")
      && s[12..17] == (if Bit(n, 4) then "SMOKE" else "     ")
  {
    Osr.KeysByBit(n);
    var b := Osr.Keys(n);
    FiveColumns(if b.k1 then "K1" else "  ", if b.k2 then "K2" else "  ",
                if b.m1 then "M1" else "  ", if b.m2 then "M2" else "  ",
                if b.smoke then "SMOKE" else "     ");
  }

  /** Four two-character columns and a five-character one, joined with
      blanks, sit at 0, 3, 6, 9 and 12. */
  lemma FiveColumns(c1: string, c2: string, c3: string, c4: string, c5: string)
    requires |c1| == |c2| == |c3| == |c4| == 2 && |c5| == 5
    ensures var s := Join([c1, c2, c3, c4, c5], ' ');
      && |s| == 17
      && s[2] == s[5] == s[8] == s[11] == ' '
      && s[0..2] == c1 && s[3..5] == c2 && s[6..8] == c3 && s[9..11] == c4 && s[12..17] == c5
  {
    JoinFive(c1, c2, c3, c4, c5, ' ');
    var s := c1 + [' '] + c2 + [' '] + c3 + [' '] + c4 + [' '] + c5;
    assert s[0..2] == c1 && s[3..5] == c2 && s[6..8] == c3 && s[9..11] == c4 && s[12..17] == c5;
  }

  lemma JoinFive<T>(a: seq<T>, b: seq<T>, c: seq<T>, d: seq<T>, e: seq<T>, sep: T)
    ensures Join([a, b, c, d, e], sep) == a + [sep] + b + [sep] + c + [sep] + d + [sep] + e
  {
    var ps := [a, b, c, d, e];
    assert ps[1..] == [b, c, d, e];
    assert ps[1..][1..] == [c, d, e];
    assert ps[1..][1..][1..] == [d, e];
    assert ps[1..][1..][1..][1..] == [e];
    assert Join([e], sep) == e;
    assert Join([d, e], sep) == d + [sep] + e;
    assert Join([c, d, e], sep) == c + [sep] + (d + [sep] + e);
    assert Join([b, c, d, e], sep) == b + [sep] + (c + [sep] + (d + [sep] + e));
  }
}
