/** `day13.rs`: the bus notes — the earliest departure time on the first
    line, the bus IDs on the second, comma-separated, with `x` for buses out
    of service. */
module Day13 {
  import opened Results
  import opened Text

  /** `Timestamp(i32)`. */
  datatype Timestamp = Timestamp(time: int)

  /** `BusId(i32)`. */
  datatype BusId = BusId(id: int)

  /** The tokens of the bus list that are not `x`, in order. */
  function InService(tokens: seq<string>): (r: seq<string>)
    ensures |r| <= |tokens|
    ensures forall k :: 0 <= k < |r| ==> r[k] != "x" && r[k] in tokens
  {
    if |tokens| == 0 then []
    else InService(tokens[..|tokens| - 1]) + (if tokens[|tokens| - 1] != "x" then [tokens[|tokens| - 1]] else [])
  }

  /** The number of tokens that are not `x`. */
  function InServiceCount(tokens: seq<string>): nat {
    |set k | 0 <= k < |tokens| && tokens[k] != "x"|
  }

  /** Every token that is not `x` is kept, and none is kept twice. */
  lemma {:induction false} InServiceCounted(tokens: seq<string>)
    ensures |InService(tokens)| == InServiceCount(tokens)
    decreases |tokens|
  {
    if |tokens| > 0 {
      var n := |tokens| - 1;
      var init := tokens[..n];
      InServiceCounted(init);
      var before := set k | 0 <= k < n && init[k] != "x";
      var now := set k | 0 <= k < |tokens| && tokens[k] != "x";
      assert now == before + (if tokens[n] != "x" then {n} else {}) by {
        forall k | k in now
          ensures k in before + (if tokens[n] != "x" then {n} else {})
        {
          if k < n {
            assert init[k] == tokens[k];
          }
        }
        forall k | k in before
          ensures k in now
        {
          assert init[k] == tokens[k];
        }
      }
    }
  }

  /** Filtering keeps the order: the tokens kept from two lists joined are
      those kept from the first, then those kept from the second. */
  lemma {:induction false} InServiceAppend(a: seq<string>, b: seq<string>)
    ensures InService(a + b) == InService(a) + InService(b)
    decreases |b|
  {
    if |b| == 0 {
      assert a + b == a;
    } else {
      var init, last := b[..|b| - 1], b[|b| - 1];
      InServiceAppend(a, init);
      var ab := a + b;
      assert ab[..|ab| - 1] == a + init && ab[|ab| - 1] == last;
      var tail := if last != "x" then [last] else [];
      assert InService(ab) == InService(a + init) + tail;
      assert InService(b) == InService(init) + tail;
    }
  }

  /** The notes as `parse` demands them: two lines at least, a number on
      the first, and a number for every bus in service on the second;
      otherwise an `unwrap` panics. */
  predicate Parsable(s: string) {
    var lines := Lines(s);
    |lines| >= 2 && ParseSigned(lines[0]).Some? &&
    forall k :: 0 <= k < |InService(Split(lines[1], ","))| ==> ParseSigned(InService(Split(lines[1], ","))[k]).Some?
  }

  /** The bus IDs parsed from tokens, in order. */
  function BusIds(tokens: seq<string>): (r: seq<BusId>)
    requires forall k :: 0 <= k < |tokens| ==> ParseSigned(tokens[k]).Some?
    ensures |r| == |tokens|
    ensures forall k {:trigger r[k]} :: 0 <= k < |r| ==> Some(r[k].id) == ParseSigned(tokens[k])
  {
    seq(|tokens|, k requires 0 <= k < |tokens| => BusId(ParseSigned(tokens[k]).value))
  }

  /** `parse`: the timestamp and the IDs of the buses in service, in the
      order of the list. */
  function Parse(s: string): (r: (Timestamp, seq<BusId>))
    requires Parsable(s)
    ensures Some(r.0.time) == ParseSigned(Lines(s)[0])
    ensures |r.1| == |InService(Split(Lines(s)[1], ","))|
    ensures forall k :: 0 <= k < |r.1| ==> Some(r.1[k].id) == ParseSigned(InService(Split(Lines(s)[1], ","))[k])
  {
    var lines := Lines(s);
    (Timestamp(ParseSigned(lines[0]).value), BusIds(InService(Split(lines[1], ","))))
  }

  /** There are as many IDs as tokens in service on the second line. */
  lemma ParseCount(s: string)
    requires Parsable(s)
    ensures |Parse(s).1| == InServiceCount(Split(Lines(s)[1], ","))
  {
    InServiceCounted(Split(Lines(s)[1], ","));
  }

  /** A bus list entry as the notes write it: the ID, or `x` for a bus out
      of service. */
  function ShowEntry(e: Option<int>): string {
    if e.Some? then ShowInt(e.value) else "x"
  }

  /** The IDs of the buses in service, in order. */
  function Present(entries: seq<Option<int>>): (r: seq<int>)
    ensures |r| <= |entries|
  {
    if |entries| == 0 then []
    else Present(entries[..|entries| - 1]) + (if entries[|entries| - 1].Some? then [entries[|entries| - 1].value] else [])
  }

  /** The entries of a bus list as the notes write them. */
  function Tokens(entries: seq<Option<int>>): (r: seq<string>)
    ensures |r| == |entries|
    ensures forall k {:trigger r[k]} :: 0 <= k < |r| ==> r[k] == ShowEntry(entries[k])
  {
    seq(|entries|, k requires 0 <= k < |entries| => ShowEntry(entries[k]))
  }

  /** Notes written out: the timestamp on one line, the entries on the next. */
  function ShowNotes(t: int, entries: seq<Option<int>>): string {
    ShowInt(t) + "\n" + Join(Tokens(entries), ",")
  }

  /** A written number is never `x`. */
  lemma ShownNotOut(v: int)
    ensures ShowInt(v) != "x"
  {
    var t := ShowInt(v);
    assert IsDigit(t[|t| - 1]);
  }

  /** Writing one more number adds its text at the end. */
  lemma ShowIntsSnoc(v: seq<int>, x: int)
    ensures ShowInts(v + [x]) == ShowInts(v) + [ShowInt(x)]
  {
    var r := ShowInts(v + [x]);
    assert forall k :: 0 <= k < |v| ==> r[k] == ShowInts(v)[k];
  }

  /** The tokens of written entries that are not `x` are the written IDs. */
  lemma {:induction false} InServiceShown(entries: seq<Option<int>>)
    ensures InService(Tokens(entries)) == ShowInts(Present(entries))
    decreases |entries|
  {
    if |entries| > 0 {
      var n := |entries| - 1;
      var init := entries[..n];
      var tokens := Tokens(entries);
      assert tokens[..n] == Tokens(init);
      InServiceShown(init);
      if entries[n].Some? {
        ShownNotOut(entries[n].value);
        ShowIntsSnoc(Present(init), entries[n].value);
      } else {
        assert Present(entries) == Present(init);
      }
    }
  }

  /** The buses with the given IDs. */
  function BusList(ids: seq<int>): (r: seq<BusId>)
    ensures |r| == |ids|
    ensures forall k {:trigger r[k]} :: 0 <= k < |r| ==> r[k] == BusId(ids[k])
  {
    seq(|ids|, k requires 0 <= k < |ids| => BusId(ids[k]))
  }

  lemma BusListFive(ids: seq<int>, a: int, b: int, c: int, d: int, e: int)
    requires ids == [a, b, c, d, e]
    ensures BusList(ids) == [BusId(a), BusId(b), BusId(c), BusId(d), BusId(e)]
  {
    var r := BusList(ids);
    assert r[0] == BusId(a) && r[1] == BusId(b) && r[2] == BusId(c) && r[3] == BusId(d) && r[4] == BusId(e);
  }

  /** Written IDs parse back to the IDs. */
  lemma BusIdsShown(ids: seq<int>)
    ensures forall k :: 0 <= k < |ShowInts(ids)| ==> ParseSigned(ShowInts(ids)[k]).Some?
    ensures BusIds(ShowInts(ids)) == BusList(ids)
  {
    forall k | 0 <= k < |ids|
      ensures ParseSigned(ShowInt(ids[k])) == Some(ids[k])
    {
      ParseShowInt(ids[k]);
    }
  }

  /** Written notes have two lines: the timestamp and the joined entries. */
  lemma NotesLines(t: int, entries: seq<Option<int>>)
    requires |entries| > 0
    ensures Lines(ShowNotes(t, entries)) == [ShowInt(t), Join(Tokens(entries), ",")]
    ensures Split(Join(Tokens(entries), ","), ",") == Tokens(entries)
  {
    var first := ShowInt(t);
    var tokens := Tokens(entries);
    forall k | 0 <= k < |tokens|
      ensures ',' !in tokens[k] && '\n' !in tokens[k]
    {
      if entries[k].Some? {
        ShowIntChars(entries[k].value, ',');
        ShowIntChars(entries[k].value, '\n');
      }
    }
    var second := Join(tokens, ",");
    JoinAbsent(tokens, ',', '\n');
    JoinNonEmpty(tokens, ",");
    ShowIntChars(t, '\n');
    LinesCons(first, second);
    LinesOne(second);
    assert StripCarriageReturn(first) == first by {
      assert IsDigit(first[|first| - 1]);
    }
    SplitJoin(tokens, ",");
  }

  /** Parsing written notes gives back the timestamp and the IDs of the buses
      in service, in order. */
  lemma ParseShowNotes(t: int, entries: seq<Option<int>>)
    requires |entries| > 0
    ensures Parsable(ShowNotes(t, entries))
    ensures Parse(ShowNotes(t, entries)) ==
      (Timestamp(t), BusList(Present(entries)))
  {
    var s := ShowNotes(t, entries);
    NotesLines(t, entries);
    var lines := Lines(s);
    assert lines[0] == ShowInt(t);
    InServiceShown(entries);
    var ids := InService(Split(lines[1], ","));
    assert ids == ShowInts(Present(entries));
    BusIdsShown(Present(entries));
    ParseShowInt(t);
    assert Parsable(s);
    var p := Parse(s);
    assert p.0 == Timestamp(t);
    assert p.1 == BusIds(ids);
    assert p.1 == BusList(Present(entries));
  }

  /** The puzzle's example, `939` then `7,13,x,x,59,x,31,19`, as the
      entries `ShowNotes` writes after the timestamp 939. */
  function ExampleEntries(): seq<Option<int>> {
    [Some(7), Some(13), None, None, Some(59), None, Some(31), Some(19)]
  }

  lemma PresentExample(e: seq<Option<int>>)
    requires e == ExampleEntries()
    ensures Present(e) == [7, 13, 59, 31, 19]
  {
    var e1, e2, e3, e4 := e[..1], e[..2], e[..3], e[..4];
    var e5, e6, e7 := e[..5], e[..6], e[..7];
    assert e1[..0] == [];
    assert Present(e1) == [7];
    assert e2[..1] == e1;
    assert Present(e2) == [7, 13];
    assert e3[..2] == e2;
    assert Present(e3) == [7, 13];
    assert e4[..3] == e3;
    assert Present(e4) == [7, 13];
    assert e5[..4] == e4;
    assert Present(e5) == [7, 13, 59];
    assert e6[..5] == e5;
    assert Present(e6) == [7, 13, 59];
    assert e7[..6] == e6;
    assert Present(e7) == [7, 13, 59, 31];
    assert e[..7] == e7;
  }

  /** The example gives the timestamp 939 and the buses 7, 13, 59, 31 and 19. */
  lemma ParseExample(t: int, e: seq<Option<int>>)
    requires t == 939 && e == ExampleEntries()
    ensures Parsable(ShowNotes(t, e))
    ensures Parse(ShowNotes(t, e)) == (Timestamp(939), [BusId(7), BusId(13), BusId(59), BusId(31), BusId(19)])
  {
    ParseShowNotes(t, e);
    PresentExample(e);
    BusListFive(Present(e), 7, 13, 59, 31, 19);
  }
}
