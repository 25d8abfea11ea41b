/** `util.rs`: splitting a text around the first occurrence of a pattern. */
module Util {
  import opened Results
  import opened Text

  /** `split_tuple_2`: `splitn(2, pat)` taken as a pair, `None` when `pat` does not
      occur. `splitn(2, ..)` yields at most two pieces, so the source's
      "too many values" panic cannot happen and has no counterpart here. */
  function SplitTuple2(s: string, pat: string): (r: Option<(string, string)>)
    ensures r.Some? ==> r.value.0 + pat + r.value.1 == s
    ensures r.None? <==> !Contains(s, pat)
  {
    match Find(s, pat)
    case None => None
    case Some(i) =>
      assert s[..i] + pat + s[i + |pat|..] == s by {
        assert s[i..i + |pat|] == pat;
        assert s == s[..i] + s[i..i + |pat|] + s[i + |pat|..];
      }
      Some((s[..i], s[i + |pat|..]))
  }

  /** The split is at the first occurrence of `pat`: it occurs right after the
      first piece and nowhere earlier, so the first piece does not contain it. */
  lemma SplitTuple2First(s: string, pat: string)
    requires SplitTuple2(s, pat).Some?
    ensures OccursAt(s, pat, |SplitTuple2(s, pat).value.0|)
    ensures forall i: nat :: i < |SplitTuple2(s, pat).value.0| ==> !OccursAt(s, pat, i)
    ensures |pat| > 0 ==> !Contains(SplitTuple2(s, pat).value.0, pat)
  {
    var i := Find(s, pat).value;
    assert SplitTuple2(s, pat).value.0 == s[..i];
    PrefixBeforeFirst(s, pat, i);
  }

  /** Splitting a text built as `a + pat + b`, where `pat` does not occur before
      the end of `a`, gives back `a` and `b`. */
  lemma SplitTuple2Of(a: string, pat: string, b: string)
    requires forall i: nat :: i < |a| ==> !OccursAt(a + pat + b, pat, i)
    ensures SplitTuple2(a + pat + b, pat) == Some((a, b))
  {
    var s := a + pat + b;
    assert OccursAt(s, pat, |a|) by {
      assert s[|a|..|a| + |pat|] == pat;
    }
    var r := SplitTuple2(s, pat);
    assert r.Some? by {
      assert Contains(s, pat);
    }
    SplitTuple2First(s, pat);
    var n := |r.value.0|;
    assert n == |a|;
    assert r.value.0 == s[..n] == a;
    assert r.value.1 == b by {
      assert s[n + |pat|..] == b;
    }
  }

  /** A pattern whose first character does not occur in `a` splits `a + pat + b`
      right after `a`. */
  lemma SplitTuple2At(a: string, pat: string, b: string)
    requires |pat| > 0 && pat[0] !in a
    ensures SplitTuple2(a + pat + b, pat) == Some((a, b))
  {
    var s := a + pat + b;
    forall i: nat | i < |a|
      ensures !OccursAt(s, pat, i)
    {
      if i + |pat| <= |s| {
        assert s[i..i + |pat|][0] == s[i] == a[i];
      }
    }
    SplitTuple2Of(a, pat, b);
  }

  lemma SplitTuple2Example()
    ensures SplitTuple2("hello this is dog", " ") == Some(("hello", "this is dog"))
  {
    var a, b := "hello", "this is dog";
    assert ' ' !in a;
    NoCharBefore(a, ' ', b);
    SplitTuple2Of(a, " ", b);
    assert a + " " + b == "hello this is dog";
  }

  lemma SplitTuple2AbsentExample()
    ensures SplitTuple2("nooooope", "oops") == None
  {
    var s := "nooooope";
    assert forall k :: 0 <= k < |s| ==> s[k] != 's';
    forall i: nat | i + 4 <= |s|
      ensures !OccursAt(s, "oops", i)
    {
      assert s[i..i + 4][3] == s[i + 3] != 's';
    }
  }
}
