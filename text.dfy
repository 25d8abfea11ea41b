/** The pieces of Rust's `str` API that the solvers rely on: `find`, `split`,
    `lines`, `split_whitespace` and integer `parse`. Text is a sequence of
    characters, one character per byte of ASCII input. */
module Text {
  import opened Results

  /** `pat` occurs in `s` at index `i`. */
  predicate OccursAt(s: string, pat: string, i: nat) {
    i + |pat| <= |s| && s[i..i + |pat|] == pat
  }

  predicate Contains(s: string, pat: string) {
    exists i: nat | i <= |s| :: OccursAt(s, pat, i)
  }

  /** `str::find` from index `from` on. */
  function FindFrom(s: string, pat: string, from: nat): Option<nat>
    decreases |s| + 1 - from
  {
    if from + |pat| > |s| then None
    else if OccursAt(s, pat, from) then Some(from)
    else FindFrom(s, pat, from + 1)
  }

  /** The search from `from` finds the first occurrence at or after `from`,
      and finds nothing exactly when there is none. */
  lemma {:induction false} FindFromMeaning(s: string, pat: string, from: nat)
    ensures var r := FindFrom(s, pat, from);
      (r.Some? ==> from <= r.value && OccursAt(s, pat, r.value)) &&
      (r.Some? ==> forall i: nat :: from <= i < r.value ==> !OccursAt(s, pat, i)) &&
      (r.None? <==> forall i: nat :: from <= i ==> !OccursAt(s, pat, i))
    decreases |s| + 1 - from
  {
    if from + |pat| <= |s| && !OccursAt(s, pat, from) {
      FindFromMeaning(s, pat, from + 1);
    }
  }

  /** `str::find`: the index of the first occurrence of `pat`. */
  function Find(s: string, pat: string): (r: Option<nat>)
    ensures r.Some? ==> OccursAt(s, pat, r.value)
    ensures r.Some? ==> forall i: nat :: i < r.value ==> !OccursAt(s, pat, i)
    ensures r.None? <==> !Contains(s, pat)
  {
    FindFromMeaning(s, pat, 0);
    FindFrom(s, pat, 0)
  }

  /** A found one-character pattern is that character, inside the text. */
  lemma FoundChar(s: string, c: char)
    ensures Find(s, [c]).Some? ==> Find(s, [c]).value < |s| && s[Find(s, [c]).value] == c
  {
    if Find(s, [c]).Some? {
      var i := Find(s, [c]).value;
      assert s[i] == s[i..i + 1][0];
    }
  }

  /** Concatenation of `pieces` with `sep` between consecutive pieces. */
  function Join(pieces: seq<string>, sep: string): string {
    if |pieces| == 0 then ""
    else if |pieces| == 1 then pieces[0]
    else pieces[0] + sep + Join(pieces[1..], sep)
  }

  /** `str::split` with a non-empty pattern: the text between consecutive
      occurrences, always at least one piece. */
  function Split(s: string, pat: string): (r: seq<string>)
    requires |pat| > 0
    ensures |r| >= 1
    ensures Join(r, pat) == s
    ensures forall k :: 0 <= k < |r| ==> !Contains(r[k], pat)
    decreases |s|
  {
    match Find(s, pat)
    case None => [s]
    case Some(i) =>
      PrefixBeforeFirst(s, pat, i);
      [s[..i]] + Split(s[i + |pat|..], pat)
  }

  /** The text before the first occurrence of a pattern does not contain it. */
  lemma PrefixBeforeFirst(s: string, pat: string, i: nat)
    requires i <= |s|
    requires forall j: nat :: j < i ==> !OccursAt(s, pat, j)
    ensures |pat| > 0 ==> !Contains(s[..i], pat)
  {
    forall j: nat | |pat| > 0 && OccursAt(s[..i], pat, j)
      ensures false
    {
      assert s[..i][j..j + |pat|] == s[j..j + |pat|];
      assert OccursAt(s, pat, j);
    }
  }

  function StripCarriageReturn(line: string): string {
    if |line| > 0 && line[|line| - 1] == '\r' then line[..|line| - 1] else line
  }

  /** The lines of a text split at '\n': each line that was followed by '\n'
      loses a trailing '\r', and a final empty piece (after a trailing '\n') is dropped. */
  function LinesOf(pieces: seq<string>): seq<string> {
    if |pieces| == 0 then []
    else if |pieces| == 1 then (if pieces[0] == "" then [] else pieces)
    else [StripCarriageReturn(pieces[0])] + LinesOf(pieces[1..])
  }

  /** `str::lines`. */
  function Lines(s: string): (r: seq<string>)
    ensures s == "" ==> r == []
  {
    if s == "" then [] else LinesOf(Split(s, "\n"))
  }

  predicate IsWhitespace(c: char) {
    c == ' ' || c == '\t' || c == '\n' || c == '\r' || c == 11 as char || c == 12 as char
  }

  /** Length of the run of non-whitespace characters that starts `s`. */
  function WordLength(s: string): (n: nat)
    ensures n <= |s|
    ensures forall k :: 0 <= k < n ==> !IsWhitespace(s[k])
    ensures n < |s| ==> IsWhitespace(s[n])
  {
    if s == [] || IsWhitespace(s[0]) then 0 else 1 + WordLength(s[1..])
  }

  /** `str::split_whitespace`: the maximal runs of non-whitespace characters. */
  function SplitWhitespace(s: string): (r: seq<string>)
    ensures forall k :: 0 <= k < |r| ==> |r[k]| > 0
    ensures forall k, j :: 0 <= k < |r| && 0 <= j < |r[k]| ==> !IsWhitespace(r[k][j])
    decreases |s|
  {
    if s == [] then []
    else if IsWhitespace(s[0]) then SplitWhitespace(s[1..])
    else
      var n := WordLength(s);
      [s[..n]] + SplitWhitespace(s[n..])
  }

  predicate IsDigit(c: char) {
    '0' <= c <= '9'
  }

  predicate AllDigits(s: string) {
    forall k :: 0 <= k < |s| ==> IsDigit(s[k])
  }

  /** Decimal value of a string of digits, most significant first. */
  function DigitsValue(s: string): nat
    requires AllDigits(s)
  {
    if s == [] then 0 else 10 * DigitsValue(s[..|s| - 1]) + (s[|s| - 1] as int - '0' as int)
  }

  /** Unsigned integer `parse` (`usize`, `u64`): an optional '+' and at least one digit. */
  function ParseUnsigned(s: string): (r: Option<nat>)
    ensures r.Some? <==> |s| > 0 && (if s[0] == '+' then |s| > 1 && AllDigits(s[1..]) else AllDigits(s))
  {
    var body := if |s| > 0 && s[0] == '+' then s[1..] else s;
    if |body| > 0 && AllDigits(body) then Some(DigitsValue(body)) else None
  }

  /** Signed integer `parse` (`i32`, `i64`): an optional '+' or '-' and at least one digit. */
  function ParseSigned(s: string): (r: Option<int>)
    ensures |s| > 0 && s[0] == '-' ==> r.Some? == ParseUnsigned("+" + s[1..]).Some?
    ensures |s| > 0 && s[0] == '-' && r.Some? ==> r.value + ParseUnsigned("+" + s[1..]).value == 0
    ensures !(|s| > 0 && s[0] == '-') ==> r.Some? == ParseUnsigned(s).Some?
    ensures !(|s| > 0 && s[0] == '-') && r.Some? ==> r.value == ParseUnsigned(s).value
  {
    if |s| > 0 && s[0] == '-' then
      var body := s[1..];
      if |body| > 0 && AllDigits(body) then Some((0 as int) - DigitsValue(body)) else None
    else
      match ParseUnsigned(s)
      case Some(n) => Some(n)
      case None => None
  }

  function DigitChar(d: nat): char
    requires d < 10
  {
    ('0' as int + d) as char
  }

  /** Decimal rendering of a natural number. */
  function ShowNat(n: nat): (s: string)
    ensures |s| > 0 && AllDigits(s)
  {
    if n < 10 then [DigitChar(n)] else ShowNat(n / 10) + [DigitChar(n % 10)]
  }

  lemma {:induction false} DigitsValueShowNat(n: nat)
    ensures DigitsValue(ShowNat(n)) == n
  {
    var s := ShowNat(n);
    if n >= 10 {
      DigitsValueShowNat(n / 10);
      assert s[..|s| - 1] == ShowNat(n / 10);
      assert s[|s| - 1] as int - '0' as int == n % 10;
    }
  }

  /** Rendering then parsing a natural number gives it back. */
  lemma ParseShowNat(n: nat)
    ensures ParseUnsigned(ShowNat(n)) == Some(n)
  {
    var s := ShowNat(n);
    DigitsValueShowNat(n);
    assert s[0] != '+' && AllDigits(s);
  }

  /** A one-character pattern that does not occur in `a` cannot start inside `a`. */
  lemma NoCharBefore(a: string, c: char, b: string)
    requires c !in a
    ensures forall i: nat :: i < |a| ==> !OccursAt(a + [c] + b, [c], i)
  {
    forall i: nat | i < |a|
      ensures !OccursAt(a + [c] + b, [c], i)
    {
      assert (a + [c] + b)[i] == a[i];
    }
  }

  /** In `a + [c] + b` with `c` not in `a`, the first `c` is the one right after `a`. */
  lemma FindCharAfter(a: string, c: char, b: string)
    requires c !in a
    ensures Find(a + [c] + b, [c]) == Some(|a|)
  {
    var s := a + [c] + b;
    assert OccursAt(s, [c], |a|) by {
      assert s[|a|..|a| + 1] == [c];
    }
    assert Contains(s, [c]);
    NoCharBefore(a, c, b);
  }

  lemma SplitCharAbsent(s: string, c: char)
    requires c !in s
    ensures Split(s, [c]) == [s]
  {
    forall i: nat | i <= |s|
      ensures !OccursAt(s, [c], i)
    {
      if i + 1 <= |s| {
        assert s[i..i + 1][0] == s[i];
      }
    }
  }

  lemma SplitCharAt(a: string, c: char, b: string)
    requires c !in a
    ensures Split(a + [c] + b, [c]) == [a] + Split(b, [c])
  {
    FindCharAfter(a, c, b);
    var s := a + [c] + b;
    assert s[..|a|] == a;
    assert s[|a| + 1..] == b;
  }

  /** A text without the pattern is a single piece. */
  lemma SplitAbsent(s: string, pat: string)
    requires |pat| > 0 && !Contains(s, pat)
    ensures Split(s, pat) == [s]
  {
  }

  /** In `a + pat + b`, where no occurrence of `pat` starts inside `a`, the
      first occurrence is right after `a`. */
  lemma FindAt(a: string, pat: string, b: string)
    requires forall i: nat :: i < |a| ==> !OccursAt(a + pat + b, pat, i)
    ensures Find(a + pat + b, pat) == Some(|a|)
  {
    var s := a + pat + b;
    assert OccursAt(s, pat, |a|) by {
      assert s[|a|..|a| + |pat|] == pat;
    }
    assert Contains(s, pat);
  }

  /** In `a + pat + b`, where no occurrence of `pat` starts inside `a`, the
      first piece is `a`. */
  lemma SplitAt(a: string, pat: string, b: string)
    requires |pat| > 0
    requires forall i: nat :: i < |a| ==> !OccursAt(a + pat + b, pat, i)
    ensures Split(a + pat + b, pat) == [a] + Split(b, pat)
  {
    var s := a + pat + b;
    FindAt(a, pat, b);
    assert s[..|a|] == a;
    assert s[|a| + |pat|..] == b;
  }

  /** A pattern cannot start inside a text that lacks its first character. */
  lemma NoneBefore(a: string, pat: string, b: string)
    requires |pat| > 0 && pat[0] !in a
    ensures forall i: nat :: i < |a| ==> !OccursAt(a + pat + b, pat, i)
  {
    var s := a + pat + b;
    forall i: nat | i < |a|
      ensures !OccursAt(s, pat, i)
    {
      if i + |pat| <= |s| {
        assert s[i..i + |pat|][0] == s[i] == a[i];
      }
    }
  }

  /** Splitting pieces joined by a pattern whose first character none of them
      holds gives the pieces back. */
  lemma {:induction false} SplitJoin(pieces: seq<string>, pat: string)
    requires |pieces| >= 1 && |pat| > 0
    requires forall k :: 0 <= k < |pieces| ==> pat[0] !in pieces[k]
    ensures Split(Join(pieces, pat), pat) == pieces
    decreases |pieces|
  {
    if |pieces| == 1 {
      AbsentFirst(pieces[0], pat);
      SplitAbsent(pieces[0], pat);
    } else {
      SplitJoin(pieces[1..], pat);
      NoneBefore(pieces[0], pat, Join(pieces[1..], pat));
      SplitAt(pieces[0], pat, Join(pieces[1..], pat));
      assert pieces == [pieces[0]] + pieces[1..];
    }
  }

  /** A character none of the pieces holds is not in their join, unless it is
      the separator. */
  lemma {:induction false} JoinAbsent(pieces: seq<string>, sep: char, c: char)
    requires c != sep && forall k :: 0 <= k < |pieces| ==> c !in pieces[k]
    ensures c !in Join(pieces, [sep])
    decreases |pieces|
  {
    if |pieces| > 1 {
      JoinAbsent(pieces[1..], sep, c);
    }
  }

  /** Joining pieces, the first of which is not empty, gives a non-empty text. */
  lemma JoinNonEmpty(pieces: seq<string>, sep: string)
    requires |pieces| > 0 && pieces[0] != ""
    ensures Join(pieces, sep) != ""
  {
  }

  /** A pattern whose first character is missing from `s` does not occur in it. */
  lemma AbsentFirst(s: string, pat: string)
    requires |pat| > 0 && pat[0] !in s
    ensures !Contains(s, pat)
  {
  }

  /** A text without '\n' is a single line. */
  lemma LinesOne(s: string)
    requires s != "" && '\n' !in s
    ensures Lines(s) == [s]
  {
    SplitCharAbsent(s, '\n');
  }

  /** The first line of a text and the lines of the rest. */
  lemma LinesCons(a: string, b: string)
    requires '\n' !in a && b != ""
    ensures Lines(a + "\n" + b) == [StripCarriageReturn(a)] + Lines(b)
  {
    SplitCharAt(a, '\n', b);
    var pieces := [a] + Split(b, "\n");
    assert pieces[1..] == Split(b, "\n");
  }

  /** Lines joined with line feeds, none of them empty, holding a line
      feed or ending in a carriage return, split back into the same lines. */
  lemma {:induction false} LinesJoin(pieces: seq<string>)
    requires |pieces| >= 1
    requires forall k :: 0 <= k < |pieces| ==> pieces[k] != "" && '\n' !in pieces[k]
    requires forall k :: 0 <= k < |pieces| ==> pieces[k][|pieces[k]| - 1] != '\r'
    ensures Lines(Join(pieces, "\n")) == pieces
    decreases |pieces|
  {
    if |pieces| == 1 {
      LinesOne(pieces[0]);
    } else {
      LinesJoin(pieces[1..]);
      LinesCons(pieces[0], Join(pieces[1..], "\n"));
      assert pieces == [pieces[0]] + pieces[1..];
    }
  }

  /** A final '\n' does not start an empty line. */
  lemma LinesLast(a: string)
    requires '\n' !in a
    ensures Lines(a + "\n") == [StripCarriageReturn(a)]
  {
    SplitCharAt(a, '\n', "");
    SplitCharAbsent("", '\n');
    assert a + "\n" + "" == a + "\n";
    var pieces := [a] + [""];
    assert Split(a + "\n", "\n") == pieces;
    assert pieces[1..] == [""];
    assert LinesOf(pieces) == [StripCarriageReturn(a)] + LinesOf([""]);
  }

  /** Every line parsed as a signed integer, as `parse().unwrap()` over all lines does. */
  function ParseAllSigned(lines: seq<string>): (r: seq<int>)
    requires forall i :: 0 <= i < |lines| ==> ParseSigned(lines[i]).Some?
    ensures |r| == |lines|
    ensures forall i :: 0 <= i < |lines| ==> r[i] == ParseSigned(lines[i]).value
  {
    seq(|lines|, i requires 0 <= i < |lines| => ParseSigned(lines[i]).value)
  }

  /** A signed integer written with an explicit sign, as puzzle inputs write them. */
  function ShowSigned(v: int): (s: string)
    ensures |s| > 1 && (s[0] == '+' || s[0] == '-') && AllDigits(s[1..])
  {
    if v < 0 then "-" + ShowNat(-v) else "+" + ShowNat(v)
  }

  /** Writing a signed integer with its sign and parsing it gives it back. */
  lemma ParseShowSigned(v: int)
    ensures ParseSigned(ShowSigned(v)) == Some(v)
  {
    var s := ShowSigned(v);
    if v < 0 {
      assert s[1..] == ShowNat(-v);
      DigitsValueShowNat(-v);
    } else {
      assert s[1..] == ShowNat(v);
      DigitsValueShowNat(v);
    }
  }

  /** A signed integer as `Display` writes it: a '-' only when negative. */
  function ShowInt(v: int): (s: string)
    ensures |s| > 0 && IsDigit(s[|s| - 1])
  {
    if v < 0 then "-" + ShowNat(-v) else ShowNat(v)
  }

  /** Writing a signed integer and parsing it gives it back. */
  lemma ParseShowInt(v: int)
    ensures ParseSigned(ShowInt(v)) == Some(v)
  {
    var s := ShowInt(v);
    if v < 0 {
      assert s[1..] == ShowNat(-v);
      DigitsValueShowNat(-v);
    } else {
      ParseShowNat(v);
      assert s[0] != '-' by {
        assert IsDigit(s[0]);
      }
    }
  }

  /** A number as `Display` writes it holds only digits and a sign. */
  lemma ShowIntChars(v: int, c: char)
    requires !IsDigit(c) && c != '-'
    ensures c !in ShowInt(v)
  {
    var s := ShowInt(v);
    if v >= 0 {
      assert AllDigits(s);
    } else {
      assert AllDigits(s[1..]);
      forall k | 0 <= k < |s|
        ensures s[k] != c
      {
        if k > 0 {
          assert s[k] == s[1..][k - 1];
        }
      }
    }
  }

  /** Numbers as `Display` writes them, in order. */
  function ShowInts(v: seq<int>): (r: seq<string>)
    ensures |r| == |v|
    ensures forall k {:trigger r[k]} :: 0 <= k < |r| ==> r[k] == ShowInt(v[k])
  {
    seq(|v|, k requires 0 <= k < |v| => ShowInt(v[k]))
  }

  /** `str::starts_with`. */
  predicate StartsWith(s: string, prefix: string) {
    |prefix| <= |s| && s[..|prefix|] == prefix
  }

  /** `str::ends_with`. */
  predicate EndsWith(s: string, suffix: string) {
    |suffix| <= |s| && s[|s| - |suffix|..] == suffix
  }

  /** A word followed by a whitespace character is the first piece of `split_whitespace`. */
  lemma SplitWhitespaceCons(a: string, sep: char, b: string)
    requires a != [] && IsWhitespace(sep)
    requires forall k :: 0 <= k < |a| ==> !IsWhitespace(a[k])
    ensures SplitWhitespace(a + [sep] + b) == [a] + SplitWhitespace(b)
  {
    var s := a + [sep] + b;
    var n := WordLength(s);
    assert forall k :: 0 <= k < |a| ==> s[k] == a[k];
    assert s[|a|] == sep;
    assert n == |a|;
    assert s[..n] == a;
    assert s[n..] == [sep] + b;
    assert ([sep] + b)[1..] == b;
  }

  /** A single word is the only piece of `split_whitespace`. */
  lemma SplitWhitespaceOne(a: string)
    requires a != []
    requires forall k :: 0 <= k < |a| ==> !IsWhitespace(a[k])
    ensures SplitWhitespace(a) == [a]
  {
    var n := WordLength(a);
    assert n == |a|;
    assert a[..n] == a && a[n..] == [];
    assert SplitWhitespace(a) == [a[..n]] + SplitWhitespace(a[n..]);
  }

  /** A text with no blank line inside: no two line feeds in a row. */
  predicate NoBlankLine(g: string) {
    forall k :: 0 <= k < |g| - 1 ==> !(g[k] == '\n' && g[k + 1] == '\n')
  }

  /** A text without a blank line that does not end in a line feed is
      separated from what follows by the first blank line after it. */
  lemma SplitGroup(a: string, b: string)
    requires NoBlankLine(a) && (|a| == 0 || a[|a| - 1] != '\n')
    ensures Split(a + "\n\n" + b, "\n\n") == [a] + Split(b, "\n\n")
  {
    var s := a + "\n\n" + b;
    forall i: nat | i < |a|
      ensures !OccursAt(s, "\n\n", i)
    {
      if i + 2 <= |s| {
        assert s[i..i + 2][0] == s[i] == a[i];
        assert s[i..i + 2][1] == s[i + 1];
        if i + 1 < |a| {
          assert s[i + 1] == a[i + 1];
        }
      }
    }
    SplitAt(a, "\n\n", b);
  }

  /** A text without a blank line is one piece when split at blank lines. */
  lemma SplitLastGroup(a: string)
    requires NoBlankLine(a)
    ensures Split(a, "\n\n") == [a]
  {
    forall i: nat | i <= |a|
      ensures !OccursAt(a, "\n\n", i)
    {
      if i + 2 <= |a| {
        assert a[i..i + 2][0] == a[i];
        assert a[i..i + 2][1] == a[i + 1];
      }
    }
    SplitAbsent(a, "\n\n");
  }

  /** Texts written one after the other, separated by blank lines, split
      back into the same texts. */
  lemma {:induction false} SplitJoinGroups(groups: seq<string>)
    requires |groups| >= 1
    requires forall k :: 0 <= k < |groups| ==> NoBlankLine(groups[k])
    requires forall k :: 0 <= k < |groups| - 1 ==> |groups[k]| == 0 || groups[k][|groups[k]| - 1] != '\n'
    ensures Split(Join(groups, "\n\n"), "\n\n") == groups
    decreases |groups|
  {
    if |groups| == 1 {
      SplitLastGroup(groups[0]);
    } else {
      SplitJoinGroups(groups[1..]);
      SplitGroup(groups[0], Join(groups[1..], "\n\n"));
      assert groups == [groups[0]] + groups[1..];
    }
  }
}
