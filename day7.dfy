/** `day7.rs`: the luggage rules, one per line, such as
    `light red bags contain 1 bright white bag, 2 muted yellow bags`. A rule
    names the bag that owns the contents and, for each content, a quantity and
    a bag descriptor. The module's own `split_tuple_2` is the one of `util.rs`,
    modelled by `Util.SplitTuple2`. */
module Day7 {
  import opened Results
  import opened Text
  import opened Util

  /** `Descriptor`: the colour words of a bag, such as `light red`. */
  datatype Descriptor = Descriptor(name: string)

  /** `Rule`: the owning bag and its contents, each a quantity and a bag. */
  datatype Rule = Rule(owner: Descriptor, contents: seq<(nat, Descriptor)>)

  /** `Descriptor::parse`: the text before the first ` bag`, which must be
      followed by nothing or by `s`. */
  function ParseDescriptor(s: string): (r: Result<Descriptor>)
    ensures r.Ok? ==> s == r.value.name + " bag" || s == r.value.name + " bags"
    ensures r.Ok? ==> !Contains(r.value.name, " bag")
    ensures !Contains(s, " bag") ==> r.Err?
  {
    match Find(s, " bag")
    case None => Err
    case Some(end) =>
      PrefixBeforeFirst(s, " bag", end);
      assert s == s[..end] + " bag" + s[end + 4..] by {
        assert s[end..end + 4] == " bag";
      }
      var rest := s[end + 4..];
      if rest == "" || rest == "s" then Ok(Descriptor(s[..end])) else Err
  }

  /** A descriptor written with its bag word, singular or plural. */
  function ShowDescriptor(d: Descriptor, plural: bool): string {
    d.name + (if plural then " bags" else " bag")
  }

  /** ` bag` cannot start inside a descriptor that does not hold it: its only
      space is its first character, so it cannot straddle the end either. */
  lemma NoBagBefore(d: string, rest: string)
    requires !Contains(d, " bag")
    ensures forall i: nat :: i < |d| ==> !OccursAt(d + " bag" + rest, " bag", i)
  {
    var s := d + " bag" + rest;
    forall i: nat | i < |d|
      ensures !OccursAt(s, " bag", i)
    {
      if i + 4 <= |d| {
        assert s[i..i + 4] == d[i..i + 4];
        assert !OccursAt(d, " bag", i);
      } else if i + 4 <= |s| {
        var m := |d| - i;
        assert s[i..i + 4][m] == s[|d|] == ' ';
        assert " bag"[m] != ' ';
      }
    }
  }

  /** A descriptor followed by ` bag` and a remainder parses exactly when the
      remainder is empty or `s`: so `bag` and `bags` parse and `bags.` does not. */
  lemma ParseDescriptorOf(d: string, suffix: string)
    requires !Contains(d, " bag")
    ensures ParseDescriptor(d + " bag" + suffix) == (if suffix == "" || suffix == "s" then Ok(Descriptor(d)) else Err)
  {
    var s := d + " bag" + suffix;
    NoBagBefore(d, suffix);
    FindAt(d, " bag", suffix);
    assert s[..|d|] == d;
    assert s[|d| + 4..] == suffix;
  }

  /** Writing a descriptor and parsing it gives it back. */
  lemma ParseShowDescriptor(d: Descriptor, plural: bool)
    requires !Contains(d.name, " bag")
    ensures ParseDescriptor(ShowDescriptor(d, plural)) == Ok(d)
  {
    if plural {
      ParseDescriptorOf(d.name, "s");
      assert d.name + " bag" + "s" == ShowDescriptor(d, plural);
    } else {
      ParseDescriptorOf(d.name, "");
      assert d.name + " bag" + "" == ShowDescriptor(d, plural);
    }
  }

  /** `asdf bag` and `asdf bags` both name `asdf`; `asdf bags.` is rejected. */
  lemma ParseDescriptorExamples(d: string)
    requires d == "asdf"
    ensures ParseDescriptor(d + " bag") == Ok(Descriptor("asdf"))
    ensures ParseDescriptor(d + " bags") == Ok(Descriptor("asdf"))
    ensures ParseDescriptor(d + " bags.") == Err
  {
    AbsentFirst(d, " bag");
    ParseDescriptorOf(d, "");
    assert d + " bag" + "" == d + " bag";
    ParseDescriptorOf(d, "s");
    assert d + " bag" + "s" == d + " bags";
    ParseDescriptorOf(d, "s.");
    assert d + " bag" + "s." == d + " bags.";
  }

  /** One content of a rule, `<quantity> <descriptor>`: split at the first
      space, the quantity parsed as an unsigned number. */
  function ParseContent(c: string): (r: Result<(nat, Descriptor)>)
    ensures !Contains(c, " ") ==> r.Err?
    ensures r.Ok? ==> exists q: string ::
      (' ' !in q && ParseUnsigned(q) == Some(r.value.0) &&
       (c == q + " " + ShowDescriptor(r.value.1, false) || c == q + " " + ShowDescriptor(r.value.1, true)))
  {
    match SplitTuple2(c, " ")
    case None => Err
    case Some((qty, rest)) =>
      SplitTuple2First(c, " ");
      AbsentChar(qty, ' ');
      match ParseUnsigned(qty)
      case None => Err
      case Some(n) =>
        match ParseDescriptor(rest)
        case Err => Err
        case Ok(d) =>
          assert ShowDescriptor(d, false) == d.name + " bag" && ShowDescriptor(d, true) == d.name + " bags";
          Ok((n, d))
  }

  /** A text without a one-character pattern holds no such character. */
  lemma AbsentChar(s: string, c: char)
    requires !Contains(s, [c])
    ensures c !in s
  {
    forall i | 0 <= i < |s|
      ensures s[i] != c
    {
      assert s[i..i + 1] == [s[i]];
      assert !OccursAt(s, [c], i);
    }
  }

  /** A content whose quantity is not a number is an error. */
  lemma ParseContentBadQuantity(q: string, rest: string)
    requires ' ' !in q && ParseUnsigned(q).None?
    ensures ParseContent(q + " " + rest) == Err
  {
    SplitTuple2At(q, " ", rest);
  }

  /** A content as the rules write it: singular for one bag. */
  function ShowContent(content: (nat, Descriptor)): string {
    ShowNat(content.0) + " " + ShowDescriptor(content.1, content.0 != 1)
  }

  lemma ShowNatNoSpace(n: nat)
    ensures ' ' !in ShowNat(n) && ',' !in ShowNat(n)
  {
    var s := ShowNat(n);
    assert AllDigits(s);
  }

  /** Writing a content and parsing it gives it back. */
  lemma ParseShowContent(content: (nat, Descriptor))
    requires !Contains(content.1.name, " bag")
    ensures ParseContent(ShowContent(content)) == Ok(content)
  {
    var rest := ShowDescriptor(content.1, content.0 != 1);
    ShowNatNoSpace(content.0);
    SplitTuple2At(ShowNat(content.0), " ", rest);
    ParseShowNat(content.0);
    ParseShowDescriptor(content.1, content.0 != 1);
  }

  /** `Rule::parse`: the owner before ` contain `, then the contents separated
      by `, `; an error when ` contain ` is missing or any part fails. */
  function ParseRule(s: string): (r: Result<Rule>)
    ensures !Contains(s, " contain ") ==> r.Err?
    ensures r.Ok? ==> SplitTuple2(s, " contain ").Some?
    ensures r.Ok? ==> ParseDescriptor(SplitTuple2(s, " contain ").value.0) == Ok(r.value.owner)
  {
    match SplitTuple2(s, " contain ")
    case None => Err
    case Some((head, tail)) =>
      var owner :- ParseDescriptor(head);
      var items := Split(tail, ", ");
      if AllOk(ParseContent, items) then Ok(Rule(owner, CollectOk(ParseContent, items))) else Err
  }

  /** The contents of a parsed rule are the parsed items after ` contain `,
      one per `, `-separated item, in order. */
  lemma ParseRuleContents(s: string)
    requires ParseRule(s).Ok?
    ensures |ParseRule(s).value.contents| == |Split(SplitTuple2(s, " contain ").value.1, ", ")|
    ensures forall k :: 0 <= k < |ParseRule(s).value.contents| ==>
                        ParseContent(Split(SplitTuple2(s, " contain ").value.1, ", ")[k]) == Ok(ParseRule(s).value.contents[k])
  {
  }

  /** A descriptor the rules can hold without confusing the parser: no bag
      word, no ` contain`, no comma. */
  predicate Plain(d: Descriptor) {
    !Contains(d.name, " bag") && !Contains(d.name, " contain") && ',' !in d.name
  }

  /** The contents of a rule, each as the rules write it. */
  function ShowContents(contents: seq<(nat, Descriptor)>): (r: seq<string>)
    ensures |r| == |contents|
    ensures forall k {:trigger r[k]} :: 0 <= k < |r| ==> r[k] == ShowContent(contents[k])
  {
    seq(|contents|, k requires 0 <= k < |contents| => ShowContent(contents[k]))
  }

  /** A rule as the puzzle writes it. */
  function ShowRule(r: Rule): string {
    ShowDescriptor(r.owner, true) + " contain " + Join(ShowContents(r.contents), ", ")
  }

  /** Written contents of plain descriptors split back at `, ` and parse
      back to the contents. */
  lemma ParseShowContents(contents: seq<(nat, Descriptor)>)
    requires |contents| > 0
    requires forall k :: 0 <= k < |contents| ==> Plain(contents[k].1)
    ensures Split(Join(ShowContents(contents), ", "), ", ") == ShowContents(contents)
    ensures AllOk(ParseContent, ShowContents(contents))
    ensures CollectOk(ParseContent, ShowContents(contents)) == contents
  {
    var items := ShowContents(contents);
    forall k | 0 <= k < |items|
      ensures ',' !in items[k] && ParseContent(items[k]) == Ok(contents[k])
    {
      ContentItem(contents[k]);
    }
    SplitJoin(items, ", ");
  }

  lemma ContentItem(content: (nat, Descriptor))
    requires Plain(content.1)
    ensures ',' !in ShowContent(content) && ParseContent(ShowContent(content)) == Ok(content)
  {
    ShowNatNoSpace(content.0);
    var suffix := if content.0 != 1 then " bags" else " bag";
    assert ShowContent(content) == ShowNat(content.0) + " " + content.1.name + suffix;
    assert ',' !in suffix && ',' !in " ";
    ParseShowContent(content);
  }

  /** ` contain ` cannot start inside `<owner> bags`. */
  lemma NoContainBefore(d: Descriptor, rest: string)
    requires Plain(d)
    ensures forall i: nat :: i < |ShowDescriptor(d, true)| ==>
      !OccursAt(ShowDescriptor(d, true) + " contain " + rest, " contain ", i)
  {
    var head := ShowDescriptor(d, true);
    var s := head + " contain " + rest;
    var n := |d.name|;
    assert head == d.name + " bags";
    forall i: nat | i < |head|
      ensures !OccursAt(s, " contain ", i)
    {
      if i + 9 <= |s| {
        if i + 8 <= n {
          ContainInside(d.name, s, i);
        } else if i < n {
          SpaceInside(s, n, i);
        } else if i == n {
          assert s[i..i + 9][1] == s[n + 1] == 'b';
        } else {
          assert s[i..i + 9][0] == s[i] == head[i];
          assert head[i] != ' ';
        }
      }
    }
  }

  lemma ContainInside(name: string, s: string, i: nat)
    requires i + 8 <= |name| <= |s| && s[..|name|] == name && !Contains(name, " contain")
    ensures !OccursAt(s, " contain ", i)
  {
    assert !OccursAt(name, " contain", i);
    if i + 9 <= |s| {
      assert s[i..i + 9][..8] == name[i..i + 8];
      assert " contain "[..8] == " contain";
    }
  }

  lemma SpaceInside(s: string, n: nat, i: nat)
    requires i < n < i + 8 && i + 9 <= |s| && s[n] == ' '
    ensures !OccursAt(s, " contain ", i)
  {
    var m := n - i;
    assert s[i..i + 9][m] == ' ';
    assert " contain "[m] != ' ';
  }

  /** Writing a rule of plain descriptors, with at least one content, and
      parsing it gives the rule back. */
  lemma ParseShowRule(r: Rule)
    requires Plain(r.owner) && |r.contents| > 0
    requires forall k :: 0 <= k < |r.contents| ==> Plain(r.contents[k].1)
    ensures ParseRule(ShowRule(r)) == Ok(r)
  {
    var head := ShowDescriptor(r.owner, true);
    var tail := Join(ShowContents(r.contents), ", ");
    NoContainBefore(r.owner, tail);
    SplitTuple2Of(head, " contain ", tail);
    ParseShowDescriptor(r.owner, true);
    ParseShowContents(r.contents);
  }

  /** A rule without ` contain ` is rejected. */
  lemma ParseRuleWithoutContain(s: string)
    requires !Contains(s, " contain ")
    ensures ParseRule(s) == Err
  {
  }

  /** `owner bags contain 1 asdf bag, 2 jkl; bags` names the owner `owner`
      and holds one `asdf` and two `jkl;`. */
  lemma ParseRuleExample(r: Rule)
    requires r == Rule(Descriptor("owner"), [(1, Descriptor("asdf")), (2, Descriptor("jkl;"))])
    ensures ShowRule(r) == "owner bags contain 1 asdf bag, 2 jkl; bags"
    ensures ParseRule(ShowRule(r)) == Ok(r)
  {
    ExampleRuleText(r);
    PlainWithoutSpace(r.owner);
    PlainWithoutSpace(r.contents[0].1);
    PlainWithoutSpace(r.contents[1].1);
    ParseShowRule(r);
  }

  lemma ExampleRuleText(r: Rule)
    requires r == Rule(Descriptor("owner"), [(1, Descriptor("asdf")), (2, Descriptor("jkl;"))])
    ensures ShowRule(r) == "owner bags contain 1 asdf bag, 2 jkl; bags"
  {
    ExampleRuleHead(r);
    ExampleRuleTail(r);
    var head := ShowDescriptor(r.owner, true) + " contain ";
    var tail := Join(ShowContents(r.contents), ", ");
    assert ShowRule(r) == head + tail;
  }

  lemma ExampleRuleHead(r: Rule)
    requires r.owner == Descriptor("owner")
    ensures ShowDescriptor(r.owner, true) + " contain " == "owner bags contain "
  {
  }

  lemma ExampleRuleTail(r: Rule)
    requires r.contents == [(1, Descriptor("asdf")), (2, Descriptor("jkl;"))]
    ensures Join(ShowContents(r.contents), ", ") == "1 asdf bag, 2 jkl; bags"
  {
    var first, second := ShowContent(r.contents[0]), ShowContent(r.contents[1]);
    ExampleContent(r.contents[0], 1, "asdf", "1 asdf bag");
    ExampleContent(r.contents[1], 2, "jkl;", "2 jkl; bags");
    var items := ShowContents(r.contents);
    assert items == [first, second];
    JoinTwo(first, second, ", ");
  }

  lemma ExampleContent(c: (nat, Descriptor), n: nat, name: string, text: string)
    requires c == (n, Descriptor(name))
    requires (n == 1 && name == "asdf" && text == "1 asdf bag") || (n == 2 && name == "jkl;" && text == "2 jkl; bags")
    ensures ShowContent(c) == text
  {
    assert ShowNat(1) == "1" && ShowNat(2) == "2";
  }

  lemma JoinTwo(a: string, b: string, sep: string)
    ensures Join([a, b], sep) == a + sep + b
  {
    assert [a, b][1..] == [b];
  }

  /** A descriptor without spaces or commas is plain. */
  lemma PlainWithoutSpace(d: Descriptor)
    requires ' ' !in d.name && ',' !in d.name
    ensures Plain(d)
  {
    AbsentFirst(d.name, " bag");
    AbsentFirst(d.name, " contain");
  }
}
