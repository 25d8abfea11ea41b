/** `day4.rs`: passport records made of `key:value` fields, the rule that a
    record holds every field kind once (the country id being optional), and
    the per-field content rules. The source's `i32`/`i64` values are
    unbounded integers here. */
module Day4 {
  import opened Results
  import opened Text
  import opened Util

  datatype Length = Centimetre(cm: int) | Inch(inches: int) | Unknown(amount: int)

  datatype Field =
    | BirthYear(year: int)
    | IssueYear(year: int)
    | ExpirationYear(year: int)
    | Height(height: Length)
    | HairColour(colour: string)
    | EyeColour(colour: string)
    | PassportId(id: string)
    | CountryId(country: int)

  /** `std::mem::discriminant` of a field: which of the eight kinds it is. */
  datatype FieldKind = Byr | Iyr | Eyr | Hgt | Hcl | Ecl | Pid | Cid

  function KindOf(f: Field): FieldKind {
    match f
    case BirthYear(_) => Byr
    case IssueYear(_) => Iyr
    case ExpirationYear(_) => Eyr
    case Height(_) => Hgt
    case HairColour(_) => Hcl
    case EyeColour(_) => Ecl
    case PassportId(_) => Pid
    case CountryId(_) => Cid
  }

  /** The key that introduces each field kind. */
  function Key(k: FieldKind): string {
    match k
    case Byr => "byr"
    case Iyr => "iyr"
    case Eyr => "eyr"
    case Hgt => "hgt"
    case Hcl => "hcl"
    case Ecl => "ecl"
    case Pid => "pid"
    case Cid => "cid"
  }

  /** `str::parse` of an integer, as a `Result`. */
  function Number(s: string): (r: Result<int>)
    ensures r.Ok? <==> ParseSigned(s).Some?
    ensures r.Ok? ==> ParseSigned(s) == Some(r.value)
  {
    match ParseSigned(s)
    case None => Err
    case Some(v) => Ok(v)
  }

  /** `Length::from_str`: a `cm` suffix is tried before an `in` suffix; a text
      with neither is a bare number; the number must parse in every case. */
  function ParseLength(s: string): (r: Result<Length>)
    ensures EndsWith(s, "cm") ==>
      (r.Ok? <==> ParseSigned(s[..|s| - 2]).Some?) &&
      (r.Ok? ==> r.value == Centimetre(ParseSigned(s[..|s| - 2]).value))
    ensures !EndsWith(s, "cm") && EndsWith(s, "in") ==>
      (r.Ok? <==> ParseSigned(s[..|s| - 2]).Some?) &&
      (r.Ok? ==> r.value == Inch(ParseSigned(s[..|s| - 2]).value))
    ensures !EndsWith(s, "cm") && !EndsWith(s, "in") ==>
      (r.Ok? <==> ParseSigned(s).Some?) &&
      (r.Ok? ==> r.value == Unknown(ParseSigned(s).value))
  {
    if EndsWith(s, "cm") then
      var v :- Number(s[..|s| - 2]);
      Ok(Centimetre(v))
    else if EndsWith(s, "in") then
      var v :- Number(s[..|s| - 2]);
      Ok(Inch(v))
    else
      var v :- Number(s);
      Ok(Unknown(v))
  }

  function FormatLength(l: Length): string {
    match l
    case Centimetre(v) => ShowInt(v) + "cm"
    case Inch(v) => ShowInt(v) + "in"
    case Unknown(v) => ShowInt(v)
  }

  /** Every length survives being written and parsed back; in particular a
      bare number is never mistaken for one with a unit. */
  lemma ParseFormatLength(l: Length)
    ensures ParseLength(FormatLength(l)) == Ok(l)
  {
    var s := FormatLength(l);
    match l
    case Centimetre(v) =>
      assert s[..|s| - 2] == ShowInt(v);
      ParseShowInt(v);
    case Inch(v) =>
      assert s[..|s| - 2] == ShowInt(v);
      assert s[|s| - 1] == 'n' != 'm';
      ParseShowInt(v);
    case Unknown(v) =>
      assert IsDigit(s[|s| - 1]);
      ParseShowInt(v);
  }

  /** The field kind a key selects; any other key selects none. */
  function KindOfKey(key: string): (r: Option<FieldKind>)
    ensures r.Some? ==> Key(r.value) == key
  {
    if key == "byr" then Some(Byr)
    else if key == "iyr" then Some(Iyr)
    else if key == "eyr" then Some(Eyr)
    else if key == "hgt" then Some(Hgt)
    else if key == "hcl" then Some(Hcl)
    else if key == "ecl" then Some(Ecl)
    else if key == "pid" then Some(Pid)
    else if key == "cid" then Some(Cid)
    else None
  }

  /** Each kind's key selects that kind again. */
  lemma KindOfKeyInverse(k: FieldKind)
    ensures KindOfKey(Key(k)) == Some(k)
  {
  }

  /** The field of kind `k` read from its value text: the years, the height and
      the country id must parse as numbers, the three texts are kept as they are. */
  function FieldOfKind(k: FieldKind, value: string): (r: Result<Field>)
    ensures r.Ok? ==> KindOf(r.value) == k
  {
    match k
    case Byr => var v :- Number(value); Ok(BirthYear(v))
    case Iyr => var v :- Number(value); Ok(IssueYear(v))
    case Eyr => var v :- Number(value); Ok(ExpirationYear(v))
    case Hgt => var l :- ParseLength(value); Ok(Height(l))
    case Hcl => Ok(HairColour(value))
    case Ecl => Ok(EyeColour(value))
    case Pid => Ok(PassportId(value))
    case Cid => var v :- Number(value); Ok(CountryId(v))
  }

  /** The field for a key and its value text, or an error for an unknown key
      or a value that does not parse. */
  function FieldFor(key: string, value: string): (r: Result<Field>)
    ensures KindOfKey(key).None? ==> r.Err?
    ensures r.Ok? ==> Key(KindOf(r.value)) == key
  {
    match KindOfKey(key)
    case None => Err
    case Some(k) => FieldOfKind(k, value)
  }

  /** `Field::from_str`: the key before the first ':' selects the field; a text
      without ':' or with an unknown key is an error. */
  function ParseField(s: string): (r: Result<Field>)
    ensures !Contains(s, ":") ==> r.Err?
    ensures r.Ok? ==> SplitTuple2(s, ":").Some? && Key(KindOf(r.value)) == SplitTuple2(s, ":").value.0
  {
    match SplitTuple2(s, ":")
    case None => Err
    case Some((key, value)) => FieldFor(key, value)
  }

  /** The value text of a field, as the input writes it. */
  function ValueText(f: Field): string {
    match f
    case BirthYear(v) => ShowInt(v)
    case IssueYear(v) => ShowInt(v)
    case ExpirationYear(v) => ShowInt(v)
    case Height(l) => FormatLength(l)
    case HairColour(c) => c
    case EyeColour(c) => c
    case PassportId(id) => id
    case CountryId(v) => ShowInt(v)
  }

  function FormatField(f: Field): string {
    Key(KindOf(f)) + ":" + ValueText(f)
  }

  /** The value text of a field, read under the field's own key, gives the field back. */
  /** A number written out is read back by every numeric field. */
  lemma NumericFieldsValue(v: int)
    ensures FieldOfKind(Byr, ShowInt(v)) == Ok(BirthYear(v))
    ensures FieldOfKind(Iyr, ShowInt(v)) == Ok(IssueYear(v))
    ensures FieldOfKind(Eyr, ShowInt(v)) == Ok(ExpirationYear(v))
    ensures FieldOfKind(Cid, ShowInt(v)) == Ok(CountryId(v))
  {
    ParseShowInt(v);
    assert Number(ShowInt(v)) == Ok(v);
  }

  lemma HeightValue(l: Length)
    ensures FieldOfKind(Hgt, FormatLength(l)) == Ok(Height(l))
  {
    ParseFormatLength(l);
  }

  lemma FieldOfKindValue(f: Field)
    ensures FieldOfKind(KindOf(f), ValueText(f)) == Ok(f)
  {
    match f
    case BirthYear(v) => NumericFieldsValue(v);
    case IssueYear(v) => NumericFieldsValue(v);
    case ExpirationYear(v) => NumericFieldsValue(v);
    case CountryId(v) => NumericFieldsValue(v);
    case Height(l) => HeightValue(l);
    case HairColour(_) =>
    case EyeColour(_) =>
    case PassportId(_) =>
  }

  lemma FieldForValue(f: Field)
    ensures FieldFor(Key(KindOf(f)), ValueText(f)) == Ok(f)
  {
    KindOfKeyInverse(KindOf(f));
    FieldOfKindValue(f);
  }

  /** Every field survives being written as `key:value` and parsed back,
      whatever its string value holds (colons included). */
  lemma ParseFormatField(f: Field)
    ensures ParseField(FormatField(f)) == Ok(f)
  {
    var key, value := Key(KindOf(f)), ValueText(f);
    assert ':' !in key;
    NoCharBefore(key, ':', value);
    SplitTuple2Of(key, ":", value);
    FieldForValue(f);
  }

  /** Every word parsed as a field; any word that fails makes the whole list
      an error. */
  function ParseFields(words: seq<string>): (r: Result<seq<Field>>)
    ensures r.Ok? <==> AllOk(ParseField, words)
    ensures r.Ok? ==> |r.value| == |words| && forall i :: 0 <= i < |words| ==> ParseField(words[i]) == Ok(r.value[i])
  {
    if AllOk(ParseField, words) then Ok(CollectOk(ParseField, words)) else Err
  }

  /** `Record::from_str`: the whitespace-separated fields of a record. */
  function ParseRecord(s: string): Result<seq<Field>> {
    ParseFields(SplitWhitespace(s))
  }

  /** The kinds of the fields of a record. */
  function Kinds(fields: seq<Field>): set<FieldKind> {
    set f | f in fields :: KindOf(f)
  }

  lemma KindsAppend(fields: seq<Field>, f: Field)
    ensures Kinds(fields + [f]) == Kinds(fields) + {KindOf(f)}
  {
    assert forall g :: g in fields + [f] <==> g in fields || g == f;
  }

  lemma KindsCons(fields: seq<Field>)
    requires fields != []
    ensures Kinds(fields) == {KindOf(fields[0])} + Kinds(fields[1..])
  {
    assert fields == [fields[0]] + fields[1..];
  }

  const AllKinds: set<FieldKind> := {Byr, Iyr, Eyr, Hgt, Hcl, Ecl, Pid, Cid}
  const RequiredKinds: set<FieldKind> := {Byr, Iyr, Eyr, Hgt, Hcl, Ecl, Pid}

  /** `Record::is_valid`: as many distinct kinds as fields, and either all eight
      kinds or seven with only the country id missing. */
  predicate RecordValid(fields: seq<Field>) {
    var kinds := Kinds(fields);
    |kinds| == |fields| && (|kinds| == 8 || (|kinds| == 7 && Cid !in kinds))
  }

  /** No two fields of the record are of the same kind. */
  predicate DistinctKinds(fields: seq<Field>) {
    forall i, j :: 0 <= i < j < |fields| ==> KindOf(fields[i]) != KindOf(fields[j])
  }

  /** The kinds are distinct exactly when the first kind does not recur and the
      rest are distinct. */
  lemma DistinctCons(fields: seq<Field>)
    requires fields != []
    ensures DistinctKinds(fields) <==>
      KindOf(fields[0]) !in Kinds(fields[1..]) && DistinctKinds(fields[1..])
  {
    var rest := fields[1..];
    assert forall i :: 0 <= i < |rest| ==> rest[i] == fields[i + 1];
    if DistinctKinds(fields) {
      forall f | f in rest
        ensures KindOf(f) != KindOf(fields[0])
      {
        var i :| 0 <= i < |rest| && rest[i] == f;
        assert KindOf(fields[0]) != KindOf(fields[i + 1]);
      }
    }
    if KindOf(fields[0]) !in Kinds(rest) && DistinctKinds(rest) {
      forall i, j | 0 <= i < j < |fields|
        ensures KindOf(fields[i]) != KindOf(fields[j])
      {
        if i == 0 {
          assert fields[j] in rest;
        } else {
          assert KindOf(rest[i - 1]) != KindOf(rest[j - 1]);
        }
      }
    }
  }

  /** A record has as many kinds as fields exactly when no kind repeats. */
  lemma {:induction false} KindsCount(fields: seq<Field>)
    ensures |Kinds(fields)| <= |fields|
    ensures |Kinds(fields)| == |fields| <==> DistinctKinds(fields)
  {
    if fields != [] {
      var rest := fields[1..];
      KindsCount(rest);
      KindsCons(fields);
      DistinctCons(fields);
      if KindOf(fields[0]) in Kinds(rest) {
        assert Kinds(fields) == Kinds(rest);
      } else {
        assert |Kinds(fields)| == |Kinds(rest)| + 1;
      }
    }
  }

  /** A subset has at most as many elements as the set. */
  lemma {:induction false} SubsetSize<T>(a: set<T>, b: set<T>)
    requires a <= b
    ensures |a| <= |b|
    decreases |a|
  {
    if a != {} {
      var y :| y in a;
      SubsetSize(a - {y}, b - {y});
    }
  }

  /** A subset with as many elements as the set is the whole set. */
  lemma SubsetOfSameSize<T>(a: set<T>, b: set<T>)
    requires a <= b && |a| == |b|
    ensures a == b
  {
    if x :| x in b && x !in a {
      SubsetSize(a, b - {x});
    }
  }

  lemma KindSets()
    ensures |AllKinds| == 8 && |RequiredKinds| == 7
    ensures forall k: FieldKind :: k in AllKinds
    ensures RequiredKinds == AllKinds - {Cid}
  {
    var seven: set<FieldKind> := {Byr, Iyr, Eyr, Hgt, Hcl, Ecl, Pid};
    assert |seven| == 7;
    assert AllKinds == seven + {Cid};
    forall k: FieldKind
      ensures k in AllKinds
    {
      match k
      case Byr => case Iyr => case Eyr => case Hgt =>
      case Hcl => case Ecl => case Pid => case Cid =>
    }
  }

  lemma ValidHasRequired(kinds: set<FieldKind>)
    requires |kinds| == 8 || (|kinds| == 7 && Cid !in kinds)
    ensures RequiredKinds <= kinds
  {
    KindSets();
    assert kinds <= AllKinds;
    if |kinds| == 8 {
      SubsetOfSameSize(kinds, AllKinds);
    } else {
      assert kinds <= RequiredKinds;
      SubsetOfSameSize(kinds, RequiredKinds);
    }
  }

  lemma RequiredIsValid(kinds: set<FieldKind>)
    requires RequiredKinds <= kinds
    ensures |kinds| == 8 || (|kinds| == 7 && Cid !in kinds)
  {
    KindSets();
    assert kinds <= AllKinds;
    if Cid in kinds {
      assert AllKinds <= kinds;
      assert kinds == AllKinds;
    } else {
      assert kinds <= RequiredKinds;
      assert kinds == RequiredKinds;
    }
  }

  /** `Record::is_valid` accepts exactly the records whose field kinds are
      distinct and include all seven required kinds. */
  lemma RecordValidMeaning(fields: seq<Field>)
    ensures RecordValid(fields) <==> DistinctKinds(fields) && RequiredKinds <= Kinds(fields)
  {
    var kinds := Kinds(fields);
    KindsCount(fields);
    if RecordValid(fields) {
      ValidHasRequired(kinds);
    }
    if RequiredKinds <= kinds {
      RequiredIsValid(kinds);
    }
  }

  predicate IsHexDigit(c: char) {
    '0' <= c <= '9' || 'a' <= c <= 'f' || 'A' <= c <= 'F'
  }

  /** `is_rgb` indexes the first byte, so an empty hair colour has no verdict
      (the source panics on it). */
  predicate EmptyHairColour(f: Field) {
    f.HairColour? && f.colour == ""
  }

  /** `Field::is_valid`. */
  predicate FieldValid(f: Field)
    requires !EmptyHairColour(f)
  {
    match f
    case BirthYear(y) => 1920 <= y <= 2002
    case IssueYear(y) => 2010 <= y <= 2020
    case ExpirationYear(y) => 2020 <= y <= 2030
    case Height(Centimetre(cm)) => 150 <= cm <= 193
    case Height(Inch(inches)) => 59 <= inches <= 76
    case Height(Unknown(_)) => false
    case HairColour(c) => c[0] == '#' && |c[1..]| == 6 && forall k :: 1 <= k < |c| ==> IsHexDigit(c[k])
    case EyeColour(c) => c in {"amb", "blu", "brn", "gry", "grn", "hzl", "oth"}
    case PassportId(id) => |id| == 9 && forall k :: 0 <= k < |id| ==> IsDigit(id[k])
    case CountryId(_) => true
  }

  /** `is_contents_valid` stops at the first invalid field, so it has a verdict
      unless an empty hair colour is reached before any invalid field. */
  predicate ContentsDefined(fields: seq<Field>) {
    fields == [] ||
    (!EmptyHairColour(fields[0]) && (FieldValid(fields[0]) ==> ContentsDefined(fields[1..])))
  }

  /** `Record::is_contents_valid`: every field is valid, checked in order. */
  predicate ContentsValid(fields: seq<Field>)
    requires ContentsDefined(fields)
  {
    fields == [] || (FieldValid(fields[0]) && ContentsValid(fields[1..]))
  }

  /** The contents check accepts exactly when every field is valid, and
      rejects because of some field that has a verdict and fails it. */
  lemma {:induction false} ContentsValidMeaning(fields: seq<Field>)
    requires ContentsDefined(fields)
    ensures ContentsValid(fields) ==>
      forall i :: 0 <= i < |fields| ==> !EmptyHairColour(fields[i]) && FieldValid(fields[i])
    ensures !ContentsValid(fields) ==>
      exists i :: 0 <= i < |fields| && !EmptyHairColour(fields[i]) && !FieldValid(fields[i])
  {
    if fields != [] && FieldValid(fields[0]) {
      var rest := fields[1..];
      ContentsValidMeaning(rest);
      assert forall i :: 1 <= i < |fields| ==> fields[i] == rest[i - 1];
      if !ContentsValid(rest) {
        var i :| 0 <= i < |rest| && !EmptyHairColour(rest[i]) && !FieldValid(rest[i]);
        assert fields[i + 1] == rest[i];
      }
    }
  }

  /** A record without an empty hair colour always has a contents verdict. */
  lemma {:induction false} ContentsDefinedWithoutEmpty(fields: seq<Field>)
    requires forall i :: 0 <= i < |fields| ==> !EmptyHairColour(fields[i])
    ensures ContentsDefined(fields)
  {
    if fields != [] {
      assert forall i :: 1 <= i < |fields| ==> fields[i] == fields[1..][i - 1];
      ContentsDefinedWithoutEmpty(fields[1..]);
    }
  }

  /** The records of a batch file: the texts between blank lines. */
  function Records(s: string): seq<string> {
    Split(s, "\n\n")
  }

  /** Every record of the batch parses (the drivers `unwrap` each one). */
  predicate AllParse(records: seq<string>) {
    forall i :: 0 <= i < |records| ==> ParseRecord(records[i]).Ok?
  }

  /** The number of records that `Record::is_valid` accepts. */
  function CountValid(records: seq<string>): (n: nat)
    requires AllParse(records)
    ensures n <= |records|
  {
    if records == [] then 0
    else (if RecordValid(ParseRecord(records[0]).value) then 1 else 0) + CountValid(records[1..])
  }

  /** Every record accepted by `is_valid` has a contents verdict, as `part2`
      needs to avoid the empty-colour panic. */
  predicate ContentsCheckable(records: seq<string>)
    requires AllParse(records)
  {
    forall i :: 0 <= i < |records| && RecordValid(ParseRecord(records[i]).value) ==>
      ContentsDefined(ParseRecord(records[i]).value)
  }

  /** The number of records that both `is_valid` and `is_contents_valid` accept. */
  function CountFullyValid(records: seq<string>): (n: nat)
    requires AllParse(records) && ContentsCheckable(records)
  {
    if records == [] then 0
    else
      var fields := ParseRecord(records[0]).value;
      assert forall i :: 1 <= i < |records| ==> records[i] == records[1..][i - 1];
      (if RecordValid(fields) && ContentsValid(fields) then 1 else 0) + CountFullyValid(records[1..])
  }

  /** `part1`: the records whose field kinds are complete. */
  function Part1(s: string): (n: nat)
    requires AllParse(Records(s))
    ensures n <= |Records(s)|
  {
    CountValid(Records(s))
  }

  /** `part2`: the records that are also valid field by field. */
  function Part2(s: string): nat
    requires AllParse(Records(s)) && ContentsCheckable(Records(s))
  {
    CountFullyValid(Records(s))
  }

  /** Checking the contents as well can only reject more records. */
  lemma {:induction false} FullyValidWithin(records: seq<string>)
    requires AllParse(records) && ContentsCheckable(records)
    ensures CountFullyValid(records) <= CountValid(records)
  {
    if records != [] {
      assert forall i :: 1 <= i < |records| ==> records[i] == records[1..][i - 1];
      FullyValidWithin(records[1..]);
    }
  }

  /** `part2` never exceeds `part1`. */
  lemma Part2WithinPart1(s: string)
    requires AllParse(Records(s)) && ContentsCheckable(Records(s))
    ensures Part2(s) <= Part1(s)
  {
    FullyValidWithin(Records(s));
  }

  lemma BirthYearText()
    ensures FormatField(BirthYear(1234)) == "byr:1234"
  {
    assert ShowInt(1234) == "1234";
  }

  /** `"byr:1234"` parses to a birth year. */
  lemma ParseBirthYearExample()
    ensures ParseField("byr:1234") == Ok(BirthYear(1234))
  {
    ParseFormatField(BirthYear(1234));
    BirthYearText();
  }

  lemma HairColourText()
    ensures FormatField(HairColour("Gross")) == "hcl:Gross"
  {
  }

  /** `"hcl:Gross"` parses to a hair colour, whatever its content. */
  lemma ParseHairColourExample()
    ensures ParseField("hcl:Gross") == Ok(HairColour("Gross"))
  {
    ParseFormatField(HairColour("Gross"));
    HairColourText();
  }

  lemma HeightText()
    ensures FormatField(Height(Centimetre(123))) == "hgt:123cm"
  {
    assert ShowInt(123) == "123";
  }

  /** `"hgt:123cm"` parses to a height in centimetres. */
  lemma ParseHeightExample()
    ensures ParseField("hgt:123cm") == Ok(Height(Centimetre(123)))
  {
    ParseFormatField(Height(Centimetre(123)));
    HeightText();
  }

  lemma YearTexts()
    ensures FormatField(BirthYear(1)) == "byr:1" && FormatField(IssueYear(1)) == "iyr:1"
  {
  }

  lemma ParseYearFields()
    ensures ParseField("byr:1") == Ok(BirthYear(1)) && ParseField("iyr:1") == Ok(IssueYear(1))
  {
    ParseFormatField(BirthYear(1));
    ParseFormatField(IssueYear(1));
    YearTexts();
  }

  lemma ParseYearsExample()
    ensures ParseFields(["byr:1", "iyr:1"]) == Ok([BirthYear(1), IssueYear(1)])
  {
    ParseYearFields();
    CollectTwo(ParseField, "byr:1", "iyr:1", BirthYear(1), IssueYear(1));
  }

  lemma YearWords(sep: char)
    requires IsWhitespace(sep)
    ensures SplitWhitespace("byr:1" + [sep] + "iyr:1") == ["byr:1", "iyr:1"]
  {
    var a, b := "byr:1", "iyr:1";
    assert forall k :: 0 <= k < |a| ==> !IsWhitespace(a[k]);
    assert forall k :: 0 <= k < |b| ==> !IsWhitespace(b[k]);
    SplitWhitespaceOne(b);
    SplitWhitespaceCons(a, sep, b);
  }

  /** The fields of a record may be separated by a space. */
  lemma ParseRecordLineExample()
    ensures ParseRecord("byr:1 iyr:1") == Ok([BirthYear(1), IssueYear(1)])
  {
    YearWords(' ');
    assert "byr:1" + [' '] + "iyr:1" == "byr:1 iyr:1";
    ParseYearsExample();
  }

  /** The fields of a record may be separated by a line break. */
  lemma ParseRecordMultilineExample()
    ensures ParseRecord("byr:1\niyr:1") == Ok([BirthYear(1), IssueYear(1)])
  {
    YearWords('\n');
    assert "byr:1" + ['\n'] + "iyr:1" == "byr:1\niyr:1";
    ParseYearsExample();
  }

  /** The seven required fields, with default values. */
  function Minimal(): seq<Field> {
    [BirthYear(0), IssueYear(0), ExpirationYear(0), Height(Centimetre(0)),
     HairColour(""), EyeColour(""), PassportId("")]
  }

  lemma MinimalKinds()
    ensures Kinds(Minimal()) == RequiredKinds
  {
    var m := Minimal();
    assert m[0] in m && m[1] in m && m[2] in m && m[3] in m && m[4] in m && m[5] in m && m[6] in m;
    assert forall f | f in m :: KindOf(f) in RequiredKinds;
  }

  /** The empty record is invalid, and the seven required fields are valid. */
  lemma RecordValidExamples()
    ensures !RecordValid([])
    ensures RecordValid(Minimal())
  {
    MinimalKinds();
    KindSets();
  }

  /** Adding a country id to the required fields keeps the record valid. */
  lemma WithCountryExample()
    ensures RecordValid(Minimal() + [CountryId(0)])
  {
    var m := Minimal();
    var withCid := m + [CountryId(0)];
    MinimalKinds();
    KindSets();
    KindsAppend(m, CountryId(0));
    assert Kinds(withCid) == AllKinds;
    assert |withCid| == 8;
  }

  /** A second birth year makes the record invalid. */
  lemma DuplicateExample()
    ensures !RecordValid(Minimal() + [BirthYear(0)])
  {
    var repeated := Minimal() + [BirthYear(0)];
    RecordValidMeaning(repeated);
    assert KindOf(repeated[0]) == KindOf(repeated[7]);
  }

  /** Year and height values from the puzzle's examples on either side of each rule. */
  lemma NumberFieldExamples()
    ensures FieldValid(BirthYear(2002)) && !FieldValid(BirthYear(2003))
    ensures FieldValid(Height(Inch(60))) && FieldValid(Height(Centimetre(190)))
    ensures !FieldValid(Height(Inch(190))) && !FieldValid(Height(Unknown(190)))
  {
  }

  /** Colour and passport id values from the puzzle's examples on either side of each rule. */
  lemma TextFieldExamples()
    ensures FieldValid(HairColour("#123abc")) && !FieldValid(HairColour("#123abz"))
    ensures !FieldValid(HairColour("123abc"))
    ensures FieldValid(EyeColour("brn")) && !FieldValid(EyeColour("wat"))
    ensures FieldValid(PassportId("000000001")) && !FieldValid(PassportId("0123456789"))
  {
    var bad := "#123abz";
    assert !IsHexDigit(bad[6]);
  }

  /** A text holding no whitespace character. */
  predicate Unbroken(s: string) {
    forall k :: 0 <= k < |s| ==> !IsWhitespace(s[k])
  }

  /** A field written as a single word: its text value, if it has one, holds
      no whitespace. */
  predicate Writable(f: Field) {
    match f
    case HairColour(c) => Unbroken(c)
    case EyeColour(c) => Unbroken(c)
    case PassportId(id) => Unbroken(id)
    case _ => true
  }

  /** A number is written without whitespace. */
  lemma ShowIntUnbroken(v: int)
    ensures Unbroken(ShowInt(v))
  {
    ShowIntChars(v, ' ');
    ShowIntChars(v, '\t');
    ShowIntChars(v, '\n');
    ShowIntChars(v, '\r');
    ShowIntChars(v, 11 as char);
    ShowIntChars(v, 12 as char);
  }

  lemma UnbrokenAppend(a: string, b: string)
    requires Unbroken(a) && Unbroken(b)
    ensures Unbroken(a + b)
  {
  }

  /** The value text of a writable field holds no whitespace. */
  lemma ValueUnbroken(f: Field)
    requires Writable(f)
    ensures Unbroken(ValueText(f))
  {
    match f
    case BirthYear(v) => ShowIntUnbroken(v);
    case IssueYear(v) => ShowIntUnbroken(v);
    case ExpirationYear(v) => ShowIntUnbroken(v);
    case CountryId(v) => ShowIntUnbroken(v);
    case Height(Centimetre(v)) => ShowIntUnbroken(v); UnbrokenAppend(ShowInt(v), "cm");
    case Height(Inch(v)) => ShowIntUnbroken(v); UnbrokenAppend(ShowInt(v), "in");
    case Height(Unknown(v)) => ShowIntUnbroken(v);
    case HairColour(_) =>
    case EyeColour(_) =>
    case PassportId(_) =>
  }

  /** A writable field is written as one word, starting with its key. */
  lemma FormatFieldWord(f: Field)
    requires Writable(f)
    ensures |FormatField(f)| > 3 && FormatField(f)[..3] == Key(KindOf(f))
    ensures Unbroken(FormatField(f))
  {
    var key := Key(KindOf(f)) + ":";
    assert |key| == 4 && Unbroken(key);
    ValueUnbroken(f);
    UnbrokenAppend(key, ValueText(f));
  }

  /** A record written out: each field as `key:value`, with the whitespace
      character `gaps[i]` between the `i`th field and the next. */
  function ShowRecord(fields: seq<Field>, gaps: seq<char>): string
    requires |fields| > 0 && |gaps| == |fields| - 1
    decreases |fields|
  {
    if |fields| == 1 then FormatField(fields[0])
    else FormatField(fields[0]) + [gaps[0]] + ShowRecord(fields[1..], gaps[1..])
  }

  /** The fields of a record, each written as `key:value`. */
  function FieldTexts(fields: seq<Field>): (r: seq<string>)
    ensures |r| == |fields| && forall i :: 0 <= i < |r| ==> r[i] == FormatField(fields[i])
  {
    seq(|fields|, i requires 0 <= i < |fields| => FormatField(fields[i]))
  }

  /** A record laid out for writing: one gap fewer than fields, every gap a
      whitespace character, every field a single word. */
  predicate PrintableRecord(fields: seq<Field>, gaps: seq<char>) {
    |fields| > 0 && |gaps| == |fields| - 1 &&
    (forall i :: 0 <= i < |fields| ==> Writable(fields[i])) &&
    (forall k :: 0 <= k < |gaps| ==> IsWhitespace(gaps[k]))
  }

  lemma PrintableRest(fields: seq<Field>, gaps: seq<char>)
    requires PrintableRecord(fields, gaps) && |fields| > 1
    ensures PrintableRecord(fields[1..], gaps[1..])
  {
    assert forall i :: 1 <= i < |fields| ==> fields[1..][i - 1] == fields[i];
    assert forall k :: 1 <= k < |gaps| ==> gaps[1..][k - 1] == gaps[k];
  }

  lemma FieldTextsCons(fields: seq<Field>)
    requires |fields| > 0
    ensures FieldTexts(fields) == [FormatField(fields[0])] + FieldTexts(fields[1..])
  {
    var whole, rest := FieldTexts(fields), FieldTexts(fields[1..]);
    forall i | 1 <= i < |fields|
      ensures whole[i] == rest[i - 1]
    {
      assert fields[1..][i - 1] == fields[i];
    }
  }

  /** A written record longer than one field is its first field, a gap, and
      the rest written. */
  lemma ShowRecordCons(fields: seq<Field>, gaps: seq<char>)
    requires PrintableRecord(fields, gaps) && |fields| > 1
    ensures PrintableRecord(fields[1..], gaps[1..])
    ensures SplitWhitespace(ShowRecord(fields, gaps)) ==
      [FormatField(fields[0])] + SplitWhitespace(ShowRecord(fields[1..], gaps[1..]))
  {
    PrintableRest(fields, gaps);
    FormatFieldWord(fields[0]);
    SplitWhitespaceCons(FormatField(fields[0]), gaps[0], ShowRecord(fields[1..], gaps[1..]));
  }

  /** `split_whitespace` takes a written record apart into its written fields. */
  lemma {:induction false} ShowRecordWords(fields: seq<Field>, gaps: seq<char>)
    requires PrintableRecord(fields, gaps)
    ensures SplitWhitespace(ShowRecord(fields, gaps)) == FieldTexts(fields)
    decreases |fields|
  {
    if |fields| == 1 {
      FormatFieldWord(fields[0]);
      SplitWhitespaceOne(FormatField(fields[0]));
    } else {
      ShowRecordCons(fields, gaps);
      ShowRecordWords(fields[1..], gaps[1..]);
      FieldTextsCons(fields);
    }
  }

  /** `Record::from_str` reads a written record back, whatever whitespace
      separates its fields. */
  lemma ParseShowRecord(fields: seq<Field>, gaps: seq<char>)
    requires PrintableRecord(fields, gaps)
    ensures ParseRecord(ShowRecord(fields, gaps)) == Ok(fields)
  {
    ShowRecordWords(fields, gaps);
    var words := FieldTexts(fields);
    forall i | 0 <= i < |words|
      ensures ParseField(words[i]) == Ok(fields[i])
    {
      ParseFormatField(fields[i]);
    }
    assert AllOk(ParseField, words);
    assert ParseFields(words).value == fields;
  }

  /** A written record holds no blank line, and neither starts nor ends with
      whitespace. */
  lemma {:induction false} ShowRecordGroup(fields: seq<Field>, gaps: seq<char>)
    requires PrintableRecord(fields, gaps)
    ensures var s := ShowRecord(fields, gaps);
      |s| > 0 && NoBlankLine(s) && !IsWhitespace(s[0]) && !IsWhitespace(s[|s| - 1])
    decreases |fields|
  {
    var a := FormatField(fields[0]);
    FormatFieldWord(fields[0]);
    if |fields| > 1 {
      PrintableRest(fields, gaps);
      ShowRecordGroup(fields[1..], gaps[1..]);
      var b := ShowRecord(fields[1..], gaps[1..]);
      var s := a + [gaps[0]] + b;
      forall k | 0 <= k < |s| - 1
        ensures !(s[k] == '\n' && s[k + 1] == '\n')
      {
        if k < |a| {
          assert s[k] == a[k];
        } else if k == |a| {
          assert s[k + 1] == b[0];
        } else {
          assert s[k] == b[k - |a| - 1] && s[k + 1] == b[k - |a|];
        }
      }
    }
  }

  /** Records laid out for writing, at least one. */
  predicate Printable(records: seq<seq<Field>>, gaps: seq<seq<char>>) {
    |records| > 0 && |gaps| == |records| &&
    forall i :: 0 <= i < |records| ==> PrintableRecord(records[i], gaps[i])
  }

  /** The written records of a batch. */
  function RecordTexts(records: seq<seq<Field>>, gaps: seq<seq<char>>): (r: seq<string>)
    requires Printable(records, gaps)
    ensures |r| == |records| && forall i :: 0 <= i < |r| ==> r[i] == ShowRecord(records[i], gaps[i])
  {
    seq(|records|, i requires 0 <= i < |records| && PrintableRecord(records[i], gaps[i]) =>
      ShowRecord(records[i], gaps[i]))
  }

  /** A batch file written out: its records separated by blank lines. */
  function ShowBatch(records: seq<seq<Field>>, gaps: seq<seq<char>>): string
    requires Printable(records, gaps)
  {
    Join(RecordTexts(records, gaps), "\n\n")
  }

  /** A written batch is split back into its written records, and each of
      them parses to its fields. */
  lemma ParseShowBatch(records: seq<seq<Field>>, gaps: seq<seq<char>>)
    requires Printable(records, gaps)
    ensures Records(ShowBatch(records, gaps)) == RecordTexts(records, gaps)
    ensures AllParse(Records(ShowBatch(records, gaps)))
    ensures forall i :: 0 <= i < |records| ==> ParseRecord(Records(ShowBatch(records, gaps))[i]) == Ok(records[i])
  {
    var texts := RecordTexts(records, gaps);
    forall i | 0 <= i < |texts|
      ensures NoBlankLine(texts[i]) && texts[i][|texts[i]| - 1] != '\n'
      ensures ParseRecord(texts[i]) == Ok(records[i])
    {
      ShowRecordGroup(records[i], gaps[i]);
      ParseShowRecord(records[i], gaps[i]);
    }
    SplitJoinGroups(texts);
  }

  /** Counting the valid records from position `i` on. */
  lemma CountValidStep(texts: seq<string>, i: nat)
    requires i < |texts| && AllParse(texts)
    ensures AllParse(texts[i..]) && AllParse(texts[i + 1..])
    ensures CountValid(texts[i..]) ==
      (if RecordValid(ParseRecord(texts[i]).value) then 1 else 0) + CountValid(texts[i + 1..])
  {
    assert texts[i..][1..] == texts[i + 1..];
  }

  /** Counting the fully valid records from position `i` on. */
  lemma CountFullyValidStep(texts: seq<string>, i: nat)
    requires i < |texts| && AllParse(texts) && ContentsCheckable(texts)
    ensures AllParse(texts[i..]) && ContentsCheckable(texts[i..])
    ensures AllParse(texts[i + 1..]) && ContentsCheckable(texts[i + 1..])
    ensures var f := ParseRecord(texts[i]).value;
      CountFullyValid(texts[i..]) ==
        (if RecordValid(f) && ContentsValid(f) then 1 else 0) + CountFullyValid(texts[i + 1..])
  {
    assert texts[i..][1..] == texts[i + 1..];
    assert forall j :: i + 1 <= j < |texts| ==> texts[i + 1..][j - i - 1] == texts[j];
    assert forall j :: i <= j < |texts| ==> texts[i..][j - i] == texts[j];
  }

  /** A record holding every required kind is valid when it has seven fields,
      or eight with a country id among them. */
  lemma RequiredOnce(fields: seq<Field>)
    requires RequiredKinds <= Kinds(fields)
    requires |fields| == 7 || (|fields| == 8 && Cid in Kinds(fields))
    ensures RecordValid(fields)
  {
    KindSets();
    KindsCount(fields);
    if |fields| == 8 {
      assert AllKinds <= Kinds(fields);
      SubsetSize(AllKinds, Kinds(fields));
    } else {
      SubsetSize(RequiredKinds, Kinds(fields));
    }
    RequiredIsValid(Kinds(fields));
  }

  /** A record lacking a required kind is invalid. */
  lemma MissingInvalid(fields: seq<Field>, k: FieldKind)
    requires k in RequiredKinds && forall i :: 0 <= i < |fields| ==> KindOf(fields[i]) != k
    ensures !RecordValid(fields)
  {
    RecordValidMeaning(fields);
  }

  /** A record whose every field passes its rule, without an empty hair
      colour, passes the contents check. */
  lemma AllFieldsValid(fields: seq<Field>)
    requires forall i :: 0 <= i < |fields| ==> !EmptyHairColour(fields[i]) && FieldValid(fields[i])
    ensures ContentsDefined(fields) && ContentsValid(fields)
  {
    ContentsDefinedWithoutEmpty(fields);
    ContentsValidMeaning(fields);
  }

  /** A record without an empty hair colour and with a field that fails its
      rule fails the contents check. */
  lemma SomeFieldInvalid(fields: seq<Field>, i: nat)
    requires forall j :: 0 <= j < |fields| ==> !EmptyHairColour(fields[j])
    requires i < |fields| && !FieldValid(fields[i])
    ensures ContentsDefined(fields) && !ContentsValid(fields)
  {
    ContentsDefinedWithoutEmpty(fields);
    ContentsValidMeaning(fields);
  }

  /** The puzzle's example batch, record by record: the second record lacks a
      height and the fourth a birth year. */
  function ExampleRecords(): seq<seq<Field>> {
    [[EyeColour("gry"), PassportId("860033327"), ExpirationYear(2020), HairColour("#fffffd"),
      BirthYear(1937), IssueYear(2017), CountryId(147), Height(Centimetre(183))],
     [IssueYear(2013), EyeColour("amb"), CountryId(350), ExpirationYear(2023), PassportId("028048884"),
      HairColour("#cfa07d"), BirthYear(1929)],
     [HairColour("#ae17e1"), IssueYear(2013), ExpirationYear(2024), EyeColour("brn"),
      PassportId("760753108"), BirthYear(1931), Height(Centimetre(179))],
     [HairColour("#cfa07d"), ExpirationYear(2025), PassportId("166559648"), IssueYear(2011),
      EyeColour("brn"), Height(Inch(59))]]
  }

  /** The whitespace between the fields of each example record, as the
      example lays them out. */
  function ExampleGaps(): seq<seq<char>> {
    ["   \n   ", "    \n ", " \n\n  \n", "  \n  "]
  }

  lemma ExampleRecord0(f: seq<Field>, g: seq<char>)
    requires f == ExampleRecords()[0] && g == ExampleGaps()[0]
    ensures PrintableRecord(f, g)
    ensures RecordValid(f)
  {
    forall i | 0 <= i < |f|
      ensures Writable(f[i])
    {
      if i == 0 {
        assert Unbroken("gry");
      } else if i == 1 {
        assert Unbroken("860033327");
      } else if i == 3 {
        assert Unbroken("#fffffd");
      }
    }
    assert forall k :: 0 <= k < |g| ==> IsWhitespace(g[k]);
    assert f[0] in f && f[1] in f && f[2] in f && f[3] in f;
    assert f[4] in f && f[5] in f && f[6] in f && f[7] in f;
    RequiredOnce(f);
  }

  lemma ExampleRecord1(f: seq<Field>, g: seq<char>)
    requires f == ExampleRecords()[1] && g == ExampleGaps()[1]
    ensures PrintableRecord(f, g)
    ensures !RecordValid(f)
  {
    forall i | 0 <= i < |f|
      ensures Writable(f[i])
    {
      if i == 1 {
        assert Unbroken("amb");
      } else if i == 4 {
        assert Unbroken("028048884");
      } else if i == 5 {
        assert Unbroken("#cfa07d");
      }
    }
    assert forall k :: 0 <= k < |g| ==> IsWhitespace(g[k]);
    MissingInvalid(f, Hgt);
  }

  lemma ExampleRecord2(f: seq<Field>, g: seq<char>)
    requires f == ExampleRecords()[2] && g == ExampleGaps()[2]
    ensures PrintableRecord(f, g)
    ensures RecordValid(f)
  {
    forall i | 0 <= i < |f|
      ensures Writable(f[i])
    {
      if i == 0 {
        assert Unbroken("#ae17e1");
      } else if i == 3 {
        assert Unbroken("brn");
      } else if i == 4 {
        assert Unbroken("760753108");
      }
    }
    assert forall k :: 0 <= k < |g| ==> IsWhitespace(g[k]);
    assert f[0] in f && f[1] in f && f[2] in f && f[3] in f;
    assert f[4] in f && f[5] in f && f[6] in f;
    RequiredOnce(f);
  }

  lemma ExampleRecord3(f: seq<Field>, g: seq<char>)
    requires f == ExampleRecords()[3] && g == ExampleGaps()[3]
    ensures PrintableRecord(f, g)
    ensures !RecordValid(f)
  {
    forall i | 0 <= i < |f|
      ensures Writable(f[i])
    {
      if i == 0 {
        assert Unbroken("#cfa07d");
      } else if i == 2 {
        assert Unbroken("166559648");
      } else if i == 4 {
        assert Unbroken("brn");
      }
    }
    assert forall k :: 0 <= k < |g| ==> IsWhitespace(g[k]);
    MissingInvalid(f, Byr);
  }

  /** A written batch of four records: `part1` counts those of them that
      `is_valid` accepts. */
  lemma Part1OfFour(records: seq<seq<Field>>, gaps: seq<seq<char>>)
    requires Printable(records, gaps) && |records| == 4
    ensures |Records(ShowBatch(records, gaps))| == 4 && AllParse(Records(ShowBatch(records, gaps)))
    ensures Part1(ShowBatch(records, gaps)) ==
      (if RecordValid(records[0]) then 1 else 0) + (if RecordValid(records[1]) then 1 else 0) +
      (if RecordValid(records[2]) then 1 else 0) + (if RecordValid(records[3]) then 1 else 0)
  {
    ParseShowBatch(records, gaps);
    var texts := Records(ShowBatch(records, gaps));
    CountValidStep(texts, 0);
    CountValidStep(texts, 1);
    CountValidStep(texts, 2);
    CountValidStep(texts, 3);
    assert texts[0..] == texts && texts[4..] == [];
  }

  /** The example batch parses to its four records, and `part1` counts two
      valid ones: the first and the third. */
  lemma Part1Example(records: seq<seq<Field>>, gaps: seq<seq<char>>)
    requires records == ExampleRecords() && gaps == ExampleGaps()
    ensures Printable(records, gaps)
    ensures |Records(ShowBatch(records, gaps))| == 4 && AllParse(Records(ShowBatch(records, gaps)))
    ensures Part1(ShowBatch(records, gaps)) == 2
  {
    ExampleRecord0(records[0], gaps[0]);
    ExampleRecord1(records[1], gaps[1]);
    ExampleRecord2(records[2], gaps[2]);
    ExampleRecord3(records[3], gaps[3]);
    forall i | 0 <= i < 4
      ensures PrintableRecord(records[i], gaps[i])
    {
      if i == 0 {} else if i == 1 {} else if i == 2 {} else {}
    }
    Part1OfFour(records, gaps);
  }

  /** A record laid out for writing that `is_valid` and `is_contents_valid`
      both accept. */
  predicate FullyValidRecord(f: seq<Field>, g: seq<char>) {
    PrintableRecord(f, g) && RecordValid(f) && ContentsDefined(f) && ContentsValid(f)
  }

  /** A record laid out for writing that `is_valid` accepts and
      `is_contents_valid` rejects. */
  predicate ContentsRejected(f: seq<Field>, g: seq<char>) {
    PrintableRecord(f, g) && RecordValid(f) && ContentsDefined(f) && !ContentsValid(f)
  }

  /** The records of the puzzle's part 2 example that pass every rule. */
  function AcceptedRecords(): seq<seq<Field>> {
    [[PassportId("087499704"), Height(Inch(74)), EyeColour("grn"), IssueYear(2012), ExpirationYear(2030),
      BirthYear(1980), HairColour("#623a2f")],
     [ExpirationYear(2029), EyeColour("blu"), CountryId(129), BirthYear(1989), IssueYear(2014),
      PassportId("896056539"), HairColour("#a97842"), Height(Centimetre(165))],
     [HairColour("#888785"), Height(Centimetre(164)), BirthYear(2001), IssueYear(2015), CountryId(88),
      PassportId("545766238"), EyeColour("hzl"), ExpirationYear(2022)],
     [IssueYear(2010), Height(Centimetre(158)), HairColour("#b6652a"), EyeColour("blu"), BirthYear(1944),
      ExpirationYear(2021), PassportId("093154719")]]
  }

  /** The whitespace between the fields of each of those records. */
  function AcceptedGaps(): seq<seq<char>> {
    ["     \n", "   \n   ", "\n   \n \n", "      "]
  }

  /** The text values of that record are single words passing their rules. */
  lemma AcceptedTexts0()
    ensures Unbroken("087499704")
    ensures FieldValid(PassportId("087499704"))
    ensures Unbroken("grn")
    ensures FieldValid(EyeColour("grn"))
    ensures Unbroken("#623a2f")
    ensures FieldValid(HairColour("#623a2f"))
  {
  }

  lemma AcceptedFields0(f: seq<Field>)
    requires f == AcceptedRecords()[0]
    ensures forall i :: 0 <= i < |f| ==> Writable(f[i]) && !EmptyHairColour(f[i]) && FieldValid(f[i])
  {
    AcceptedTexts0();
  }

  lemma AcceptedKinds0(f: seq<Field>)
    requires f == AcceptedRecords()[0]
    ensures RecordValid(f)
  {
    assert f[0] in f && f[1] in f && f[2] in f && f[3] in f;
    assert f[4] in f && f[5] in f && f[6] in f;
    RequiredOnce(f);
  }

  lemma AcceptedRecord0(f: seq<Field>, g: seq<char>)
    requires f == AcceptedRecords()[0] && g == AcceptedGaps()[0]
    ensures FullyValidRecord(f, g)
  {
    AcceptedFields0(f);
    AcceptedKinds0(f);
    assert forall k :: 0 <= k < |g| ==> IsWhitespace(g[k]);
    AllFieldsValid(f);
  }

  /** The text values of that record are single words passing their rules. */
  lemma AcceptedTexts1()
    ensures Unbroken("blu")
    ensures FieldValid(EyeColour("blu"))
    ensures Unbroken("896056539")
    ensures FieldValid(PassportId("896056539"))
    ensures Unbroken("#a97842")
    ensures FieldValid(HairColour("#a97842"))
  {
  }

  lemma AcceptedFields1(f: seq<Field>)
    requires f == AcceptedRecords()[1]
    ensures forall i :: 0 <= i < |f| ==> Writable(f[i]) && !EmptyHairColour(f[i]) && FieldValid(f[i])
  {
    AcceptedTexts1();
  }

  lemma AcceptedKinds1(f: seq<Field>)
    requires f == AcceptedRecords()[1]
    ensures RecordValid(f)
  {
    assert f[0] in f && f[1] in f && f[2] in f && f[3] in f;
    assert f[4] in f && f[5] in f && f[6] in f && f[7] in f;
    RequiredOnce(f);
  }

  lemma AcceptedRecord1(f: seq<Field>, g: seq<char>)
    requires f == AcceptedRecords()[1] && g == AcceptedGaps()[1]
    ensures FullyValidRecord(f, g)
  {
    AcceptedFields1(f);
    AcceptedKinds1(f);
    assert forall k :: 0 <= k < |g| ==> IsWhitespace(g[k]);
    AllFieldsValid(f);
  }

  /** The text values of that record are single words passing their rules. */
  lemma AcceptedTexts2()
    ensures Unbroken("#888785")
    ensures FieldValid(HairColour("#888785"))
    ensures Unbroken("545766238")
    ensures FieldValid(PassportId("545766238"))
    ensures Unbroken("hzl")
    ensures FieldValid(EyeColour("hzl"))
  {
  }

  lemma AcceptedFields2(f: seq<Field>)
    requires f == AcceptedRecords()[2]
    ensures forall i :: 0 <= i < |f| ==> Writable(f[i]) && !EmptyHairColour(f[i]) && FieldValid(f[i])
  {
    AcceptedTexts2();
  }

  lemma AcceptedKinds2(f: seq<Field>)
    requires f == AcceptedRecords()[2]
    ensures RecordValid(f)
  {
    assert f[0] in f && f[1] in f && f[2] in f && f[3] in f;
    assert f[4] in f && f[5] in f && f[6] in f && f[7] in f;
    RequiredOnce(f);
  }

  lemma AcceptedRecord2(f: seq<Field>, g: seq<char>)
    requires f == AcceptedRecords()[2] && g == AcceptedGaps()[2]
    ensures FullyValidRecord(f, g)
  {
    AcceptedFields2(f);
    AcceptedKinds2(f);
    assert forall k :: 0 <= k < |g| ==> IsWhitespace(g[k]);
    AllFieldsValid(f);
  }

  /** The text values of that record are single words passing their rules. */
  lemma AcceptedTexts3()
    ensures Unbroken("#b6652a")
    ensures FieldValid(HairColour("#b6652a"))
    ensures Unbroken("blu")
    ensures FieldValid(EyeColour("blu"))
    ensures Unbroken("093154719")
    ensures FieldValid(PassportId("093154719"))
  {
  }

  lemma AcceptedFields3(f: seq<Field>)
    requires f == AcceptedRecords()[3]
    ensures forall i :: 0 <= i < |f| ==> Writable(f[i]) && !EmptyHairColour(f[i]) && FieldValid(f[i])
  {
    AcceptedTexts3();
  }

  lemma AcceptedKinds3(f: seq<Field>)
    requires f == AcceptedRecords()[3]
    ensures RecordValid(f)
  {
    assert f[0] in f && f[1] in f && f[2] in f && f[3] in f;
    assert f[4] in f && f[5] in f && f[6] in f;
    RequiredOnce(f);
  }

  lemma AcceptedRecord3(f: seq<Field>, g: seq<char>)
    requires f == AcceptedRecords()[3] && g == AcceptedGaps()[3]
    ensures FullyValidRecord(f, g)
  {
    AcceptedFields3(f);
    AcceptedKinds3(f);
    assert forall k :: 0 <= k < |g| ==> IsWhitespace(g[k]);
    AllFieldsValid(f);
  }

  /** The records of the puzzle's part 2 example that hold every required field but break a rule. */
  function RejectedRecords(): seq<seq<Field>> {
    [[ExpirationYear(1972), CountryId(100), HairColour("#18171d"), EyeColour("amb"), Height(Unknown(170)),
      PassportId("186cm"), IssueYear(2018), BirthYear(1926)],
     [IssueYear(2019), HairColour("#602927"), ExpirationYear(1967), Height(Centimetre(170)), EyeColour("grn"),
      PassportId("012533040"), BirthYear(1946)],
     [HairColour("dab227"), IssueYear(2012), EyeColour("brn"), Height(Centimetre(182)), PassportId("021572410"),
      ExpirationYear(2020), BirthYear(1992), CountryId(277)],
     [Height(Centimetre(59)), EyeColour("zzz"), ExpirationYear(2038), HairColour("74454a"), IssueYear(2023),
      PassportId("3556412378"), BirthYear(2007)]]
  }

  /** The whitespace between the fields of each of those records. */
  function RejectedGaps(): seq<seq<char>> {
    [" \n     ", "\n  \n  ", " \n     ", " \n  \n "]
  }

  /** The text values of that record are single words. */
  lemma RejectedTexts0()
    ensures Unbroken("#18171d")
    ensures Unbroken("amb")
    ensures Unbroken("186cm")
  {
  }

  lemma RejectedFields0(f: seq<Field>)
    requires f == RejectedRecords()[0]
    ensures forall i :: 0 <= i < |f| ==> Writable(f[i]) && !EmptyHairColour(f[i])
  {
    RejectedTexts0();
  }

  lemma RejectedKinds0(f: seq<Field>)
    requires f == RejectedRecords()[0]
    ensures RecordValid(f)
  {
    assert f[0] in f && f[1] in f && f[2] in f && f[3] in f;
    assert f[4] in f && f[5] in f && f[6] in f && f[7] in f;
    RequiredOnce(f);
  }

  lemma RejectedRecord0(f: seq<Field>, g: seq<char>)
    requires f == RejectedRecords()[0] && g == RejectedGaps()[0]
    ensures ContentsRejected(f, g)
  {
    RejectedFields0(f);
    RejectedKinds0(f);
    assert forall k :: 0 <= k < |g| ==> IsWhitespace(g[k]);
    SomeFieldInvalid(f, 0);
  }

  /** The text values of that record are single words. */
  lemma RejectedTexts1()
    ensures Unbroken("#602927")
    ensures Unbroken("grn")
    ensures Unbroken("012533040")
  {
  }

  lemma RejectedFields1(f: seq<Field>)
    requires f == RejectedRecords()[1]
    ensures forall i :: 0 <= i < |f| ==> Writable(f[i]) && !EmptyHairColour(f[i])
  {
    RejectedTexts1();
  }

  lemma RejectedKinds1(f: seq<Field>)
    requires f == RejectedRecords()[1]
    ensures RecordValid(f)
  {
    assert f[0] in f && f[1] in f && f[2] in f && f[3] in f;
    assert f[4] in f && f[5] in f && f[6] in f;
    RequiredOnce(f);
  }

  lemma RejectedRecord1(f: seq<Field>, g: seq<char>)
    requires f == RejectedRecords()[1] && g == RejectedGaps()[1]
    ensures ContentsRejected(f, g)
  {
    RejectedFields1(f);
    RejectedKinds1(f);
    assert forall k :: 0 <= k < |g| ==> IsWhitespace(g[k]);
    SomeFieldInvalid(f, 2);
  }

  /** The text values of that record are single words. */
  lemma RejectedTexts2()
    ensures Unbroken("dab227")
    ensures Unbroken("brn")
    ensures Unbroken("021572410")
  {
  }

  lemma RejectedFields2(f: seq<Field>)
    requires f == RejectedRecords()[2]
    ensures forall i :: 0 <= i < |f| ==> Writable(f[i]) && !EmptyHairColour(f[i])
  {
    RejectedTexts2();
  }

  lemma RejectedKinds2(f: seq<Field>)
    requires f == RejectedRecords()[2]
    ensures RecordValid(f)
  {
    assert f[0] in f && f[1] in f && f[2] in f && f[3] in f;
    assert f[4] in f && f[5] in f && f[6] in f && f[7] in f;
    RequiredOnce(f);
  }

  lemma RejectedRecord2(f: seq<Field>, g: seq<char>)
    requires f == RejectedRecords()[2] && g == RejectedGaps()[2]
    ensures ContentsRejected(f, g)
  {
    RejectedFields2(f);
    RejectedKinds2(f);
    assert forall k :: 0 <= k < |g| ==> IsWhitespace(g[k]);
    SomeFieldInvalid(f, 0);
  }

  /** The text values of that record are single words. */
  lemma RejectedTexts3()
    ensures Unbroken("zzz")
    ensures Unbroken("74454a")
    ensures Unbroken("3556412378")
  {
  }

  lemma RejectedFields3(f: seq<Field>)
    requires f == RejectedRecords()[3]
    ensures forall i :: 0 <= i < |f| ==> Writable(f[i]) && !EmptyHairColour(f[i])
  {
    RejectedTexts3();
  }

  lemma RejectedKinds3(f: seq<Field>)
    requires f == RejectedRecords()[3]
    ensures RecordValid(f)
  {
    assert f[0] in f && f[1] in f && f[2] in f && f[3] in f;
    assert f[4] in f && f[5] in f && f[6] in f;
    RequiredOnce(f);
  }

  lemma RejectedRecord3(f: seq<Field>, g: seq<char>)
    requires f == RejectedRecords()[3] && g == RejectedGaps()[3]
    ensures ContentsRejected(f, g)
  {
    RejectedFields3(f);
    RejectedKinds3(f);
    assert forall k :: 0 <= k < |g| ==> IsWhitespace(g[k]);
    SomeFieldInvalid(f, 0);
  }

  /** A written batch of four records, each with a contents verdict: `part2`
      counts those of them that `is_valid` and `is_contents_valid` accept. */
  lemma Part2OfFour(records: seq<seq<Field>>, gaps: seq<seq<char>>)
    requires Printable(records, gaps) && |records| == 4
    requires forall i :: 0 <= i < 4 ==> ContentsDefined(records[i])
    ensures var texts := Records(ShowBatch(records, gaps));
      |texts| == 4 && AllParse(texts) && ContentsCheckable(texts)
    ensures Part2(ShowBatch(records, gaps)) ==
      (if RecordValid(records[0]) && ContentsValid(records[0]) then 1 else 0) +
      (if RecordValid(records[1]) && ContentsValid(records[1]) then 1 else 0) +
      (if RecordValid(records[2]) && ContentsValid(records[2]) then 1 else 0) +
      (if RecordValid(records[3]) && ContentsValid(records[3]) then 1 else 0)
  {
    ParseShowBatch(records, gaps);
    var texts := Records(ShowBatch(records, gaps));
    CountFullyValidStep(texts, 0);
    CountFullyValidStep(texts, 1);
    CountFullyValidStep(texts, 2);
    CountFullyValidStep(texts, 3);
    assert texts[0..] == texts && texts[4..] == [];
  }

  /** Each of the four records is one that both checks accept. */
  lemma AcceptedEach(records: seq<seq<Field>>, gaps: seq<seq<char>>)
    requires records == AcceptedRecords() && gaps == AcceptedGaps()
    ensures |records| == 4 && |gaps| == 4
    ensures FullyValidRecord(records[0], gaps[0]) && FullyValidRecord(records[1], gaps[1]) &&
      FullyValidRecord(records[2], gaps[2]) && FullyValidRecord(records[3], gaps[3])
  {
    AcceptedRecord0(records[0], gaps[0]);
    AcceptedRecord1(records[1], gaps[1]);
    AcceptedRecord2(records[2], gaps[2]);
    AcceptedRecord3(records[3], gaps[3]);
  }

  /** Four written records that both checks accept: `part2` counts all four. */
  lemma Part2OfFourAccepted(records: seq<seq<Field>>, gaps: seq<seq<char>>)
    requires |records| == 4 && |gaps| == 4
    requires FullyValidRecord(records[0], gaps[0]) && FullyValidRecord(records[1], gaps[1]) &&
      FullyValidRecord(records[2], gaps[2]) && FullyValidRecord(records[3], gaps[3])
    ensures Printable(records, gaps)
    ensures AllParse(Records(ShowBatch(records, gaps))) && ContentsCheckable(Records(ShowBatch(records, gaps)))
    ensures Part2(ShowBatch(records, gaps)) == 4
  {
    assert forall i :: 0 <= i < 4 ==> FullyValidRecord(records[i], gaps[i]);
    Part2OfFour(records, gaps);
  }

  /** Each of the four records is one that only `is_valid` accepts. */
  lemma RejectedEach(records: seq<seq<Field>>, gaps: seq<seq<char>>)
    requires records == RejectedRecords() && gaps == RejectedGaps()
    ensures |records| == 4 && |gaps| == 4
    ensures ContentsRejected(records[0], gaps[0]) && ContentsRejected(records[1], gaps[1]) &&
      ContentsRejected(records[2], gaps[2]) && ContentsRejected(records[3], gaps[3])
  {
    RejectedRecord0(records[0], gaps[0]);
    RejectedRecord1(records[1], gaps[1]);
    RejectedRecord2(records[2], gaps[2]);
    RejectedRecord3(records[3], gaps[3]);
  }

  /** Four written records that `is_valid` accepts and `is_contents_valid`
      rejects: `part1` counts four and `part2` none. */
  lemma Part2OfFourRejected(records: seq<seq<Field>>, gaps: seq<seq<char>>)
    requires |records| == 4 && |gaps| == 4
    requires ContentsRejected(records[0], gaps[0]) && ContentsRejected(records[1], gaps[1]) &&
      ContentsRejected(records[2], gaps[2]) && ContentsRejected(records[3], gaps[3])
    ensures Printable(records, gaps)
    ensures AllParse(Records(ShowBatch(records, gaps))) && ContentsCheckable(Records(ShowBatch(records, gaps)))
    ensures Part1(ShowBatch(records, gaps)) == 4
    ensures Part2(ShowBatch(records, gaps)) == 0
  {
    assert forall i :: 0 <= i < 4 ==> ContentsRejected(records[i], gaps[i]);
    Part1OfFour(records, gaps);
    Part2OfFour(records, gaps);
  }

  /** `validates_example_part2`: `part2` accepts all four records. */
  lemma Part2AcceptedExample(records: seq<seq<Field>>, gaps: seq<seq<char>>)
    requires records == AcceptedRecords() && gaps == AcceptedGaps()
    ensures Printable(records, gaps)
    ensures AllParse(Records(ShowBatch(records, gaps))) && ContentsCheckable(Records(ShowBatch(records, gaps)))
    ensures Part2(ShowBatch(records, gaps)) == 4
  {
    AcceptedEach(records, gaps);
    Part2OfFourAccepted(records, gaps);
  }

  /** `invalidates_example_part2`: `is_valid` accepts all four records, so `part1`
      counts four, but `is_contents_valid` rejects each, so `part2` counts none. */
  lemma Part2RejectedExample(records: seq<seq<Field>>, gaps: seq<seq<char>>)
    requires records == RejectedRecords() && gaps == RejectedGaps()
    ensures Printable(records, gaps)
    ensures AllParse(Records(ShowBatch(records, gaps))) && ContentsCheckable(Records(ShowBatch(records, gaps)))
    ensures Part1(ShowBatch(records, gaps)) == 4
    ensures Part2(ShowBatch(records, gaps)) == 0
  {
    RejectedEach(records, gaps);
    Part2OfFourRejected(records, gaps);
  }
}
