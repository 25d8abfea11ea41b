# Advent of Code 2020 solvers, modelled in Dafny

This project models the solvers of a Rust Advent of Code 2020 repository.
One Dafny module covers each source file, `src/day1.rs` to `src/day16.rs`.
`Util` models `src/util.rs` and `CircularBuffers` models `src/util/circular_buffer.rs`.
Four shared modules model the pieces of the Rust standard library the solvers use:
- `Text`: `str::find`, `split`, `lines`, `split_whitespace` and integer `parse`;
- `Results`: `Option`, `Result` and `collect`;
- `Integers`: Rust's truncating `/` and `%`, and `abs`;
- `Binary`: powers of two and reading a string as a binary number.

Each solver's parsers are functions over strings, modelled as sequences of characters with one character per byte.
A parser returns `Err` where the Rust code returns an error, and each one has a writing function beside it.
Lemmas prove that parsing the written form gives the value back.

The stateful parts are imperative Dafny:
- the seat-map step of day 11 and its two alternating buffers (`SeatMap`, `SeatMapPair`);
- the console's loop detection and its in-place flip-and-restore repair search (day 8);
- the ring buffer's `push` and the `consume` loop that uses it (day 9);
- the mask parser and memory loop of day 14;
- the rule-reading loop of day 16;
- the pair and triple searches of day 1;
- the difference-counting loop of day 10;
- the instruction loop of day 12.

Each of these methods is proved against a specification function, and lemmas state what that function means.
Each source file's unit tests are restated as lemmas or methods about the model, except those listed under Left out.

## Model

| member | source | states |
|---|---|---|
| Util.SplitTuple2 | src/util.rs:1-14 | `Some((a, b))` exactly when the pattern occurs, and then `a + pat + b` is the input; `None` when it does not occur |
| Util.SplitTuple2First | src/util.rs:5-10 | the split is at the first occurrence: the pattern occurs right after the first piece and nowhere before it |
| Util.SplitTuple2Of | src/util.rs:5-10 | splitting `a + pat + b` where the pattern does not occur before the end of `a` gives back `(a, b)` |
| Util.SplitTuple2At | src/util.rs:5-10 | a pattern whose first character is not in `a` splits `a + pat + b` into `(a, b)` |
| Util.SplitTuple2Example | src/util.rs:19-25 | `"hello this is dog"` split at `" "` gives `("hello", "this is dog")` |
| Util.SplitTuple2AbsentExample | src/util.rs:26-29 | `"nooooope"` split at `"oops"` gives `None` |
| Text.Find | src/day2.rs:32-39 | `str::find`: the index of the first occurrence of the pattern, `None` exactly when it does not occur |
| Text.FindFromMeaning | src/day2.rs:32-39 | the search from a start index finds the first occurrence at or after it, and nothing exactly when there is none |
| Text.Split | src/day13.rs:15 | `str::split`: at least one piece, the pieces joined by the pattern are the text, and no piece holds the pattern |
| Text.SplitJoin | src/day16.rs:106 | splitting pieces joined by a pattern that starts with a character none of them holds gives the pieces back |
| Text.JoinAbsent | src/day13.rs:15 | a character that no piece holds and that is not the separator is not in the join |
| Text.JoinNonEmpty | src/day13.rs:15 | joining pieces whose first piece is not empty gives a non-empty text |
| Text.SplitAt | src/day16.rs:106 | in `a + pat + b` with no occurrence starting inside `a`, the first piece is `a` |
| Text.SplitAbsent | src/day16.rs:106 | a text without the pattern is a single piece |
| Text.Lines | src/day13.rs:10-14 | `str::lines`: the empty text has no lines; `LinesCons`, `LinesOne` and `LinesLast` state how the rest is cut at line feeds |
| Text.LinesCons | src/day1.rs:20 | `str::lines`: the first line loses its trailing carriage return and is followed by the lines of the rest |
| Text.LinesOne | src/day1.rs:20 | a non-empty text without a line feed is a single line |
| Text.LinesLast | src/day1.rs:20 | a final line feed does not start an empty line |
| Text.LinesJoin | src/day1.rs:20 | lines joined with line feeds, none empty, none holding a line feed or ending in a carriage return, split back into the same lines |
| Text.SplitWhitespace | src/day4.rs:81 | `str::split_whitespace`: the pieces are non-empty and hold no whitespace |
| Text.SplitWhitespaceCons | src/day4.rs:81 | a word followed by whitespace is the first piece, then the pieces of the rest |
| Text.ParseUnsigned | src/day2.rs:42-43 | unsigned `parse` succeeds exactly on an optional `+` followed by one or more digits |
| Text.ParseSigned | src/day1.rs:20 | signed `parse`: a leading `-` negates the unsigned value of the rest; otherwise it is the unsigned parse |
| Text.ParseShowNat | src/day2.rs:42-43 | writing a natural number in decimal and parsing it gives it back |
| Text.ParseShowInt | src/day1.rs:20 | writing an integer as `Display` does and parsing it gives it back |
| Text.ParseShowSigned | src/day12.rs:118 | writing an integer with an explicit sign and parsing it gives it back |
| Text.ParseAllSigned | src/day10.rs:5-9 | every line parsed as a signed integer, in order |
| CircularBuffers.LastN | src/util/circular_buffer.rs:32-39 | the last `n` items, or all of them when there are at most `n` |
| CircularBuffers.LastNAppend | src/util/circular_buffer.rs:32-39 | keeping the last `n` items before appending changes nothing once the last `n` are kept again |
| CircularBuffers.CircularBuffer.WithCapacity | src/util/circular_buffer.rs:9-17 | a zero capacity is refused; otherwise an empty buffer whose capacity is what the vector reserved (at least the requested one), with the tail at 0, iterating nothing |
| CircularBuffers.CircularBuffer.FillWith | src/util/circular_buffer.rs:18-23 | the buffer keeps the vector's items and its capacity (at least their count), with the tail at 0, and iterates the items; it is full only when the capacity equals the count |
| CircularBuffers.CircularBuffer.IsFull | src/util/circular_buffer.rs:40-43 | full exactly when the length reaches the capacity |
| CircularBuffers.CircularBuffer.Len | src/util/circular_buffer.rs:44-50 | the length is at most the capacity and is the number of items iterated |
| CircularBuffers.CircularBuffer.HeadUnchecked | src/util/circular_buffer.rs:24-31 | one past the newest item is the tail slot again |
| CircularBuffers.CircularBuffer.Slices | src/util/circular_buffer.rs:55-64 | a buffer that is not full is one slice; a full one is split at the tail, the oldest part first |
| CircularBuffers.CircularBuffer.Iter | src/util/circular_buffer.rs:51-54 | iteration yields as many items as are stored |
| CircularBuffers.CircularBuffer.IterPermutes | src/util/circular_buffer.rs:51-64 | iteration yields every stored item exactly once |
| CircularBuffers.CircularBuffer.Push | src/util/circular_buffer.rs:32-39 | appends while there is room; once full, overwrites the tail slot and advances the tail; iteration then yields the last `capacity` items ever pushed, oldest first |
| CircularBuffers.CircularBuffer.Equals | src/util/circular_buffer.rs:77-83 | equal buffers have the same length and the same items |
| CircularBuffers.OverwriteOldest | src/util/circular_buffer.rs:35-38 | overwriting the oldest slot of a full buffer and advancing the tail drops the oldest item and appends the new one in iteration order |
| CircularBuffers.EnumerationExamples | src/util/circular_buffer.rs:88-122 | a buffer of capacity 2 iterates nothing, then `0`, then `0, 1`, then `1, 2` |
| CircularBuffers.OverwrittenBuffer | src/util/circular_buffer.rs:112-122 | after pushing 0, 1 and 2 into capacity 2, the first slot holds 2 and iteration yields 1, 2 |
| CircularBuffers.EqualityExample | src/util/circular_buffer.rs:77-83 | a buffer that has overwritten its first slot equals a filled one with the same items in iteration order, though their storage differs |
| Results.OkOr | src/day2.rs:32 | `Option::ok_or`: an error exactly when the option is empty, and otherwise its value |
| Results.CollectOk | src/day1.rs:20 | collecting results: one value per item, each the `Ok` of its item |
| Results.CollectTwo | src/day1.rs:20 | two items that both succeed collect to their two values |
| Results.CollectThree | src/day1.rs:20 | three items that all succeed collect to their three values |
| Results.CollectFour | src/day14.rs:10-11 | four items that all succeed collect to their four values |
| Integers.QuotRem | src/day12.rs:44-45 | Rust's truncating `/` and `%` put the dividend back together, the remainder is smaller than the divisor in size, and it is zero exactly when the divisor divides the dividend |
| Integers.Quot | src/day12.rs:44 | Rust's `/`, rounded toward zero; `QuotRem` states that it and `Rem` put the dividend back together |
| Integers.Rem | src/day3.rs:58 | Rust's `%`, taking the sign of the dividend; `QuotRem` bounds it by the divisor in size and `RemNormalised` relates it to the Euclidean remainder |
| Integers.RemNormalised | src/day12.rs:46 | a negative truncating remainder moved up by the divisor is the Euclidean remainder |
| Integers.Abs | src/day12.rs:13 | `abs` is the value or its negation, and never negative |
| Integers.SumAppend | src/day16.rs:11-14 | `sum` over two lists joined is the sum of their sums |
| Binary.Pow2Add | src/day14.rs:73-74 | shifting left by `m + n` is shifting by `m` then by `n` |
| Binary.SelectBound | src/day5.rs:54-61 | the number read from `n` characters is below 2^n |
| Binary.SelectSnoc | src/day5.rs:56-59 | reading one more character shifts the number left and adds one bit for a selected character |
| Binary.SelectAbsent | src/day14.rs:72-86 | a text without the selected character reads as 0 |
| Day1.ParseNumbers | src/day1.rs:20-21 | succeeds exactly when every line parses as an integer; then it holds one value per line, in order |
| Day1.SearchPair | src/day1.rs:25-33 | the nested search finds the first pair `i <= j` (smallest `i`, then smallest `j`) summing to the target, and finds none exactly when no such pair exists |
| Day1.FindPair | src/day1.rs:19-34 | `Ok` holds the first pair's values `[v[i], v[j]]`; `Err` exactly when a line does not parse, there are fewer than two entries, or no pair sums to the target |
| Day1.PairSums | src/day1.rs:28-29 | the returned pair has two values summing to the target |
| Day1.NoPairAtAll | src/day1.rs:25-33 | when the search finds nothing, no two entries, in either order, sum to the target |
| Day1.SearchTriple | src/day1.rs:42-53 | the nested search, whose innermost loop runs over `vec[n_idx..]`, finds the first triple it visits that sums to the target, and none exactly when there is no such triple |
| Day1.FindTriplet | src/day1.rs:36-54 | `Ok` holds the first visited triple as `[n, m, o]`; `Err` exactly when a line does not parse, there are fewer than three entries, or no visited triple sums to the target |
| Day1.TripleSums | src/day1.rs:47-48 | the returned triple consists of entries of the report and sums to the target |
| Day1.NoTripleAtAll | src/day1.rs:42-53 | every triple of positions `p <= q <= r` is visited, so when the search finds nothing no three entries, in any order, sum to the target |
| Day1.ProductAppend | src/day1.rs:11 | the fold from 1 multiplies over concatenation |
| Day1.Compute | src/day1.rs:10-12 | the product is `Ok` exactly when the search succeeded |
| Day1.ProductSmall | src/day1.rs:11 | the fold over a pair is `a * b` and over a triple `a * b * c` |
| Day1.ParseShowNumbers | src/day1.rs:20-21 | writing the entries one per line and parsing the report gives them back |
| Day1.ParseTwoLines | src/day1.rs:20-21 | a report of two number lines parses to those two numbers |
| Day1.ParseCarriageReturn | src/day1.rs:75 | `"1\r\n2"` parses to `[1, 2]`: the carriage return goes with the line end |
| Day1.PairOfTwo | src/day1.rs:73-76 | `find_pair("1\r\n2", 3)` is `Ok([1, 2])` |
| Day1.PairOfNone | src/day1.rs:65-68 | `find_pair("", 2020)` is an error |
| Day1.ParseWords | src/day1.rs:71 | `"asdf\r\nasdf"` does not parse |
| Day1.PairOfWords | src/day1.rs:69-72 | `find_pair("asdf\r\nasdf", 2020)` is an error |
| Day1.ExampleFirstPair | src/day1.rs:77-80 | in the example report the first pair summing to 2020 is 1721, 299 |
| Day1.ExampleHasTriple | src/day1.rs:85-90 | the example report holds a visited triple summing to 2020 |
| Day1.ExampleFirstTriple | src/day1.rs:85-90 | in the example the first triple found is 979, 366, 675, which sorted is 366, 675, 979 |
| Day1.ExamplePair | src/day1.rs:77-84 | the example gives the pair `[1721, 299]` and the product 514579 |
| Day1.ExampleTriple | src/day1.rs:85-90 | the example gives `[366, 979, 675]`, the multiset {366, 675, 979} |
| Day2.Single | src/day2.rs:23-30 | `single` succeeds exactly on a segment of one character, and returns that character |
| Day2.Delimiters | src/day2.rs:32-39 | the first `:`, the first `-` before it and the first space between them, in the order `-`, space, `:` |
| Day2.FieldsMeaning | src/day2.rs:40-46 | the policy is built exactly when both bounds parse and one character lies between the space and the `:`; it keeps the line, the bounds, that character and the index two after the `:` |
| Day2.ParseNeedsColon | src/day2.rs:32 | a line without `:` is refused |
| Day2.ParsedDelimiters | src/day2.rs:32-46 | a parsed policy comes from delimiters found in that order and the fields between them |
| Day2.ParseMeaning | src/day2.rs:40-46 | a parsed policy keeps its line, the control character sits just before the `:`, and the `:` is two places before the password |
| Day2.Parse | src/day2.rs:22-47 | `Policy::parse`: the three delimiters found, then the fields; `ParseNeedsColon`, `ParsedDelimiters`, `ParseMeaning` and `ParseFormat` state when it fails and what a parsed policy keeps |
| Day2.Password | src/day2.rs:48-50 | the password is the rest of the line from the password index |
| Day2.Occurrences | src/day2.rs:64-68 | the number of times the control character occurs in the password, never more than the password's length |
| Day2.PartOneValid | src/day2.rs:63-70 | `PartOne::is_valid`: the count of the control character lies between `lower` and `upper`, inclusive |
| Day2.PartTwoValid | src/day2.rs:73-84 | `PartTwo::is_valid`: the last character up to position `upper` and the first from position `lower` are compared with the control character, and exactly one must match; `PartTwoMeaning` restates this as the XOR of the two 1-based positions |
| Day2.OccurrencesMultiset | src/day2.rs:64-68 | counting the control character agrees with its multiplicity in the password |
| Day2.PartTwoMeaning | src/day2.rs:73-84 | part two accepts exactly when one, and only one, of the 1-based positions `lower` and `upper` holds the control character |
| Day2.DelimitersFound | src/day2.rs:32-39 | the delimiters are those the three searches find in turn, the space offset counted from the `-` |
| Day2.DelimitersOf | src/day2.rs:32-39 | in a written line the delimiters sit right after the lower bound, after the upper bound and after the control character |
| Day2.ParseSplitOf | src/day2.rs:32-46 | parsing a written line reads the fields between those delimiters |
| Day2.FieldsOf | src/day2.rs:40-46 | the fields of a written line are its two numbers and its control character, the password five characters after the numbers |
| Day2.ParseFormat | src/day2.rs:22-47 | parsing a written policy line gives back its bounds, its control character and its password index, when the control character is not `:` |
| Day2.PasswordFormat | src/day2.rs:48-50 | the password of a policy read from a written line is the password it was written with |
| Day2.Verdicts | src/day2.rs:11-19 | one verdict per policy, in order, each the rule's verdict on that policy |
| Day2.CountValid | src/day2.rs:17-18 | at most as many policies are counted as there are |
| Day2.Evaluate | src/day2.rs:11-19 | at most one valid policy per line |
| Day2.CountValidVerdicts | src/day2.rs:17-18 | the count is the number of `true` verdicts |
| Day2.GoodPolicyParses | src/day2.rs:94-106 | `"1-3 a: aaa"` parses to bounds 1 and 3, control `a`, password index 7 |
| Day2.GoodPolicyJudged | src/day2.rs:107-118 | its password is `"aaa"`, which part one accepts; `"1-3 a: bbb"` part one rejects |
| Day2.ExampleJudged0 | src/day2.rs:119-145 | `"1-3 a: abcde"` is valid for both rules |
| Day2.ExampleJudged1 | src/day2.rs:119-145 | `"1-3 b: cdefg"` is invalid for both rules |
| Day2.ExampleJudged2 | src/day2.rs:119-145 | `"2-9 c: ccccccccc"` is valid for part one and invalid for part two |
| Day2.ExampleVerdicts | src/day2.rs:119-145 | the verdicts are `[true, false, true]` for part one and `[true, false, false]` for part two |
| Day2.ExampleParsed | src/day2.rs:121-125 | every example line parses, to the three example policies |
| Day2.EvaluateLines | src/day2.rs:11-19 | evaluating a text counts the valid policies among its parsed lines |
| Day2.ExampleEvaluate | src/day2.rs:131-134 | `evaluate::<PartOne>` on the example is 2 |
| Day3.ParseLines | src/day3.rs:28-42 | one row of trees per line |
| Day3.Parse | src/day3.rs:28-42 | `TravelMap::parse`: the travel map of the lines of the text; `ParseExample` and `IndexMeaning` state what it holds |
| Day3.Trees | src/day3.rs:32-38 | the enumerated bytes of a line from a column on, filtered to `#` and mapped to tree entries; `TreesFrom` and `TreesAscending` state what it lists |
| Day3.Wrap | src/day3.rs:58-63 | the truncating remainder of the column by the width, moved up by the width when negative; `WrapIsMod` proves it is the Euclidean remainder |
| Day3.Index | src/day3.rs:51-70 | `Index<Vec2>`: a row outside the map is empty, otherwise the tile of the row's entry for the wrapped column, or empty (`FindColumn` is the `iter().find` over the row); `IndexMeaning` states it in terms of the `#` characters of the text |
| Day3.GetPath | src/day3.rs:3-12 | `get_path`: the tiles at `(3k, k)` while `k` is below the height (`PathFrom` is the `successors`/`take_while` chain from a given row); `PathMeaning` states it tile by tile |
| Day3.WrapIsMod | src/day3.rs:58-63 | the truncating remainder moved up by the width when negative is the Euclidean remainder, in `[0, width)` |
| Day3.FindTrees | src/day3.rs:32-38 | the entry for a column among a row's trees exists exactly when that column holds `#`, and it is a tree |
| Day3.TreesFrom | src/day3.rs:32-38 | every listed tree is at a `#` column of its line |
| Day3.TreesAscending | src/day3.rs:32-38 | a parsed row lists its trees' columns in increasing order |
| Day3.IndexMeaning | src/day3.rs:51-70 | a tile is a tree exactly when its row is in the map and the wrapped column holds `#`; rows above or below the map are empty |
| Day3.PathFromMeaning | src/day3.rs:3-12 | from row `j` the path has one tile per remaining row, row `j + k` at column `3(j + k)` |
| Day3.PathMeaning | src/day3.rs:3-12 | the path meets exactly one tile per row, row `k`'s tile at column `3k` |
| Day3.ExampleTextLines | src/day3.rs:75-85 | the lines of `EXAMPLE` are the example's eleven rows, so `TravelMap::parse(EXAMPLE)` is the map of those rows |
| Day3.ExampleShape | src/day3.rs:86-98 | the map of the example's rows is 11 wide and 11 high, with trees in columns 0, 4 and 8 of its second row |
| Day3.ParseExample | src/day3.rs:86-98 | `TravelMap::parse(EXAMPLE)` is 11 wide and 11 high, and its second row has trees in columns 0, 4 and 8 |
| Day3.ExampleCells | src/day3.rs:99-133 | the seven cells the indexing test reads, on the map of the example's rows |
| Day3.IndexExamples | src/day3.rs:99-133 | indexing `TravelMap::parse(EXAMPLE)` at (0,0) is empty, (2,0) a tree, (0,-1) and (0,11) empty, (0,1), (11,1) and (-11,1) trees |
| Day3.Slope | src/day3.rs:3-12 | one tile for each row from `y` on |
| Day3.PathIsSlope | src/day3.rs:3-12 | the path over a parsed map is the slope read directly off its lines, each as wide as the first |
| Day3.SlopeAt | src/day3.rs:3-12 | the slope's `k`-th tile is that of row `y + k` at column `3(y + k)` modulo the width |
| Day3.SlopeOf | src/day3.rs:3-12 | a slope is fixed by its tiles |
| Day3.ExampleTiles | src/day3.rs:134-139 | the tiles the example's slope meets, row by row |
| Day3.ExamplePath | src/day3.rs:134-139 | the path over the map of the example's rows is E, E, T, E, T, T, E, T, T, T, T |
| Day3.PathExample | src/day3.rs:134-139 | the path over `TravelMap::parse(EXAMPLE)` is E, E, T, E, T, T, E, T, T, T, T |
| Day4.Number | src/day4.rs:66-73 | an integer `parse` as a `Result`: `Ok` exactly when the text parses, with its value |
| Day4.ParseLength | src/day4.rs:46-54 | a `cm` suffix is tried first, then `in`, otherwise a bare number; the number before the suffix (or the whole text) must parse (`Text.EndsWith` is `str::ends_with`) |
| Day4.ParseFormatLength | src/day4.rs:46-54 | every length written with its unit (none for `Unknown`) parses back to itself |
| Day4.KindOfKey | src/day4.rs:65-74 | a key selects a kind whose key it is; any other key selects none |
| Day4.KindOfKeyInverse | src/day4.rs:65-74 | each kind's key selects that kind again |
| Day4.FieldOfKind | src/day4.rs:66-73 | the field read for a kind is of that kind |
| Day4.FieldFor | src/day4.rs:65-75 | an unknown key is an error; a field read for a key has that key |
| Day4.ParseField | src/day4.rs:59-76 | a text without `:` is an error; a parsed field's key is the text before the first `:` |
| Day4.NumericFieldsValue | src/day4.rs:66-73 | a number written out is read back by every numeric field |
| Day4.HeightValue | src/day4.rs:69 | a written length is read back as that height |
| Day4.FieldOfKindValue | src/day4.rs:65-75 | a field's value text read for its own kind gives the field back |
| Day4.FieldForValue | src/day4.rs:65-75 | a field's key with its value text gives the field back |
| Day4.ParseFormatField | src/day4.rs:59-76 | every field written as `key:value` parses back to itself, colons in a string value included |
| Day4.ParseFields | src/day4.rs:81-84 | every word parses as a field, or the whole record is an error; the fields are in word order |
| Day4.KindsAppend | src/day4.rs:126 | one more field adds its kind to the set of kinds |
| Day4.KindsCons | src/day4.rs:126 | the kinds of a record are the first field's kind and those of the rest |
| Day4.DistinctCons | src/day4.rs:131 | the kinds are distinct exactly when the first does not recur and the rest are distinct |
| Day4.KindsCount | src/day4.rs:131 | a record has at most as many kinds as fields, and exactly as many when no kind repeats |
| Day4.KindSets | src/day4.rs:127-130 | there are eight kinds, and seven required ones: all but the country id |
| Day4.ValidHasRequired | src/day4.rs:132-134 | eight kinds, or seven without the country id, include all required kinds |
| Day4.RequiredIsValid | src/day4.rs:132-134 | a set holding all required kinds has eight kinds, or seven without the country id |
| Day4.RecordValidMeaning | src/day4.rs:125-135 | `is_valid` accepts exactly the records whose kinds are distinct and include the seven required ones |
| Day4.ContentsValidMeaning | src/day4.rs:88-122 | the contents check accepts exactly when every field passes its rule, and otherwise names a field that fails |
| Day4.ContentsDefinedWithoutEmpty | src/day4.rs:89-94 | without an empty hair colour, which `is_rgb` would index out of bounds, every record has a verdict |
| Day4.ParseRecord | src/day4.rs:78-86 | `Record::from_str`: the whitespace-separated words each parsed as a field, or an error if one fails; `ParseFields` and `ParseShowRecord` state its meaning |
| Day4.FieldValid | src/day4.rs:88-122 | `Field::is_valid`: the year, height, colour, eye colour and passport id rules; `NumberFieldExamples` and `TextFieldExamples` check each on both sides of its bounds |
| Day4.RecordValid | src/day4.rs:125-135 | `Record::is_valid`: as many distinct kinds (`KindOf` is `mem::discriminant`) as fields, and all eight kinds or seven without the country id; `RecordValidMeaning` states it as distinct kinds including the seven required ones |
| Day4.ContentsValid | src/day4.rs:136-138 | `Record::is_contents_valid`: every field passes its rule, checked in order; `ContentsValidMeaning` states both directions |
| Day4.Records | src/day4.rs:140-142 | the record texts of a batch: the text split at `"\n\n"`; `ParseShowBatch` proves that a written batch splits back into its records |
| Day4.CountValid | src/day4.rs:8-12 | at most one valid record per record text |
| Day4.Part1 | src/day4.rs:8-12 | `part1` counts at most as many records as the text holds |
| Day4.FullyValidWithin | src/day4.rs:13-20 | checking the contents as well can only reject more records |
| Day4.CountFullyValid | src/day4.rs:13-20 | the number of records that both `is_valid` and `is_contents_valid` accept; `FullyValidWithin` bounds it by the `is_valid` count |
| Day4.Part2 | src/day4.rs:13-20 | `part2`: that count over the records of the text; `Part2WithinPart1` and the example lemmas state what it gives |
| Day4.Part2WithinPart1 | src/day4.rs:8-20 | `part2` never exceeds `part1` |
| Day4.ParseBirthYearExample | src/day4.rs:153-156 | `"byr:1234"` parses to the birth year 1234 |
| Day4.ParseHairColourExample | src/day4.rs:157-163 | `"hcl:Gross"` parses to the hair colour `"Gross"` |
| Day4.ParseHeightExample | src/day4.rs:164-170 | `"hgt:123cm"` parses to a height of 123 centimetres |
| Day4.ParseYearsExample | src/day4.rs:171-176 | the words `byr:1` and `iyr:1` parse to a birth year and an issue year |
| Day4.YearWords | src/day4.rs:171-182 | `"byr:1"`, a whitespace character, `"iyr:1"` splits into the two words |
| Day4.ParseRecordLineExample | src/day4.rs:171-176 | `"byr:1 iyr:1"` parses to `[BirthYear(1), IssueYear(1)]` |
| Day4.ParseRecordMultilineExample | src/day4.rs:177-182 | `"byr:1\niyr:1"` parses to the same two fields |
| Day4.MinimalKinds | src/day4.rs:218-230 | the minimal record's kinds are the seven required ones |
| Day4.RecordValidExamples | src/day4.rs:214-234 | the empty record is invalid and the minimal record valid |
| Day4.WithCountryExample | src/day4.rs:235-240 | adding a country id keeps the minimal record valid |
| Day4.DuplicateExample | src/day4.rs:241-246 | a second birth year makes the record invalid |
| Day4.NumberFieldExamples | src/day4.rs:111-116 | the year and height rules on either side of their bounds, and a height without unit rejected |
| Day4.TextFieldExamples | src/day4.rs:89-119 | the colour, eye colour and passport id rules on accepted and rejected values |
| Day5.ParsePosition | src/day5.rs:27-46 | a pass parses exactly when it has ten characters, the first seven `F`/`B` and the last three `L`/`R`, and keeps them |
| Day4.ParseShowRecord | src/day4.rs:78-86 | fields written as `key:value` words separated by any whitespace characters parse back to those fields |
| Day4.ParseShowBatch | src/day4.rs:140-142 | records written with blank lines between them split back into the written records, each of which parses to its fields |
| Day4.RequiredOnce | src/day4.rs:125-135 | a record holding every required kind, with seven fields or eight including the country id, is valid |
| Day4.MissingInvalid | src/day4.rs:125-135 | a record lacking a required kind is invalid |
| Day4.AllFieldsValid | src/day4.rs:136-138 | a record whose every field passes its rule passes the contents check |
| Day4.SomeFieldInvalid | src/day4.rs:136-138 | a record with a field that fails its rule fails the contents check |
| Day4.Part1OfFour | src/day4.rs:8-12 | on four written records `part1` counts those that `is_valid` accepts |
| Day4.Part2OfFour | src/day4.rs:13-20 | on four written records `part2` counts those that both checks accept |
| Day4.ExampleRecord0 | src/day4.rs:184-185 | the first example record is valid |
| Day4.ExampleRecord1 | src/day4.rs:187-188 | the second example record lacks a height and is invalid |
| Day4.ExampleRecord2 | src/day4.rs:190-193 | the third example record lacks only the country id and is valid |
| Day4.ExampleRecord3 | src/day4.rs:195-196 | the fourth example record lacks a birth year and is invalid |
| Day4.Part1Example | src/day4.rs:184-196 | the example batch splits into four records and `part1` counts 2 of them |
| Day4.AcceptedRecord0 | src/day4.rs:279-280 | the first record of the accepted part 2 example passes both checks |
| Day4.AcceptedRecord1 | src/day4.rs:282-283 | the second record of the accepted part 2 example passes both checks |
| Day4.AcceptedRecord2 | src/day4.rs:285-288 | the third record of the accepted part 2 example passes both checks |
| Day4.AcceptedRecord3 | src/day4.rs:290 | the fourth record of the accepted part 2 example passes both checks |
| Day4.AcceptedEach | src/day4.rs:279-290 | each of the four accepted example records passes both checks |
| Day4.Part2OfFourAccepted | src/day4.rs:13-20 | four written records that pass both checks make `part2` count 4 |
| Day4.Part2AcceptedExample | src/day4.rs:277-292 | the accepted part 2 example gives `part2` = 4 |
| Day4.RejectedRecord0 | src/day4.rs:255-256 | the first rejected example record passes `is_valid` and fails `is_contents_valid`, on its expiration year |
| Day4.RejectedRecord1 | src/day4.rs:258-260 | the second rejected example record passes `is_valid` and fails `is_contents_valid`, on its expiration year |
| Day4.RejectedRecord2 | src/day4.rs:262-263 | the third rejected example record passes `is_valid` and fails `is_contents_valid`, on its hair colour |
| Day4.RejectedRecord3 | src/day4.rs:265-267 | the fourth rejected example record passes `is_valid` and fails `is_contents_valid`, on its height |
| Day4.RejectedEach | src/day4.rs:255-267 | each of the four rejected example records passes `is_valid` and fails `is_contents_valid` |
| Day4.Part2OfFourRejected | src/day4.rs:8-20 | four written records that pass `is_valid` and fail `is_contents_valid` make `part1` count 4 and `part2` 0 |
| Day4.Part2RejectedExample | src/day4.rs:253-276 | the rejected part 2 example has four records that `is_valid` accepts and `is_contents_valid` rejects: `part1` = 4 and `part2` = 0 |
| Day5.GetIndex | src/day5.rs:54-62 | `get_index`: the fold over the ten characters from `(0, 0)`; `IndexMeaning` states the row and column it reads |
| Day5.GetId | src/day5.rs:49-51 | `get_id`: `row * 8 + col` of the pass's index; `IdInjective` and the examples state its values |
| Day5.IdOf | src/day5.rs:49-51 | `get_id_from_index`: `row * 8 + col`; `IdInjective` states that it tells seats apart and stays below 1024 |
| Day5.MaxId | src/day5.rs:4-14 | the highest id among a non-empty list of passes; `MaxIdIsUpperBound` and `MaxIdAttained` state that it is the maximum |
| Day5.Part1 | src/day5.rs:4-14 | `part1`: the highest id of the passes, one per line; it requires every line to parse and the text to have a line, where the source panics; `MaxIdIsUpperBound` and `MaxIdAttained` state that the value is the maximum |
| Day5.FoldRows | src/day5.rs:55-61 | over `F`/`B` characters the fold reads the row as a binary number, `B` being 1, and leaves the column at 0 |
| Day5.FoldColumns | src/day5.rs:55-61 | over `F`/`B` then `L`/`R` characters the fold reads the row from the first part and the column from the second, `R` being 1 |
| Day5.IndexMeaning | src/day5.rs:54-62 | `get_index` reads the row from the first seven characters and the column from the last three, the row below 128 and the column below 8 |
| Day5.IdInjective | src/day5.rs:49-51 | `row * 8 + col` tells seats apart and stays below 1024 |
| Day5.SelectDigits | src/day5.rs:55-61 | spelling a number below 2^n in binary and reading it back gives the number |
| Day5.DigitsSelect | src/day5.rs:55-61 | reading binary characters and spelling the number again gives the characters back |
| Day5.EncodeWellFormed | src/day5.rs:27-46 | the pass of a seat is well formed and spells its row and column |
| Day5.Joined | src/day5.rs:29-41 | seven `F`/`B` characters then three `L`/`R` characters make a well-formed pass |
| Day5.EncodeParse | src/day5.rs:27-62 | every seat's pass parses and reads back as that seat |
| Day5.ParseEncode | src/day5.rs:27-62 | every pass is the pass of the seat it reads as |
| Day5.MaxIdIsUpperBound | src/day5.rs:4-14 | no pass has an id above the maximum `part1` takes |
| Day5.MaxIdAttained | src/day5.rs:4-14 | some pass has exactly that maximum id |
| Day5.SeatOf | src/day5.rs:27-62 | a pass that spells a seat parses and reads as that seat |
| Day5.FirstSeatExample | src/day5.rs:76-82 | `FFFFFFFLLL` is seat (0, 0) |
| Day5.LastSeatExample | src/day5.rs:83-89 | `BBBBBBBRRR` is seat (127, 7) |
| Day5.FirstExample | src/day5.rs:90-115 | `FBFBBFFRLR` is row 44, column 5, id 357 |
| Day5.SecondExample | src/day5.rs:90-115 | `BFFFBBFRRR` is row 70, column 7, id 567 |
| Day5.ThirdExample | src/day5.rs:90-115 | `FFFBBBFRRR` is row 14, column 7, id 119 |
| Day5.FourthExample | src/day5.rs:90-115 | `BBFFBBFRLL` is row 102, column 4, id 820 |
| Day6.IsAsciiWhitespace | src/day6.rs:11 | `u8::is_ascii_whitespace`: space, tab, line feed, form feed and carriage return, and not vertical tab |
| Day6.Answers | src/day6.rs:10-19 | the set of answered letters is defined exactly when every byte is ASCII whitespace or a lowercase letter |
| Day6.AnswersMeaning | src/day6.rs:10-19 | the answered letters are exactly the lowercase letters of the group, whitespace skipped |
| Day6.CharsBelow | src/day6.rs:13-20 | a set of letters drawn from 26 code points has at most 26 members |
| Day6.Group | src/day6.rs:9-21 | a group's count is defined exactly when it holds only whitespace and lowercase letters, and is at most 26 |
| Day6.GroupMeaning | src/day6.rs:9-21 | a group's count is the number of distinct lowercase letters in it |
| Day6.ToGroups | src/day6.rs:8-22 | one count per piece of the text split at `"\n\n"`, each that piece's group count |
| Day6.Part1 | src/day6.rs:3-5 | `part1`: the sum of the group counts, required to be all `Ok` where the source unwraps; `Part1Bounded` bounds it by 26 per group |
| Day6.SumBounded | src/day6.rs:3-5 | a sum of counts each at most a bound is at most the bound times their number |
| Day6.Part1Bounded | src/day6.rs:3-5 | `part1` is at most 26 per group |
| Text.SplitGroup | src/day6.rs:9 | a group without a blank line that does not end in a line feed is separated from what follows by the first blank line |
| Text.SplitLastGroup | src/day6.rs:9 | a group without a blank line is one piece |
| Text.SplitJoinGroups | src/day6.rs:9 | groups written with blank lines between them split back into the same groups |
| Day6.ExampleSplits | src/day6.rs:28-42 | the example text splits into its five groups |
| Day6.AnswersCons | src/day6.rs:10-19 | a leading letter joins the answers; leading whitespace changes nothing |
| Day6.CountABC | src/day6.rs:28 | `"abc"` counts 3 |
| Day6.CountColumn | src/day6.rs:30-32 | `"a\nb\nc"` counts 3 |
| Day6.CountTwoLines | src/day6.rs:34-35 | `"ab\nac"` counts 3 |
| Day6.CountRepeated | src/day6.rs:37-40 | `"a\na\na\na"` counts 1 |
| Day6.CountSingle | src/day6.rs:42 | `"b"` counts 1 |
| Day6.FiveGroups | src/day6.rs:3-5 | five counted groups collect to their counts, whose sum is `part1` |
| Day6.ExampleGroupsCounted | src/day6.rs:43-53 | the example gives `[3, 3, 3, 1, 1]` and `part1` 11 |
| Day7.ParseDescriptor | src/day7.rs:31-41 | a descriptor is the text before the first ` bag`, which must end the text or be followed by `s` alone; a text without ` bag` is an error |
| Day7.NoBagBefore | src/day7.rs:32 | ` bag` cannot start inside a descriptor that does not hold it |
| Day7.ParseDescriptorOf | src/day7.rs:32-37 | a descriptor followed by ` bag` and a remainder parses exactly when the remainder is empty or `s` |
| Day7.ParseShowDescriptor | src/day7.rs:31-41 | a descriptor written with `bag` or `bags` parses back to itself |
| Day7.ParseDescriptorExamples | src/day7.rs:79-86 | `asdf bag` and `asdf bags` both name `asdf`; `asdf bags.` is rejected |
| Day7.ParseContent | src/day7.rs:52-58 | a content without a space is an error; a parsed content is a quantity without spaces that parses, a space, and a written descriptor |
| Day7.ParseContentBadQuantity | src/day7.rs:53-54 | a content whose quantity is not a number is an error |
| Day7.ParseShowContent | src/day7.rs:52-58 | a content written as `<n> <descriptor> bag(s)` parses back to itself |
| Day7.ParseRule | src/day7.rs:44-61 | a rule without ` contain ` is an error; a parsed rule's owner is the descriptor before the first ` contain ` |
| Day7.ParseRuleContents | src/day7.rs:50-59 | a parsed rule's contents are the parsed `, `-separated items after ` contain `, in order |
| Day7.ShowContents | src/day7.rs:50-59 | one written item per content, in order |
| Day7.ParseShowContents | src/day7.rs:50-59 | written contents of plain descriptors split back at `, ` and parse back to the contents |
| Day7.NoContainBefore | src/day7.rs:45 | ` contain ` cannot start inside `<owner> bags` |
| Day7.ParseShowRule | src/day7.rs:44-61 | a written rule of plain descriptors with at least one content parses back to itself |
| Day7.ParseRuleWithoutContain | src/day7.rs:45-48 | a rule without ` contain ` is rejected |
| Day7.ParseRuleExample | src/day7.rs:87-96 | `owner bags contain 1 asdf bag, 2 jkl; bags` is the rule with owner `owner` holding one `asdf` and two `jkl;` |
| Day7.PlainWithoutSpace | src/day7.rs:44-61 | a descriptor without spaces or commas is plain |
| Day8.Flip | src/day8.rs:42-54 | `jmp` and `nop` exchanged with the argument kept, the pair `get_flippables` lists; `acc` is left as it is |
| Day8.NewState | src/day8.rs:94-99 | the machine starts at address 0 with accumulator 0 |
| Day8.Next | src/day8.rs:100-122 | there is no successor exactly when the address is negative or past the program; `acc` adds its argument to the accumulator and moves on by one, `jmp` moves the address by its argument, `nop` moves on by one |
| Day8.Addresses | src/day8.rs:101-104 | the addresses that hold an instruction are exactly `0..len` |
| Day8.GetOutcome | src/day8.rs:11-29 | the loop over states with a visited set returns what the run of the machine from the start state returns |
| Day8.Run | src/day8.rs:11-29 | the loop of `get_outcome` from a state and a visited set, recursing on the next state; `RunMeaning` states where it stops and which outcome it reports |
| Day8.Evaluate | src/day8.rs:11-29 | the result of `get_outcome`: the run from the start state with nothing visited; `OutcomeMeaning` states it as the first repeated address or the termination, and `GetOutcome` computes it |
| Day8.Reach | src/day8.rs:12-20 | the state after `k` steps of `next` from the start state, if the machine gets that far; `RunMeaning` and `OutcomeMeaning` state `get_outcome` through it |
| Day8.ReachPrefix | src/day8.rs:13-20 | every state before a reached one had a successor, so its address lies inside the program |
| Day8.VisitedInRange | src/day8.rs:21-27 | the visited set only holds addresses inside the program |
| Day8.VisitedStep | src/day8.rs:23 | each step adds the current address to the visited set |
| Day8.RunMeaning | src/day8.rs:22-28 | a run stops at a later reached state with all earlier states at distinct addresses; it reports a loop exactly when that state's address was visited before, and a termination only when that state has no successor |
| Day8.OutcomeMeaning | src/day8.rs:11-29 | `get_outcome` returns `Loop` with the first state whose address repeats, or `Terminate` with the last state, which has no successor |
| Day8.FlippablesFrom | src/day8.rs:36-55 | every listed entry is a `jmp` or `nop` of the program with its index and its flipped form |
| Day8.FlippablesComplete | src/day8.rs:39-54 | every `jmp` and `nop` is listed, and the list is in increasing index order |
| Day8.FlippablesSkip | src/day8.rs:53 | an `acc` is not listed |
| Day8.FlippablesTake | src/day8.rs:43-52 | a `jmp` or `nop` is listed before every later instruction |
| Day8.RepairSearchFrom | src/day8.rs:60-67 | the search over the listed flips returns the final state of the first flip that terminates, or nothing when no flip does |
| Day8.FirstRepair | src/day8.rs:34-68 | the result of `part2` on a program: the search over the listed flips; `FirstRepairMeaning` states what it finds and `Repair` that the in-place loop returns it |
| Day8.FirstRepairMeaning | src/day8.rs:34-68 | `part2` finds the lowest-index flip that makes the program terminate, or reports that no single flip does |
| Day8.Repair | src/day8.rs:56-67 | the in-place flip-run-restore loop returns the first repair; the program is unchanged when there is none and differs only by the winning flip otherwise |
| Day8.ParseKind | src/day8.rs:124-134 | exactly `nop`, `acc` and `jmp` parse, each to the kind whose mnemonic it is |
| Day8.ParseInstructionMeaning | src/day8.rs:135-145 | a line without a space is refused; a parsed instruction's mnemonic is the text before the first space and its argument parses from the text after it |
| Day8.ParseInstruction | src/day8.rs:135-145 | `Instruction::from_str`: mnemonic and signed argument around the first space; `ParseInstructionMeaning` and `ParseFormat` state when it fails and that it inverts the writer |
| Day8.ParseTokens | src/day8.rs:139-140 | a line that splits into a known mnemonic and a number parses to that instruction |
| Day8.ParseMnemonic | src/day8.rs:127-132 | each kind's mnemonic parses back to the kind |
| Day8.ParseFormat | src/day8.rs:135-145 | an instruction written as `<mnemonic> <signed argument>` parses back to itself |
| Day8.ParseProgram | src/day8.rs:5-10 | one instruction per line, each the parse of its line; `Parses` is the demand that every line parse, since each parse is unwrapped |
| Day8.Part1 | src/day8.rs:31-33 | `part1` is `get_outcome` of the parsed program |
| Day8.Part2 | src/day8.rs:34-68 | `part2` is the first repair of the parsed program |
| Day8.ParseAccExample | src/day8.rs:152-156 | `acc +4` is an `acc` with argument 4 |
| Day8.ParseJmpExample | src/day8.rs:157-160 | `jmp -4` is a `jmp` with argument -4 |
| Day8.ParseBareExample | src/day8.rs:141-143 | `nop` alone does not tokenise |
| Day8.ParseUnknownExample | src/day8.rs:131 | an unknown mnemonic is refused |
| Day8.NextExamples | src/day8.rs:163-179 | the empty program has no successor to the start state; one `nop` takes it to address 1 |
| Day8.RunStep | src/day8.rs:22-27 | a run whose current address is new continues from the successor with that address visited |
| Day8.ShowProgram | src/day8.rs:5-10 | a program as lines of the input, the `k`-th line writing the `k`-th instruction |
| Day8.FormatPlain | src/day8.rs:135-145 | a written instruction is a non-empty line without a line feed, ending in a digit |
| Day8.ParseShowProgram | src/day8.rs:5-10 | a program written one instruction per line and joined by line feeds splits back into those lines, each parses, and `parse_instructions` gives the program back |
| Day8.ExampleArguments | src/day8.rs:180-197 | the signed arguments of the examples as the input writes them |
| Day8.ExampleRowsShown | src/day8.rs:180-188 | the lines of `EXAMPLE` write the example program |
| Day8.FixedRowsShown | src/day8.rs:189-197 | the lines of `FIXED_EXAMPLE` write the example program with its `jmp` at index 7 turned into a `nop` |
| Day8.ExampleParses | src/day8.rs:180-188 | every line of `EXAMPLE` parses, and `parse_instructions(EXAMPLE)` is the example program |
| Day8.FixedParses | src/day8.rs:189-197 | every line of `FIXED_EXAMPLE` parses, and `parse_instructions(FIXED_EXAMPLE)` is the example program with index 7 flipped |
| Day8.ExampleProgramLoops | src/day8.rs:199-210 | the example program loops back to address 1 with accumulator 5 |
| Day8.ExampleLoops | src/day8.rs:199-216 | `part1(EXAMPLE)`, the outcome of the parsed text, is a loop back to address 1 with accumulator 5, as is that of the example program |
| Day8.FixedProgramTerminates | src/day8.rs:212-224 | the example program with its last `jmp` turned into a `nop` terminates with accumulator 8 |
| Day8.FixedExampleTerminates | src/day8.rs:212-224 | `get_outcome` of `parse_instructions(FIXED_EXAMPLE)` terminates with accumulator 8 |
| Day8.FlipZeroLoops | src/day8.rs:60-66 | flipping the example's first `nop` still loops |
| Day8.FlipTwoLoops | src/day8.rs:60-66 | flipping the example's `jmp +4` still loops |
| Day8.FlipFourLoops | src/day8.rs:60-66 | flipping the example's `jmp -3` still loops |
| Day8.ExampleFlippables | src/day8.rs:36-59 | the example's flippable instructions are at indices 0, 2, 4 and 7 |
| Day8.ExampleRepair | src/day8.rs:226-228 | the repair of the example program flips index 7 and ends at address 9 with accumulator 8, and so does the repair of `parse_instructions(EXAMPLE)`, which is what `part2(EXAMPLE)` returns |
| Day9.TupleTo | src/day9.rs:35-37 | `first` paired with each item of `second`, in order |
| Day9.TuplesMember | src/day9.rs:38 | every tuple of a slice is a pair of its values at positions `i < j` |
| Day9.TuplesHas | src/day9.rs:38 | the values at any positions `i < j` of a slice form one of its tuples |
| Day9.CrossMember | src/day9.rs:40 | every cross pair is an item of the first slice with an item of the second |
| Day9.CrossHas | src/day9.rs:40 | every item of the first slice with every item of the second is a cross pair |
| Day9.PairAt | src/day9.rs:45 | two distinct positions holding `x` and `y` make `x + y` a pair sum |
| Day9.LeftPairSum | src/day9.rs:38 | a pair within the first slice is a pair of distinct positions of the whole buffer |
| Day9.RightPairSum | src/day9.rs:39 | a pair within the second slice is a pair of distinct positions of the whole buffer |
| Day9.CrossPairSum | src/day9.rs:40 | a pair across the slices is a pair of distinct positions of the whole buffer |
| Day9.BackPairSum | src/day9.rs:41 | a pair across the slices in the other order is a pair of distinct positions of the whole buffer |
| Day9.ChainedPairIsPairSum | src/day9.rs:33-42 | every chained pair is a pair of values at distinct positions of the two slices joined |
| Day9.PairSumIsChained | src/day9.rs:33-42 | every two distinct positions of the slices joined hold a chained pair, in one order or the other |
| Day9.ChainTuplesSum | src/day9.rs:33-45 | some chained pair sums to `next` exactly when two distinct positions of the joined slices do |
| Day9.ChainTuples | src/day9.rs:33-42 | `chain_tuples`: the pairs within each slice, then across them in both orders; `ChainedPairIsPairSum` and `PairSumIsChained` state that these are exactly the pairs at distinct positions |
| Day9.IsValid | src/day9.rs:44-46 | `is_valid` holds exactly when `next` is the sum of the values at two distinct positions of the buffer, in iteration order |
| Day9.BuildBuffer | src/day9.rs:22-31 | `build_buffer` gives a buffer with the capacity the vector reserved for `len(init)` items that iterates exactly `init`, full exactly when that capacity is `len(init)` |
| Day9.WindowBeforeShift | src/day9.rs:52-55 | sliding the window over one item and then looking `i - 1` items on is looking `i` items on |
| Day9.ValidPrefix | src/day9.rs:48-60 | the number of leading items that `consume` accepts, at most the number of items; `ValidPrefixMeaning` states that each is a pair sum of its window and the next is not |
| Day9.FirstInvalid | src/day9.rs:48-60 | the item after that prefix, or nothing when every item is accepted; `Consume` returns it |
| Day9.ValidPrefixMeaning | src/day9.rs:48-60 | each item of the accepted prefix is a pair sum of the last `cap` values before it, and the item after the prefix is not |
| Day9.WindowBeforeStep | src/day9.rs:54 | pushing an item and keeping the last `cap` values gives the window of the next item |
| Day9.ValidPrefixStep | src/day9.rs:53-57 | an item that is a pair sum is accepted and the search continues with the slid window; one that is not ends the prefix |
| Day9.Consume | src/day9.rs:48-60 | `consume` returns the first item that is not a pair sum of its window, or nothing, and leaves the buffer holding the window after the accepted items |
| Day9.FirstInvalidExtend | src/day9.rs:48-60 | items after the first invalid one change neither the accepted prefix nor the value returned, since `consume` returns before reading them |
| Day9.PreambleLength | src/day9.rs:6-11 | the preamble is 25 lines, or all of them when the text is shorter |
| Day9.ParsableRun | src/day9.rs:13-18 | the number of consecutive lines from a given line on that parse as integers, never running past the last line; `ParsableRunMeaning` states that all of them parse and the line after them, if any, does not |
| Day9.ParsableRunMeaning | src/day9.rs:13-18 | every line of the run parses, and the line just after the run, if there is one, does not |
| Day9.ReadValues | src/day9.rs:5-19 | the values `part1` can read: the parsed preamble, then the parsed lines after it up to the first line that does not parse |
| Day9.Part1 | src/day9.rs:5-19 | `part1` is the first value that is not a pair sum of the last `capacity` values before it, after a preamble of the first 25 values (or fewer when the text is shorter), where `capacity` is that of the vector `collect` builds for the preamble; it demands (`Unwraps`) only that the preamble parse and that `consume` stop before the first line that does not, because later lines are never parsed; when every line parses, it is the same over all the values |
| Day9.IsValidExamples | src/day9.rs:66-75 | the buffer of 0, 1, 2 validates 3 but not 5 |
| Day9.SmallPairSums | src/day9.rs:66-75 | 3 is a pair sum of 0, 1, 2 and 5 is not |
| Day9.SlidePast | src/day9.rs:53-54 | an item that is the sum of two distinct window positions is accepted and the full window slides past it |
| Day9.ExampleAccepts0 | src/day9.rs:79-86 | 40 is accepted against 35, 20, 15, 25, 47 |
| Day9.ExampleAccepts1 | src/day9.rs:79-86 | 62 is accepted against the slid window |
| Day9.ExampleAccepts2 | src/day9.rs:79-86 | 55 is accepted against the slid window |
| Day9.ExampleAccepts3 | src/day9.rs:79-86 | 65 is accepted against the slid window |
| Day9.ExampleAccepts4 | src/day9.rs:79-86 | 95 is accepted against the slid window |
| Day9.ExampleAccepts5 | src/day9.rs:79-86 | 102 is accepted against the slid window |
| Day9.ExampleAccepts6 | src/day9.rs:79-86 | 117 is accepted against the slid window |
| Day9.ExampleAccepts7 | src/day9.rs:79-86 | 150 is accepted against the slid window |
| Day9.ExampleAccepts8 | src/day9.rs:79-86 | 182 is accepted against the slid window |
| Day9.ExampleRejects | src/day9.rs:79-86 | 127 is not a pair sum of 95, 102, 117, 150, 182 |
| Day9.ExampleFirstInvalid | src/day9.rs:77-87 | with a five-value preamble, 127 is the first invalid value of the example |
| Day9.ValidatesExample | src/day9.rs:77-87 | consuming the example candidates against the preamble buffer returns 127 |
| Day10.Insert | src/day10.rs:17 | inserting into a sorted list keeps it sorted and adds exactly the one entry |
| Day10.Sort | src/day10.rs:17 | the result is sorted and is an arrangement of the input (same multiset) |
| Day10.SortedUnique | src/day10.rs:17 | two sorted lists with the same entries are equal, so the sorted order is unique |
| Day10.SortedSnoc | src/day10.rs:18 | appending an entry no smaller than the last keeps a list sorted |
| Day10.Chain | src/day10.rs:16-18 | the chain is sorted, holds the outlet 0 and every adapter, and ends with the device three above its largest entry |
| Day10.SortedLast | src/day10.rs:18 | the last entry of a sorted list is its greatest |
| Day10.ChainLast | src/day10.rs:18 | the entry below the device is 0 or an adapter, and no adapter is above it |
| Day10.Diffs | src/day10.rs:20-26 | each difference is the step from one chain entry to the next |
| Day10.DiffsSpan | src/day10.rs:20-26 | the differences add up to the device's joltage minus the outlet's |
| Day10.DiffsSorted | src/day10.rs:20-26 | no difference of a sorted chain is negative |
| Day10.Tally | src/day10.rs:19-26 | the map holds exactly the differences that occur, each with its number of occurrences |
| Day10.TallySnoc | src/day10.rs:24 | counting one more difference adds one to its count and leaves the others |
| Day10.CountDiffs | src/day10.rs:19-26 | the counting loop over neighbouring pairs builds the tally of all the differences |
| Day10.GetChain | src/day10.rs:15-28 | `get_chain` fails exactly when no difference of 1 occurs, and otherwise returns the numbers of differences of 1 and of 3 |
| Day10.ThreeCounted | src/day10.rs:18-27 | the difference to the device is 3, so its lookup never fails, and there is one difference per adapter plus one |
| Day10.ExampleSorted | src/day10.rs:35-39 | the first example's adapters and the outlet, sorted, are 0, 1, 4, 5, 6, 7, 10, 11, 12, 15, 16, 19 |
| Day10.ChainOf | src/day10.rs:16-18 | the chain of any adapters is their sorted arrangement with the outlet, followed by the device |
| Day10.ExampleChain | src/day10.rs:35-39 | the first example's chain ends with the device at 22 |
| Day10.ExampleDiffs | src/day10.rs:35-39 | the first example's chain has seven differences of 1 and five of 3 |
| Day10.ExampleGetChain | src/day10.rs:35-39 | `get_chain` on the first example is `(7, 5)` |
| Day10.Part1 | src/day10.rs:4-12 | `part1` fails exactly when the chain has no difference of 1, and is otherwise the product of the numbers of differences of 1 and of 3 |
| Day11.SeatFromByte | src/day11.rs:31-42 | exactly `.`, `L` and `#` decode, each to the state that is written as that character |
| Day11.DisplayRoundTrip | src/day11.rs:17-42 | writing a state and decoding the character gives the state back |
| Day11.Display | src/day11.rs:17-29 | `Display for SeatState`: `.`, `L` and `#`; `DisplayRoundTrip` and `SeatFromByte` state that decoding inverts it |
| Day11.DecodeLine | src/day11.rs:78-80 | a line decodes exactly when every byte does, to one state per byte, each written as that byte |
| Day11.PadLines | src/day11.rs:74-82 | the lines decode exactly when each does, each framed by one Floor cell on either side |
| Day11.FloorRow | src/day11.rs:85-88 | a row of `n` Floor cells |
| Day11.ParseSeatMap | src/day11.rs:73-94 | empty text is an error, and so is any illegal byte; otherwise every line framed by Floor, between two Floor rows as wide as the first framed line |
| Day11.FramedLines | src/day11.rs:83-92 | each padded line sits one row down in the framed map, its cells showing the characters of the line between two Floor cells |
| Day11.PaddedLineShows | src/day11.rs:76-80 | cells that show a line, framed by Floor cells, show the line between them |
| Day11.Frame | src/day11.rs:83-92 | the lines between two Floor rows as wide as the first line |
| Day11.SeatMap.Parse | src/day11.rs:73-94 | the loop pushes a Floor row as wide as the first framed line, which is inserted before the lines and pushed after them; the map is the one the parse function gives, and it fails exactly when that does |
| Day11.SameBorderSymmetric | src/day11.rs:96-141 | agreeing on the border is symmetric |
| Day11.SameBorderTransitive | src/day11.rs:96-141 | agreeing on the border is transitive |
| Day11.CountFull | src/day11.rs:108-119 | the count of Full cells is at most the number of cells, and zero exactly when none is Full |
| Day11.StepInto | src/day11.rs:96-141 | every interior cell gets the rule (`NextSeat`) applied to its 3x3 window's Full count (`WindowCount`) in the source, and every border cell keeps what the destination held |
| Day11.Next | src/day11.rs:96-141 | a generation keeps the shape and the border of the map |
| Day11.Iterate | src/day11.rs:61-69 | every generation keeps the shape and the border of the map |
| Day11.SeatMap.Step | src/day11.rs:96-141 | the row-by-row, column-by-column loop leaves the destination holding the step of the source into it |
| Day11.SteppedStart | src/day11.rs:105 | before the loops, nothing is stepped |
| Day11.SteppedRowStart | src/day11.rs:106 | column 0 of a row is border, so starting at column 1 steps nothing more |
| Day11.SteppedCell | src/day11.rs:114-138 | writing the rule's value into the next cell extends the stepped region by that cell |
| Day11.SteppedRowEnd | src/day11.rs:106 | after the last interior column, the row is done |
| Day11.SteppedAll | src/day11.rs:105-140 | once every interior row is stepped, the destination is the step of the source |
| Day11.SeatMapPair.FromMap | src/day11.rs:49-53 | the pair starts at generation 0 with the parsed map and a fresh copy of it |
| Day11.SeatMapPair.Parse | src/day11.rs:49-53 | `SeatMapPair::parse` fails exactly when the map does not parse, and otherwise starts at generation 0 |
| Day11.SeatMapPair.Step | src/day11.rs:61-69 | after a step the generation is one higher, the current buffer holds the next generation, and the other buffer holds the old current map |
| Day11.ParityFlips | src/day11.rs:55-68 | incrementing the counter flips which buffer is current |
| Day11.SeatMapPair.Current | src/day11.rs:54-60 | `SeatMapPair::current`: the first buffer on even generations, the second on odd; `SeatMapPair.Step` states that after a step it holds the next generation, and `ParityFlips` that the choice flips |
| Day11.StepKeepsGenerations | src/day11.rs:61-69 | stepping generation `n` into the other buffer gives generation `n + 1`, which agrees with it on the border |
| Day11.StepIntoBorderAgnostic | src/day11.rs:96-141 | stepping into any buffer that agrees with the source on the border gives the next generation |
| Day11.CountFullIn | src/day11.rs:108-119 | the count is zero exactly when no cell is Full |
| Day11.NextCell | src/day11.rs:120-138 | an interior cell of the next generation is the rule `NextSeat` applied to the cell and its window count `WindowCount` |
| Day11.WindowWithoutFull | src/day11.rs:114-119 | the window count is zero exactly when no cell of the 3x3 window is Full |
| Day11.WindowCountsSelf | src/day11.rs:129 | the window of a Full seat counts the seat itself, and at most nine cells |
| Day11.StepRule | src/day11.rs:120-137 | Floor stays Floor and nothing else becomes Floor; an Empty seat fills exactly when its window has no Full seat; a Full seat empties exactly when its window counts more than 4 |
| Day11.FloorForever | src/day11.rs:121 | a Floor cell stays Floor in every later generation |
| Day11.BorderStaysFloor | src/day11.rs:83-92 | every generation of a parsed rectangular map keeps its Floor border |
| Day11.DecodeSingle | src/day11.rs:78-80 | a one-byte line decodes to its one state |
| Day11.PadSingle | src/day11.rs:76-80 | one line is framed by one Floor cell on either side |
| Day11.CanParse | src/day11.rs:181-185 | `L` parses to a 3x3 map with an Empty seat in the middle |
| Day11.CanParseFull | src/day11.rs:186-193 | `#` parses to a 3x3 map with a Full seat in the middle |
| Day11.LoneSeatFills | src/day11.rs:186-193 | the lone Empty seat sees no Full seat and fills |
| Day11.CanStep | src/day11.rs:186-193 | stepping the map of `L` gives the map of `#` |
| Day11.ParsesWhenLinesDecode | src/day11.rs:73-94 | text whose lines all decode is accepted, whatever their widths |
| Day11.RaggedAccepted | src/day11.rs:83-92 | lines of different widths are not rejected |
| Day11.ParsedCell | src/day11.rs:73-94 | a cell off the border of a parsed rectangular map shows the character of its line, and a border cell is Floor |
| Day11.FilledLinesParse | src/day11.rs:73-94 | text laid out as a rectangle of `.` and `L`, and the same rectangle with `#` for `L`, both parse to rectangular maps of the same shape |
| Day11.FilledLinesNoneFull | src/day11.rs:73-94 | the map of a rectangle of `.` and `L` holds no Full seat |
| Day11.NoneFullCell | src/day11.rs:114-138 | in a map without Full seats, a step turns an interior Empty seat Full, keeps interior Floor, and leaves the border as it was |
| Day11.NoneFullFills | src/day11.rs:96-141 | one step of a map without Full seats fills every Empty seat and changes nothing else |
| Day11.FilledUnique | src/day11.rs:96-141 | the map with every Empty seat filled is unique |
| Day11.ParsedFilledCell | src/day11.rs:73-94 | a cell of the map of the filled text is the cell of the first map with an Empty seat filled |
| Day11.ParsedFilled | src/day11.rs:73-94 | the map of the filled text is the first map with every Empty seat filled |
| Day11.EmptyMapFills | src/day11.rs:96-141 | one step from a rectangular map without Full seats gives exactly the map of the same text with every `L` written `#` |
| Day11.ExampleRowsPlain | src/day11.rs:160-179 | the rows of both example maps are non-empty lines with no line feed and no final carriage return |
| Day11.ExampleTopFilled | src/day11.rs:160-179 | rows 0 to 4 of `EXAMPLE_1` are those of `EXAMPLE_0`, ten wide, with every `L` written `#` |
| Day11.ExampleBottomFilled | src/day11.rs:160-179 | rows 5 to 9 of `EXAMPLE_1` are those of `EXAMPLE_0`, ten wide, with every `L` written `#` |
| Day11.ExampleRowsFilled | src/day11.rs:160-179 | the rows of `EXAMPLE_1` are those of `EXAMPLE_0` with every seat occupied |
| Day11.CanStepExample | src/day11.rs:194-200 | `EXAMPLE_0` parses to a rectangular map whose next generation is the map of `EXAMPLE_1` |
| Day12.QuarterTurns | src/day12.rs:41-46 | the clockwise quarter turn count `-degrees / 90`, truncating, reduced into 0 to 3; the source panics unless the angle is a multiple of 90 |
| Day12.Rotate | src/day12.rs:39-53 | `Position::rotate`: one of the four rearrangements the quarter turn count selects; `RotateIsTurns`, `RotateCompose` and `FullTurn` state how turns combine |
| Day12.QuarterTurnsMeaning | src/day12.rs:44-46 | turning left by `90 m` degrees is `-m` clockwise quarter turns modulo 4, a number from 0 to 3 |
| Day12.TurnAdd | src/day12.rs:40-53 | quarter turns add up |
| Day12.FourTurns | src/day12.rs:47-50 | one, two and three clockwise quarter turns are the source's three rearrangements, and four bring every point back |
| Day12.TurnMod | src/day12.rs:45-46 | only the number of quarter turns modulo 4 matters |
| Day12.RotateIsTurns | src/day12.rs:40-53 | `rotate` turns the waypoint clockwise by `-degrees / 90` quarter turns, modulo 4 |
| Day12.AnglesAdd | src/day12.rs:44-46 | angles that are multiples of 90 add up as their quarter turn counts do |
| Day12.RotateCompose | src/day12.rs:40-53 | rotating by one angle then another is rotating by their sum |
| Day12.RotateInverse | src/day12.rs:94-101 | an `R` turn undoes the same `L` turn |
| Day12.FullTurn | src/day12.rs:40-53 | a whole turn changes nothing |
| Day12.RotateKeepsSizes | src/day12.rs:47-50 | rotation keeps the sizes of the two coordinates, possibly swapped |
| Day12.NewState | src/day12.rs:57-62 | the waypoint starts 10 east and 1 north, the ship at the origin |
| Day12.NextFrame | src/day12.rs:63-110 | only `F` moves the ship, and it leaves the waypoint in place; turns keep the waypoint's coordinate sizes |
| Day12.Next | src/day12.rs:63-110 | `State::next`: the seven actions on waypoint and ship; `NextFrame` and `NextUndone` state what each changes and that each is undone by its opposite |
| Day12.Opposite | src/day12.rs:63-110 | the opposite of a steerable instruction is steerable |
| Day12.NextUndone | src/day12.rs:63-110 | every instruction is undone by its opposite: the opposite move, the opposite turn, or going forward the same number of times backwards |
| Day12.Run | src/day12.rs:9-12 | every instruction applied in turn with `next`; `RunAppend` and `RanAll` relate it to the loop of `part2` |
| Day12.RunAppend | src/day12.rs:10-12 | running one list of instructions after another is running them joined |
| Day12.ActionOf | src/day12.rs:119-128 | exactly the letters `NSEWLRF` name an action, each the action whose letter it is |
| Day12.ActionOfLetter | src/day12.rs:119-128 | every action's letter reads back as that action |
| Day12.ParseInstruction | src/day12.rs:116-130 | a line parses exactly when its first character names an action and the rest is a signed number, to that action and number |
| Day12.ParseFormat | src/day12.rs:116-130 | an instruction written as its letter and its number parses back to itself |
| Day12.Instructions | src/day12.rs:10 | one instruction per line, each the parse of its line |
| Day12.RanStep | src/day12.rs:10-12 | one pass of the loop applies the next parsed instruction |
| Day12.RanAll | src/day12.rs:10-12 | after the loop the state is the run of all the instructions from the start state |
| Day12.Part2 | src/day12.rs:8-14 | `part2` is the Manhattan distance of the ship from the origin after all the instructions |
| Day12.ShowInstructions | src/day12.rs:10 | instructions as lines of the input, the `k`-th line writing the `k`-th instruction |
| Day12.FormatPlain | src/day12.rs:116-130 | a written instruction has no line feed and ends in a digit |
| Day12.ParseShowInstructions | src/day12.rs:10 | steerable instructions written one per line and joined by line feeds split back into those lines, and every line parses back to its instruction |
| Day12.ExampleRowsShown | src/day12.rs:137-141 | the lines of `EXAMPLE` write the example's five instructions |
| Day12.ExampleTextParses | src/day12.rs:137-146 | `EXAMPLE.lines()` yields `F10`, `N3`, `F7`, `R90`, `F11`, and they parse to the example's instructions |
| Day12.ParseRowsExample | src/day12.rs:137-141 | each of `F10`, `N3`, `F7`, `R90` and `F11` parses to its instruction |
| Day12.ParseExample | src/day12.rs:137-146 | `F10`, `N3`, `F7`, `R90` and `F11` each parse to their instruction, `EXAMPLE.lines()` yields exactly these lines, and they parse to the example's instructions |
| Day12.ParseLine | src/day12.rs:116-130 | a letter followed by the digits of a number below 100 parses to that instruction |
| Day12.RunInstructionsExample | src/day12.rs:143-156 | the example's instructions leave the ship 214 east and 72 south with the waypoint 4 east and 10 south |
| Day12.RunExample | src/day12.rs:143-156 | running the instructions parsed from `EXAMPLE.lines()` leaves the ship 214 east and 72 south with the waypoint 4 east and 10 south, at distance 286 |
| Day13.InService | src/day13.rs:16 | the kept tokens are among the input's and none is `x`, and there are no more of them than tokens |
| Day13.InServiceCounted | src/day13.rs:16 | every token that is not `x` is kept, once |
| Day13.InServiceAppend | src/day13.rs:16 | filtering keeps the order: the tokens kept from two lists joined are those kept from the first, then those from the second |
| Day13.BusIds | src/day13.rs:17 | one bus per token, each the parse of its token |
| Day13.Parse | src/day13.rs:9-19 | the timestamp is the parse of the first line, and the IDs are the parses of the second line's `,`-separated tokens that are not `x`, in order |
| Day13.ParseCount | src/day13.rs:12-17 | there are as many IDs as tokens in service on the second line |
| Day13.Present | src/day13.rs:16 | no more IDs in service than entries |
| Day13.Tokens | src/day13.rs:15 | one written token per entry: the ID, or `x` |
| Day13.InServiceShown | src/day13.rs:16 | the written tokens that are not `x` are the written IDs of the buses in service |
| Day13.BusList | src/day13.rs:17 | one bus per ID, in order |
| Day13.BusIdsShown | src/day13.rs:17 | written IDs parse back to the IDs |
| Day13.NotesLines | src/day13.rs:10-15 | written notes have two lines, the timestamp and the joined entries, and the second splits back at `,` into the entries |
| Day13.ParseShowNotes | src/day13.rs:9-19 | parsing written notes gives the timestamp back and the IDs of the buses in service, in order |
| Day13.PresentExample | src/day13.rs:27-28 | the buses in service of the example are 7, 13, 59, 31 and 19 |
| Day13.ParseExample | src/day13.rs:25-32 | the example parses to timestamp 939 and buses 7, 13, 59, 31 and 19 |
| Day14.Apply | src/day14.rs:57-60 | `Mask::apply`: the value ANDed with `neg`, then ORed with `pos` (`And` and `Or` are `&` and `\|` on naturals); `ApplyBit` and `ApplyMeaning` state what this does to each bit |
| Day14.ParseU64 | src/day14.rs:38-39 | `u64::from_str` and `usize::from_str` on a 64-bit target: a decimal number, refused when not below 2^64 |
| Day14.Pow2Values | src/day14.rs:67-69 | a mask covers 36 bits and a word 64 |
| Day14.BitOfZero | src/day14.rs:70 | no bit of 0 is set |
| Day14.AndBit | src/day14.rs:59 | a bit of `a & b` is set exactly when it is set in both |
| Day14.OrBit | src/day14.rs:59 | a bit of `a \| b` is set exactly when it is set in either |
| Day14.BitsEqual | src/day14.rs:58-60 | numbers with the same bits are equal |
| Day14.BitsBelow | src/day14.rs:58-60 | a number below 2^m has no bit at or above `m` |
| Day14.ComplementBit | src/day14.rs:71 | below 2^m, `2^m - 1 - a` flips each of the `m` low bits |
| Day14.NotBit | src/day14.rs:71 | `!a` flips each of the 64 bits of a word |
| Day14.SelectBit | src/day14.rs:72-86 | bit `k` of the word selecting a character is set exactly when the character `k` places from the end is that character |
| Day14.SelectFits | src/day14.rs:67-69 | the selections from a 36-character string fit in 36 bits |
| Day14.ShiftStep | src/day14.rs:73-85 | shifting both words and adding one to `neg` for `X` and `1` and to `pos` for `1` extends the scanned text by one character |
| Day14.ScannedMask | src/day14.rs:65-88 | the words built from a whole well-formed mask string are its meaning |
| Day14.ParseMask | src/day14.rs:65-88 | `Mask::from_str` fails unless the text is 36 characters of `X`, `0` and `1`, and otherwise returns the mask the text means (`Not` and `Shl1` are `!` and `<< 1` on 64-bit words) |
| Day14.MaskOf | src/day14.rs:65-88 | the mask a text means: 36 characters of `X`, `0` and `1`, otherwise an error; `MaskBits` and `MaskShape` state its bits, and `ParseMask` that the loop computes it |
| Day14.MaskBits | src/day14.rs:65-88 | bit `k` of `pos` is set exactly when the character `k` places from the end is `1`; bit `k` of `neg` is set unless that character is `0`, up to bit 63 |
| Day14.MaskShape | src/day14.rs:65-88 | every bit a parsed mask forces on is one it keeps |
| Day14.ApplyBit | src/day14.rs:58-60 | a bit of a masked value is set exactly when the mask forces it on, or the value has it and the mask keeps it |
| Day14.ApplyMeaning | src/day14.rs:58-88 | applying a parsed mask: a `1` sets the bit, a `0` clears it, an `X` keeps the value's bit, and so do bits 36 to 63; nothing is set above bit 63 |
| Day14.ApplyIdempotent | src/day14.rs:58-60 | masking a masked value again changes nothing |
| Day14.ParseFormat | src/day14.rs:31-47 | a written assignment parses back to itself, and so does a mask line whose text means that mask |
| Day14.ParseLine | src/day14.rs:31-47 | `Line::from_str`: `mask = ...` or `mem[...] = ...` around the first ` = ` (`Text.StartsWith` and `Text.EndsWith` are `starts_with` and `ends_with`), anything else an error; `ParseFormat` states that it inverts the writer |
| Day14.ParseFormatMask | src/day14.rs:33-35 | `mask = <text>` parses to the mask the text means |
| Day14.ParseFormatAssign | src/day14.rs:36-40 | `mem[<addr>] = <value>` parses to that assignment |
| Day14.MaskedPrefix | src/day14.rs:16 | if every write of a program follows a mask line, so does every write of a prefix |
| Day14.RunStep | src/day14.rs:10-19 | one more line: a mask line replaces the mask in force, and a write stores its value under that mask at its address |
| Day14.CurrentMask | src/day14.rs:9-14 | the mask in force after a list of lines: that of the last mask line, or none before the first |
| Day14.Memory | src/day14.rs:8-19 | the map the loop of `part1` builds, each write storing its value under the mask then in force; `MemoryKeys` and `MemoryLastWrite` state which writes survive |
| Day14.Total | src/day14.rs:20 | the sum of the values held in memory; `TotalRemove` makes it independent of the order of the addresses |
| Day14.MemoryKeys | src/day14.rs:15-17 | an address is in memory exactly when some line writes to it |
| Day14.MemoryLastWrite | src/day14.rs:15-17 | only the last write to an address survives, holding its value under the mask in force when it ran |
| Day14.AnyKey | src/day14.rs:20 | some address held in a non-empty memory |
| Day14.TotalRemove | src/day14.rs:20 | the sum does not depend on which address is taken first |
| Day14.SumValues | src/day14.rs:20 | the loop over the addresses sums the memory's values |
| Day14.Part1 | src/day14.rs:7-21 | `part1` is the sum of the memory left by running every line |
| Day14.RanStep | src/day14.rs:11-18 | one pass of the loop: a mask line sets the mask in force, a write stores its masked value |
| Day14.RanAll | src/day14.rs:10-19 | after the loop, the memory is that of the whole program |
| Day14.ExampleOnes | src/day14.rs:106-111 | the example mask's `1` is bit 6 |
| Day14.ExampleZeros | src/day14.rs:106-111 | the example mask's `0` is bit 1 |
| Day14.MaskExample | src/day14.rs:106-111 | the example mask forces bit 6 on and keeps every bit but bit 1 |
| Day14.ApplyExample11 | src/day14.rs:96-105 | the example mask maps 11 to 73 |
| Day14.ApplyExample101 | src/day14.rs:96-105 | the example mask keeps 101 |
| Day14.ApplyExample0 | src/day14.rs:96-105 | the example mask maps 0 to 64 |
| Day14.RunFour | src/day14.rs:10-19 | a mask line then three writes leave the three masked values, a later write to an address replacing an earlier one |
| Day14.MemoryExample | src/day14.rs:131-134 | the example leaves 64 at address 8 and 101 at address 7 |
| Day14.RunMask | src/day14.rs:12-14 | a mask line replaces the mask and leaves the memory |
| Day14.RunAssign | src/day14.rs:15-17 | a write keeps the mask and stores its masked value |
| Day14.TotalExample | src/day14.rs:135-138 | the example's memory sums to 165 |
| Day14.AssignTarget | src/day14.rs:36-37 | `mem[<digits>]` holds no space, is not `mask`, starts with `mem[` and ends with `]`, with the digits between them |
| Day14.ParseAssignSides | src/day14.rs:31-47 | a line split at its first ` = ` into `mem[<addr>]` and a value that both parse as `u64` is that assignment |
| Day14.ExampleNumbers | src/day14.rs:131-134 | the decimal writings of the example's addresses and values |
| Day14.ExampleRowsSpelled | src/day14.rs:131-134 | the lines of `EXAMPLE` are the mask line and three writes spelled around their decimal numbers |
| Day14.ExampleMaskRowSpelled | src/day14.rs:131 | the first line of `EXAMPLE` is `mask = ` followed by the example mask |
| Day14.MaskRowParses | src/day14.rs:131 | the first line of `EXAMPLE` parses to the example mask |
| Day14.AssignRowParses | src/day14.rs:132-134 | a write spelled with the decimal writings of its address and value parses to that write |
| Day14.ExampleRowsParse | src/day14.rs:131-134 | the four lines of `EXAMPLE` all parse, and collect to the example program |
| Day14.ExampleRowsPlain | src/day14.rs:131-134 | the lines of `EXAMPLE` are non-empty and hold no line feed or final carriage return |
| Day14.Part1Example | src/day14.rs:131-138 | `part1(EXAMPLE)` is 165: the text's lines parse to the example program, every write follows the mask, and the memory `Part1` sums totals 165 |
| Day15.Collect | src/day15.rs:28-30 | the `HashMap` collected from number-turn pairs, a later pair for the same number replacing an earlier one; `CollectKeys` and `CollectLast` state its keys and values |
| Day15.InitMap | src/day15.rs:27-32 | `init_map`: the collected map of the enumerated starting numbers and the turn after the last; `InitMapMeaning` and `InitMapKeys` state its contents |
| Day15.TurnsBetween | src/day15.rs:11-17 | the number of turns between two turns, added to the earlier, gives the later |
| Day15.Enumerate | src/day15.rs:21-25 | each starting number paired with its turn, counted from 1 |
| Day15.CollectKeys | src/day15.rs:28-30 | the collected map knows exactly the numbers of the pairs |
| Day15.CollectLast | src/day15.rs:28-30 | the collected map holds, for a number, the turn of its last pair |
| Day15.InitMapMeaning | src/day15.rs:27-32 | the starting map holds, for a starting number, the turn it was last spoken on, and the next turn is one past the last starting turn |
| Day15.InitMapKeys | src/day15.rs:27-32 | the keys of the starting map are exactly the starting numbers |
| Day15.CollectTurnsWithin | src/day15.rs:28-30 | a map collected from pairs whose turns lie in a range holds only turns in that range |
| Day15.InitMapAges | src/day15.rs:27-32 | from the starting state, every number in the map was last spoken between 1 and `len` turns before the next turn, so `turn - last_spoken` is in that range |
| Day15.InitMapExample | src/day15.rs:27-32 | `0, 3, 6` gives the map `0 -> 1, 3 -> 2, 6 -> 3` and next turn 4 |
| Day16.Validates | src/day16.rs:31-35 | `Rule::validates`: the value lies in the first or the second inclusive range; `ValidatesGap` and the examples state where it is refused |
| Day16.InRange | src/day16.rs:33 | `RangeInclusive::contains`: both bounds included; `ValidatesMerged`, `ValidatesGap` and the examples state what it accepts |
| Day16.ValidatesMerged | src/day16.rs:32-34 | a rule whose second range starts inside or right after the first, and ends no earlier, accepts exactly one interval |
| Day16.ValidatesGap | src/day16.rs:32-34 | a value strictly between the two ranges of a rule is refused |
| Day16.ValidatesExample | src/day16.rs:145-156 | the rule `0..=1 or 10..=11` accepts 0 and 10 and refuses 2 and 12 |
| Day16.ParseRange | src/day16.rs:62-68 | a text without `-` is an error; a parsed range's bounds are the numbers before and after the first `-` |
| Day16.ParseRule | src/day16.rs:61-82 | a text without `: ` is an error; a parsed rule's name is the text before the first `: `, after which ` or ` occurs |
| Day16.NoSign | src/day16.rs:62-68 | a written number holds no `-`, space or comma |
| Day16.ParseShowRange | src/day16.rs:62-68 | a range written as `lo-hi` parses back to itself |
| Day16.NameEnds | src/day16.rs:69 | `: ` cannot start inside a name that does not hold it |
| Day16.ParseShowRule | src/day16.rs:61-82 | a rule whose name does not hold `: `, written as `name: lo-hi or lo-hi`, parses back to itself |
| Day16.ParseRuleExample | src/day16.rs:133-143 | `class: 1-3 or 5-7` is the rule `class` of `1..=3` and `5..=7` |
| Day16.SpelledRule | src/day16.rs:139 | the rule `class` of `1..=3` and `5..=7` is written `class: 1-3 or 5-7` |
| Day16.ParseRuleWithoutOr | src/day16.rs:76-78 | a rule without ` or ` is rejected |
| Day16.ParseTicket | src/day16.rs:117-127 | a ticket parses exactly when every `,`-separated piece is a number, to one value per piece, in order |
| Day16.ParseShowTicket | src/day16.rs:117-127 | a ticket of at least one value, written with commas, parses back to itself |
| Day16.RuleLines | src/day16.rs:94 | every line read as a rule |
| Day16.PrependAssoc | src/day16.rs:89-95 | pushing rules in two batches is pushing them together |
| Day16.ReadRules | src/day16.rs:88-97 | the loop of `parse_rules`: the parsed rules up to the first empty line and the line after it, or an error at the end of the lines or at a line that is not a rule; `ReadRulesMeaning` states it |
| Day16.ReadRulesMeaning | src/day16.rs:88-97 | the rules read are the parsed lines before the first empty one, and reading resumes after it |
| Day16.ReadRulesFromStart | src/day16.rs:88-97 | the rules read from the start are the parsed lines before the first empty one |
| Day16.ReadRulesBlank | src/day16.rs:90-95 | rules up to an empty line are read up to it |
| Day16.ReadRulesEof | src/day16.rs:96 | without an empty line, reading the rules fails |
| Day16.ParseRules | src/day16.rs:88-97 | the `while let` loop returns what reading the rules returns |
| Day16.ProblemOf | src/day16.rs:87-115 | `Problem::from_str` over the lines: the rules, then `your ticket:`, a ticket, an empty line and `nearby tickets:`, any of them missing or different an error; `ProblemOfRules` and `ProblemAfterRulesShape` state it |
| Day16.ProblemAfterRules | src/day16.rs:101-114 | the part after the rules: `your ticket:`, a ticket line, an empty line, then `nearby tickets:` |
| Day16.ProblemOfRules | src/day16.rs:98-100 | notes that parse have their rules read first |
| Day16.ProblemAfterRulesShape | src/day16.rs:101-114 | after the rules, the notes parse exactly when there follow `your ticket:`, a ticket, an empty line and `nearby tickets:` |
| Day16.ParseProblem | src/day16.rs:87-115 | reading the lines one after the other gives what the parse of the notes gives |
| Day16.ParseShowProblem | src/day16.rs:87-115 | rules whose names do not hold `: ` and a ticket, written as notes, parse back to themselves whatever follows |
| Day16.ReadShownRules | src/day16.rs:88-97 | lines that start with written rules and then an empty line are read back as those rules |
| Day16.NearbyFrom | src/day16.rs:42-43 | the first nearby line is at or after the start, and within the lines |
| Day16.NearbyFromMeaning | src/day16.rs:42-43 | the lines skipped hold no `nearby tickets:` header but the last; without the header all lines are skipped |
| Day16.GetTickets | src/day16.rs:37-45 | one ticket parse per line after the first `nearby tickets:` |
| Day16.NearbyAfterProblem | src/day16.rs:37-45 | when the notes parse, the nearby tickets are the lines after the header that ends the problem |
| Day16.HeaderAfterTicket | src/day16.rs:98-113 | none of the rule lines, `your ticket:`, the ticket or the empty line is the `nearby tickets:` header |
| Day16.NotHeader | src/day16.rs:42 | a rule line or an empty line is not the header |
| Day16.NoRuleHeader | src/day16.rs:69-81 | `nearby tickets:` is not a rule |
| Day16.NoTicketHeader | src/day16.rs:117-127 | `nearby tickets:` is not a ticket |
| Day16.NearbyFromAt | src/day16.rs:42-43 | the first header from a line on is where the nearby tickets start after |
| Day16.UnvalidatableFields | src/day16.rs:46-55 | the kept values are values of the ticket that no rule accepts |
| Day16.UnvalidatableKept | src/day16.rs:53 | every value no rule accepts is kept |
| Day16.UnvalidatableAppend | src/day16.rs:50-54 | filtering keeps the order |
| Day16.UnvalidatableNone | src/day16.rs:53 | a ticket whose every value some rule accepts keeps none |
| Day16.ErrorRate | src/day16.rs:9-15 | the sum, over the tickets, of the values no rule accepts; `ErrorRateValid` and `ErrorRateOfFour` state its parts |
| Day16.ErrorRateValid | src/day16.rs:9-15 | tickets whose every value some rule accepts add nothing to the error rate |
| Day16.TicketValues | src/day16.rs:12 | the values of every nearby ticket, each of which parses |
| Day16.Part1 | src/day16.rs:9-15 | `part1` is the sum of the values no rule accepts over all nearby tickets |
| Day16.ParseExample | src/day16.rs:170-175 | the example parses to three rules and the ticket 7,1,14 |
| Day16.UnvalidatableThree | src/day16.rs:53 | over three rules, a value is kept exactly when none of the three accepts it |
| Day16.UnvalidatableOfThree | src/day16.rs:50-54 | the values kept from a ticket of three values |
| Day16.ErrorRateOfFour | src/day16.rs:11-14 | the error rate of four tickets is the sum of what each keeps |
| Day16.ExampleValues | src/day16.rs:158-160 | the example rules refuse exactly 0, 4, 12 and everything above 50 |
| Day16.ErrorRateExample | src/day16.rs:189-192 | the example's nearby tickets keep 4, 55 and 12, so the error rate is 71 |
| Day16.ExampleTicket | src/day16.rs:158-169 | the values kept from a ticket of three values under the example rules |
| Day16.ExampleKept | src/day16.rs:165-169 | the example's nearby tickets keep nothing, 4, 55 and 12 |
| Day16.ExampleRate | src/day16.rs:189-192 | the example's error rate is 71 |

## Left out

- `src/main.rs`: console printing and the embedded puzzle inputs.
- `get_part1` and `get_part2` of `src/day1.rs`: they only embed a data file.
- Stub and constant entry points:
  - `part1` and `part2` of days 7, 11, 13 and 15;
  - `part2` of days 6, 9, 10, 14 and 16;
  - the constant `part1` of day 12.
- `play` of day 15: it is commented out in the source.
- Error messages: every `anyhow` error, `bail!` and `ParseIntError` is one `Err` value without a payload.
- `Debug` and `Display` formatting: the `Debug` impls of `SeatMap` and `CircularBuffer` are left out. `Display for SeatState` is kept only as the inverse of decoding.
- Machine integers: `i32`, `i64` and `usize` values are unbounded integers, and so is the `u64` sum of day 14.
  - Overflow panics and wrap-around are not modelled.
  - Numbers too large for their type are not rejected by the parsers. Day 14 is the exception: its `u64` parses and words stay below 2^64.
- Day14.Total: the sum that `part1` returns is an unbounded number. The source's `sum` of `u64` values can overflow, and that overflow is not modelled.
- `HashMap` and `HashSet` are Dafny maps and sets. Their iteration order is not modelled; the sum of day 14 is proved independent of it.
- Panicking paths are preconditions, not behaviour, with one exception: in day 10, `Day10.GetChain` and `Day10.Part1` return `Err` where the source panics on `dict[&1]` because no difference of 1 occurs. Examples are `unwrap` on a failed parse, the `debug_assert!(visited.len() < 10000)` of day 8's `get_outcome` (it can only fire on a program of 10000 or more instructions, and only in debug builds), `split_at(1)` on an empty line of day 12, a turn that is not a multiple of 90 degrees, and a memory write before any mask in day 14.
- `util::tuples` is not part of this model. Day 9 assumes it yields each pair of distinct positions once, the earlier position first.
- Text is a sequence of characters with one character per byte. Multi-byte UTF-8 input is not modelled.
- The capacity of a `Vec` is left to the allocator and to `collect`, so it is a parameter of `CircularBuffers.CircularBuffer.WithCapacity`, `CircularBuffers.CircularBuffer.FillWith`, `Day9.BuildBuffer` and `Day9.Part1`, constrained only to be at least the length asked for. The capacity that `collect` gives the preamble vector of day 9 is not computed. With a capacity above 25 the buffer is not full after the preamble, and its window keeps growing up to that capacity. The unit tests build their buffers with `vec!` and `with_capacity`, which in practice reserve exactly the requested length, and they are modelled with that capacity.
- Day9.Part1: the window is the last `reserved` values, where `reserved` is the capacity `collect` gives the 25-value preamble vector. That capacity is a parameter, not computed. With the usual allocation growth it can be 32, and then each value is checked against up to 32 earlier values, not 25.
- Day13.Parse: the source returns the ids as a lazy iterator, so a bad id only panics when the ids are consumed. The model parses every id up front. The only caller collects all of them, so the result is the same.
- Day1.Compute: it takes the result of the search rather than the search function the source passes in. It is proved for `FindPair` and `FindTriplet` results.
- Day1 examples: the example report is built from its numbers with the writing function, not from a literal text.
- Day2 and Day4 examples: some example records and lines are built with the writing functions rather than given as literal text.
- Day13.ParseExample and Day16.ParseExample: the example notes are built with the writing functions (`ShowNotes`, `ShowProblem`) rather than given as literal text.
- Day3, Day8, Day11, Day12 and Day14 examples: the example texts are their literal lines joined by line feeds; lemmas prove that the lines of each such text are those literal lines.
- Day10.GetChain: the push and in-place `sort` of the input vector are modelled on values. `sort` is an insertion sort (`Day10.Sort`) whose result is proved sorted and a permutation, so it is the unique sorted order.
- The second example of day 10, which gives `(22, 10)`, is not restated; only the first, `(7, 5)`, is. Sorting and counting its 31 literal values is beyond what the verifier proves within its resource bound.
- Day16.GetTickets: the `can_parse` test of day 16 checks the four nearby tickets. The model proves the problem part of that example and the error rate 71 over the four tickets, but not the parse of the nearby lines.
