# holes: minimum sparse rulers, modelled in Dafny

The repository searches for minimum "sparse rulers". A ruler of length
`distance` is a set of dot positions in `0..distance` that holds both
ends. It measures every length when, for each spacing `1..distance`, some
pair of dots lies exactly that far apart. The search returns every such
ruler with the fewest dots. A ruler is handled either as a tuple of
positions or as a "bit combo": an integer whose bit `i` is set when
position `i` holds a dot.

The model covers the search engines and their helpers:

- **Gosper's hack** (`gospers.dfy`): the successor loop that lists every
  integer of `length` bits with `dots` one-bits. The loop is proved to emit
  exactly the ascending list of those integers, C(length, dots) of them.
- **The bitwise search** (`bitbased.dfy`): argument checks, the splice of
  an inner combo between two end dots, the early-exit shift-AND test
  `c & (c >> s) != 0`, and the escalating dot count. `BitBased.BestOptimal`
  proves what the search finds: in ascending order, exactly the rulers of
  length `distance` that measure every length and have as few dots as any
  such ruler.
- **The given-bits partitioner** (`bitparallel.dfy`): `tuple_to_bits`,
  `bitmask_of_givens`, `dotcount_of_givens`, `bit_combos_with_givens` and
  `inner_givens`. The parallel search is modelled as the in-order union of
  its slices. The corrected slices (see "## Findings") are proved disjoint
  and ordered, and their union is proved to be `bit_combos_with_ends`.
- **The numpy filter** (`bitnumpy.dfy`): the broadcast table
  `(combos & (combos >> spacings)) != 0`, its row-wise `all`, and the
  chunked driver. Both are proved equal to the one-at-a-time filter.
- **Utilities** (`util.dfy`): conversions between bits and position
  tuples (both round trips), `combinations_count`, `rsplit_size`,
  `format_binary`, `dots`, `ruler_ticks` and `chunkinate`.
- **The reference searches** (`iterbased.dfy`, `iterold.dfy`, `bitold.dfy`):
  - the tuple search through `itertools.combinations`, and its older
    function-based edition;
  - the retired bitwise search with a running minimum of the popcount.

  Each is proved to return the same rulers as the bitwise search.
  `tuples.dfy` holds the bridge between tuples and bit combos used by
  these proofs.

Shared definitions:

- `bits.dfy`: powers of two, bit tests, popcount, `&`, `|`, `^`, `>>`.
- `rulers.dfy`: positions of a combo, and what measuring means for bits
  and for tuples.
- `seqs.dfy`, `combinatorics.dfy`, `wrappers.dfy`: ordering and filtering
  of sequences, binomials and 0/1 tuples, and the `Result` type for raised
  errors.

Conventions of the model:

- Python integers are unbounded and combos are never negative, so combos
  are `nat`.
- Gosper's `-bits & bits` is taken to be the lowest set bit of `bits`
  (`Bits.LowestSetBit`). That is the two's-complement identity Python's
  negative integers obey; the model does not derive it from a
  two's-complement encoding.
- A generator becomes the whole sequence it yields.
- A raised `ValueError`/`TypeError` becomes a `Failure` carrying the check
  that failed. A Python `assert` becomes a `requires`.

## Model

| member | source | states |
|---|---|---|
| Gospers.BitCombosGospers | holes/gospers.py:8-107 | With 0 dots the loop yields the single value 0. Otherwise, under the asserted `0 < dots <= length`, it yields exactly `BitCombos(length, dots)`: every integer below 2^length with `dots` one-bits, once each, ascending |
| Gospers.BitCombosMembers | holes/gospers.py:33-69 | A value is listed iff it is below 2^width and has exactly k one-bits |
| Gospers.BitCombosIncreasing | holes/gospers.py:61-107 | The listed values strictly increase |
| Gospers.BitCombosCount | holes/gospers.py:8-107 | There are exactly C(width, k) values |
| Gospers.BitCombosFirst | holes/gospers.py:31 | The first value is 2^k - 1, the smallest with k one-bits |
| Gospers.BitCombosNoDots | holes/gospers.py:11-13 | With no dots the list is [0] |
| Gospers.GosperStart | holes/gospers.py:31 | The start value fits in `length` bits, has `dots` one-bits, and no smaller value has as many |
| Gospers.GosperCarry | holes/gospers.py:61-69 | The exit test `leftbits & (1 << length) != 0` is exactly `leftbits >= 2^length` |
| Gospers.GosperStep | holes/gospers.py:50-107 | `leftbits \| rightbits` is larger than `bits`, has the same popcount, and skips no value of that popcount; it stays below 2^length whenever `leftbits` does |
| Gospers.GosperWeights | holes/gospers.py:73-107 | The rightmost/lostbits/rightbits rewrite keeps the popcount |
| Gospers.GosperExit | holes/gospers.py:68-69 | When the carry reaches bit `length`, the value just yielded is the last one of the list |
| Gospers.GosperContinue | holes/gospers.py:73-107 | Otherwise the next value is the next entry of the list |
| Bits.LowestSetBit | holes/gospers.py:50 | `-bits & bits` of a positive value is positive and at most the value |
| Bits.LowestSetBitSplit | holes/gospers.py:50 | `-bits & bits` is 2^t where bits = odd * 2^t |
| Bits.AndPow2 | holes/bitold.py:91 | `x & 2^n` is non-zero iff bit n of x is set |
| Bits.ShrBit | holes/bitbased.py:180 | Bit i of `x >> s` is bit i + s of x |
| Bits.PopBound | holes/bitold.py:186 | A value below 2^m has at most m one-bits, and exactly m only for 2^m - 1 |
| BitBased.BitCombosWithNDots | holes/bitbased.py:55-86 | Raises for distance < 0, dotcount < 0 or dotcount > distance + 1, in that order. Otherwise it yields the enumerator's list for width distance + 1 |
| BitBased.BitCombosWithEnds | holes/bitbased.py:90-114 | (1, 2) gives the special case. Otherwise the inner call's errors come through. On success the result is exactly the ascending combos of `dotcount` dots in `distance + 1` bits with bit 0 and bit `distance` set |
| BitBased.ShortestRuler | holes/bitbased.py:101-104 | The only spanning two-dot combo of length 1 is 0b11 |
| BitBased.EndsSpliceValue | holes/bitbased.py:111-113 | Shift-by-one then OR in bit 0 and bit `distance` gives 2^distance + 2c + 1 |
| BitBased.EndsSpliceSpanning | holes/bitbased.py:106-114 | Splicing every inner combo of `dotcount - 2` dots gives exactly the spanning combos, in order |
| BitBased.BitComboMeasures | holes/bitbased.py:168-188 | Returns true iff `c & (c >> s) != 0` for every spacing 1..distance; vacuously true for distance < 1 |
| BitBased.MeasuringOnly | holes/bitbased.py:155-164 | The filter keeps exactly the measuring inputs |
| BitBased.MeasuringOnlyAppend | holes/bitbased.py:155-164 | Filtering distributes over concatenation |
| BitBased.MeasuringOnlyIncreasing | holes/bitbased.py:155-164 | Filtering keeps ascending order |
| BitBased.BitCombosThatMeasure | holes/bitbased.py:155-164 | The filter loop yields the measuring inputs in input order |
| BitBased.GoodMembers | holes/bitbased.py:137-141 | One dot count's survivors are the spanning measuring combos of that dot count |
| BitBased.BestBitCombos | holes/bitbased.py:131-151 | The dot-count loop with its `found_one` break returns `Best(distance)`: the good combos of the first dot count that has any |
| BitBased.BestFromFirst | holes/bitbased.py:136-151 | The search stops at the first dot count with a hit; every smaller dot count had none |
| BitBased.NoneFewer | holes/bitbased.py:136-151 | No measuring combo has fewer dots than the stopping dot count |
| BitBased.FullRulerGood | holes/bitbased.py:136 | The full ruler is good at dot count distance + 1, so the loop always finds a hit for distance >= 1 |
| BitBased.SpanningPop | holes/bitbased.py:136 | A spanning combo of positive length has at least two dots, so starting at dot count 2 misses nothing |
| BitBased.BestOptimal | holes/bitbased.py:131-151 | Nothing for distance 0, something for distance >= 1. The result is ascending and holds exactly the measuring combos of `distance + 1` positions with the fewest dots |
| BitBased.BestOfThree | holes/bitbased.py:131-151 | The search for distance 3 yields 0b1011 and 0b1101 |
| BitBased.CombosWithNDots | holes/bitbased.py:49-52 | Same errors as `bit_combos_with_n_dots`. On success there are C(distance + 1, dotcount) tuples, each ascending, of `dotcount` positions within 0..distance |
| BitBased.PositionsWithin | holes/bitbased.py:49-52 | The positions of a combo below 2^n are ascending, below n, and as many as its one-bits |
| BitBased.BestCombos | holes/bitbased.py:122-128 | The i-th tuple is ascending and converts back to the i-th best combo |
| BitNumpy.Spacings | holes/bitnumpy.py:74 | `range(1, distance + 1)`: empty when distance < 1, entry j is j + 1 |
| BitNumpy.MeasureMatrix | holes/bitnumpy.py:83-89 | One row per combo, one column per spacing |
| BitNumpy.AllRows | holes/bitnumpy.py:92 | One verdict per row |
| BitNumpy.RowMeasures | holes/bitnumpy.py:89-92 | A row is true throughout iff the combo passes the scalar shift-AND test |
| BitNumpy.SelectMeasuring | holes/bitnumpy.py:97-100 | Boolean-mask selection with those verdicts is the scalar filter |
| BitNumpy.BitCombosMeasureNp | holes/bitnumpy.py:66-100 | The array expression keeps exactly the scalar filter's combos, in order |
| BitNumpy.NothingToMeasure | holes/bitnumpy.py:74-92 | With no spacing every combo of the chunk passes |
| BitNumpy.KeepAll | holes/bitbased.py:177-188 | With distance < 1 the scalar filter keeps every combo |
| BitNumpy.BitCombosThatMeasure | holes/bitnumpy.py:44-62 | Chunking, filtering each chunk and concatenating gives the scalar filter over the whole input |
| BitParallel.TupleToBits | holes/bitparallel.py:190-200 | Fails with `NotABit` iff some entry is not 0 or 1. Otherwise it reads the tuple as a binary numeral, most significant bit first |
| BitParallel.DotcountOfGivens | holes/bitparallel.py:210-218 | Counts the ones of both tuples |
| BitParallel.BitmaskOfGivens | holes/bitparallel.py:202-208 | The leading bits go at the top of the `distance + 1`-bit window and the trailing bits at the bottom. It fails on a non-binary tuple, or on a leading tuple wider than the window (a negative shift) |
| BitParallel.MaskDisjoint | holes/bitparallel.py:202-208 | The two given fields do not overlap, so OR is addition |
| BitParallel.SpliceOr | holes/bitparallel.py:243-245 | `(c << len(trailing)) \| given_bits` places the inner combo between the two fields without overlap |
| BitParallel.Spliced | holes/bitparallel.py:240-246 | Each inner combo becomes inner * 2^len(trailing) + given bits |
| BitParallel.SplicedIncreasing | holes/bitparallel.py:240-246 | Splicing keeps ascending order |
| BitParallel.WithGivens | holes/bitparallel.py:220-246 | The corrected given-bits generator. When it succeeds, the inner width and inner dot count are non-negative and it yields C(inner width, inner dots) combos, none when the dots do not fit |
| BitParallel.WithGivensErrors | holes/bitparallel.py:220-230 | Raises when the givens are wider than the ruler or hold more ones than the dot count. Succeeds iff both checks and the 0/1 check pass |
| BitParallel.WithGivensMembers | holes/bitparallel.py:202-246 | A combo is listed iff it fits in `distance + 1` bits, its top bits spell `leading`, its low bits spell `trailing`, and its popcount is `dotcount` |
| BitParallel.WithGivensIncreasing | holes/bitparallel.py:240-246 | The combos come out ascending |
| BitParallel.BitCombosWithGivens | holes/bitparallel.py:175-246 | The generator's checks and loop give the corrected `WithGivens` |
| BitParallel.SpliceAll | holes/bitparallel.py:240-246 | The shift-and-OR loop yields the spliced list |
| BitParallel.BitCombosWithGivensAsWritten | holes/bitparallel.py:175-246 | The generator's checks, the inner-width-0 shortcut, the inner generator's errors and the shift/OR loop give exactly `WithGivensAsWritten` |
| BitParallel.WithGivensAsWritten | holes/bitparallel.py:220-246 | The generator as written differs from the corrected one only where the corrected one yields nothing: there it raises the inner generator's error or yields the one given mask |
| BitParallel.AsWrittenAgrees | holes/bitparallel.py:232-238 | The code as written agrees with the corrected model whenever the inner dot count fits the inner width |
| BitParallel.AsWrittenMiscounts | holes/bitparallel.py:234-238 | As written, distance 2, dotcount 3, givens (1, 0) and (1,) yield 0b101, which has 2 dots |
| BitParallel.AsWrittenSliceFails | holes/bitparallel.py:240-241 | As written, the slice (1, 0, 0) of distance 4, dotcount 4 raises `ValueError` |
| BitParallel.FourParallelsPower | holes/bitparallel.py:82-96 | With 4 parallels and dot count 4, `inner_givens` picks power 2 |
| BitParallel.InnerGivens | holes/bitparallel.py:82-96 | The counting loop finds the largest p with 2^p <= parallels and p <= dotcount - 2, and lists every 0/1 tuple of length p |
| BitParallel.SlicesOf | holes/bitparallel.py:107-108 | One slice per inner given, in order |
| BitParallel.SliceSucceeds | holes/bitparallel.py:107-108 | Every slice's givens pass the checks |
| BitParallel.SliceMembers | holes/bitparallel.py:107-108 | Slice j holds the odd combos of `dotcount` dots in `distance + 1` bits whose top p + 1 bits read 2^p + j |
| BitParallel.SlicesOrdered | holes/bitparallel.py:107-108 | Every combo of an earlier slice is below every combo of a later one |
| BitParallel.SlicesDisjoint | holes/bitparallel.py:107-108 | No combo is in two slices |
| BitParallel.SlicesCover | holes/bitparallel.py:107-138 | The corrected slices, concatenated in order, are exactly `bit_combos_with_ends` |
| BitParallel.BitCombosThatMeasureWithGivens | holes/bitparallel.py:153-172 | Passes on the given-bits errors, and otherwise keeps exactly the measuring combos |
| BitParallel.ParallelizeGoodCombos | holes/bitparallel.py:80-138 | Collecting the slices' measuring combos in spawn order gives the good combos of that dot count |
| BitParallel.MeasuredPrefix | holes/bitparallel.py:133-135 | Extending the results by one more worker's list is filtering one more slice |
| BitParallel.BestBitCombos | holes/bitparallel.py:40-76 | The parallel dot-count loop, over the corrected slices, returns the same rulers as the bitwise search |
| BitParallel.BitCombosWithEnds | holes/bitparallel.py:249-261 | The override is the generator as written with leading and trailing (1,); WithEndsSpanning states what that gives |
| BitParallel.WithEndsSpanning | holes/bitparallel.py:249-261 | As written: raises for distance < 1, for dotcount < 2, and for dotcount > distance + 1 when distance >= 2 (the inner generator's error, the one the bitwise route raises). For distance 1 it yields 0b11 whatever the dot count. Otherwise it yields exactly the spanning combos. The corrected generator yields the same combos, or nothing where the dots do not fit |
| Util.SequenceFromBits | holes/_util.py:217-251 | Returns the positions of the set bits, ascending; nothing for a negative input |
| Util.BitsFromSequence | holes/_util.py:255-274 | Returns the integer with bit p set for each p of the sequence; () gives 0 |
| Util.RoundTrips | holes/_util.py:217-274 | Bits to positions and back is the identity. Positions to bits and back is the identity on ascending non-negative tuples |
| Util.CombinationsCount | holes/_util.py:278-297 | Raises for r < 0. Otherwise returns C(n, r), which is 0 when r > n |
| Util.FactorialQuotient | holes/_util.py:297 | n! // (r! (n - r)!) is C(n, r) |
| Util.RsplitSize | holes/_util.py:185-196 | The loop cuts the string from the right into `size`-long sections |
| Util.RsplitJoin | holes/_util.py:185-196 | The sections, reversed and concatenated, give back the string |
| Util.RsplitPieces | holes/_util.py:185-196 | No sections for ''. With `size` 0 a non-empty string is the one section. Otherwise every section but the last has length `size`, and the last is non-empty and at most `size` long |
| Util.BinaryValue | holes/_util.py:209 | The binary numeral has only 0/1 digits, no leading zero except for 0, and reads back as the number |
| Util.FormatBinary | holes/_util.py:200-213 | Taking the spaces out of the result gives back the signed numeral zero-filled to `digits` |
| Util.FormatBinaryDigits | holes/_util.py:200-213 | For a non-negative number, without spaces the result is the numeral zero-filled to `digits` and reads back as the number. For `sections` > 0 the groups are the right-to-left sections, each of `sections` digits except the first, which holds 1 to `sections` |
| Util.FormatBinarySign | holes/_util.py:208-213 | For a negative number, the result without spaces is '-' and then the magnitude's numeral zero-filled to `digits` - 1, because zfill pads after the sign. The sign falls into the first group |
| Util.Dots | holes/_util.py:119-139 | Raises for spacing < 1 or a negative point. Otherwise the line is (max + 1) * spacing long |
| Util.DotLineCell | holes/_util.py:133-138 | The cell at p * spacing is '.' iff p is in the sequence, padded with spaces to `spacing` |
| Util.RulerTicks | holes/_util.py:143-158 | Raises for length < 0 or spacing < 1 |
| Util.RulerTicksUnit | holes/_util.py:152-158 | The string starts with the five-tick. Each unit is `spacing - 1` spaces and a tick, and every fifth tick is the five-tick |
| Util.Chunkinate | holes/_util.py:301-315 | The chunks are non-empty, all of `chunksize` except the last, and concatenate to the input |
| Tuples.TupleCombo | holes/_util.py:255-274 | An ascending tuple within 0..n-1 converts to a combo below 2^n with one bit per entry, and back |
| Tuples.ComboTuple | holes/_util.py:217-251 | A combo below 2^n converts to an ascending tuple within 0..n-1, and back |
| Tuples.SpanTupleCombo | holes/iterold.py:108 | A tuple holding both ends is a spanning combo |
| Tuples.ComboSpanTuple | holes/bitbased.py:107-114 | A spanning combo is a tuple holding both ends |
| Tuples.GoodTupleCombo | holes/iterold.py:153-157 | A measuring spanning tuple is a measuring spanning combo |
| Tuples.ComboGoodTuple | holes/bitbased.py:177-188 | A measuring spanning combo is a measuring spanning tuple |
| Tuples.SpanTupleShape | holes/iterbased.py:149-155 | A spanning tuple starts at 0, ends at `distance`, and its interior lies strictly between |
| Tuples.AppendLengthSorted | holes/iterold.py:124-138 | Chaining a shorter-tuples list before a longer-tuples list keeps the length order |
| Tuples.FilterLengthSorted | holes/iterbased.py:174-182 | Filtering keeps the length order |
| Tuples.RunIsSmallest | holes/iterbased.py:248-255 | In a length-ordered list, the leading run of equal lengths is exactly the shortest entries |
| Tuples.RunIsBest | holes/iterold.py:222-240 | The leading run of a length-ordered list of all good tuples converts to exactly the best combos of the bitwise search |
| IterBased.ChooseCount | holes/iterbased.py:94 | `itertools.combinations` lists C(n, r) tuples |
| IterBased.ChooseMembers | holes/iterbased.py:94 | The tuples are exactly the ascending r-entry selections of the values |
| IterBased.ChooseLexSorted | holes/iterbased.py:94 | The tuples come in strictly increasing lexicographic order |
| IterBased.LexSortedDistinct | holes/iterbased.py:94 | So no tuple appears twice |
| IterBased.CombosWithNDotsCount | holes/iterbased.py:53-62 | Same errors as `combos_with_n_dots`. Otherwise returns C(distance + 1, dotcount) |
| IterBased.CountMatches | holes/iterbased.py:53-107 | The count is the number of tuples `combos_with_n_dots` yields |
| IterBased.CombosWithNDots | holes/iterbased.py:66-107 | Raises for distance < 0, dotcount < 0 or dotcount > distance + 1 |
| IterBased.CombosWithNDotsMembers | holes/iterbased.py:87-94 | Yields each ascending `dotcount`-tuple of offset..offset+distance, lexicographically |
| IterBased.CombosWithNDotsAgree | holes/bitbased.py:49-52 | With offset 0 the tuple route and the bitwise route list the same tuples |
| IterBased.GroupsMembers | holes/iterbased.py:130-132 | The chained groups hold every ascending selection with fewer than `count` entries |
| IterBased.GroupsSorted | holes/iterbased.py:130-132 | The groups come in increasing dot count |
| IterBased.AllCombos | holes/iterbased.py:111-137 | Fails only for distance -1, through `combos_with_n_dots(-1, 0)` |
| IterBased.AllCombosMembers | holes/iterbased.py:111-137 | Every ascending tuple of offset..offset+distance, fewest entries first |
| IterBased.AllCombosNone | holes/iterbased.py:130 | For distance <= -2 the range is empty and nothing is yielded |
| IterBased.Spanned | holes/iterbased.py:153-154 | Each inner tuple gets 0 in front and `distance` at the back |
| IterBased.SpanOne | holes/iterbased.py:149-151 | Length 1 gives only (0, 1) |
| IterBased.SpanWide | holes/iterbased.py:152-155 | For distance >= 2, exactly the spanning tuples, fewest entries first |
| IterBased.CombosThatSpan | holes/iterbased.py:141-155 | Every tuple it yields starts at 0 and ends at `distance`; CombosThatSpanMembers gives the full membership |
| IterBased.CombosThatSpanMembers | holes/iterbased.py:141-155 | Nothing for distance <= 0; otherwise exactly the spanning tuples, fewest entries first |
| IterBased.LengthsCovered | holes/iterbased.py:211-234 | The nested loops collect exactly the positive differences of pairs |
| IterBased.ComboMeasures | holes/iterbased.py:193-207 | Raises on an empty combo with a falsy distance. Otherwise true iff every length 1..distance is a difference of two entries, where a falsy distance means max - min |
| IterBased.DifferencesMembers | holes/iterbased.py:217-234 | A positive m is covered iff two entries lie m apart |
| IterBased.DefaultDistance | holes/iterbased.py:202-205 | For a spanning tuple the default distance is the ruler's length |
| IterBased.ComboMeasuresBits | holes/iterbased.py:193-207 | On the positions of a combo the set test agrees with the shift-AND test |
| IterBased.UntilLenChanges | holes/iterbased.py:238-255 | Yields the first item and the following items up to the first of another length |
| IterBased.NearEndKeepsGood | holes/iterbased.py:174-177 | Every measuring spanning tuple holds 1 or distance - 1, so the prefilter drops none |
| IterBased.GoodCombos | holes/iterbased.py:172-183 | A tuple is kept iff it spans, holds 1 or distance - 1, and measures its own length |
| IterBased.GoodCombosMembers | holes/iterbased.py:171-182 | The filtered stream is exactly the good tuples, fewest entries first |
| IterBased.FullRulerGood | holes/iterbased.py:171-182 | The full ruler is good, so the stream is never empty |
| IterBased.BestCombos | holes/iterbased.py:159-189 | Returns the leading run of the good tuples. Its tuples are exactly the positions of the bitwise search's best combos |
| IterOld.DistancesCovered | holes/iterold.py:53-78 | The loops collect exactly the positive pairwise differences |
| IterOld.CombosWithNDots | holes/iterold.py:83-108 | Raises for length < 1, then for ndots < 2 |
| IterOld.FilterLexSorted | holes/iterold.py:108 | Filtering keeps lexicographic order |
| IterOld.CombosWithNDotsMembers | holes/iterold.py:92-108 | Exactly the `ndots`-entry tuples over 0..length holding both 0 and `length` |
| IterOld.CombosWithNDotsSorted | holes/iterold.py:99-108 | They come in strictly increasing lexicographic order, so none twice |
| IterOld.ChainMembers | holes/iterold.py:124-138 | Chaining dot counts 2..count+1 gives the spanning tuples of those sizes |
| IterOld.ChainSorted | holes/iterold.py:124-138 | The chained stream comes fewest dots first |
| IterOld.PossibleCombos | holes/iterold.py:113-141 | A stream of tuples iff length > 0; otherwise the bare integer 0 |
| IterOld.PossibleCombosMembers | holes/iterold.py:113-141 | For length > 0, exactly the spanning tuples, fewest dots first |
| IterOld.ComboMeasures | holes/iterold.py:145-157 | True iff every distance 1..length is a difference of two points |
| IterOld.ComboMeasuresBits | holes/iterold.py:145-157 | On the positions of a combo this agrees with the shift-AND test |
| IterOld.GoodCombos | holes/iterold.py:162-187 | Raises for length <= 0, where the stream is the bare integer 0 |
| IterOld.GoodCombosMembers | holes/iterold.py:173-187 | For length > 0, exactly the good tuples, fewest dots first; the 1 / length - 1 prefilter drops none |
| IterOld.KeepFewest | holes/iterold.py:222-240 | The kept tuples are a prefix of the input; on a non-empty input at least the first is kept; none has more entries than the first; the tuple that stops the loop has more entries than the first |
| IterOld.BestCombos | holes/iterold.py:192-240 | The `first`/`min_dots` loop returns the leading run of the good tuples. Its tuples are exactly the positions of the bitwise search's best combos |
| BitOld.NDotsInBitCombo | holes/bitold.py:63-97 | Returns the popcount of a non-negative integer, and 0 for a negative one |
| BitOld.StepRange | holes/bitold.py:131 | `range(lo, hi, 2)`: ascending, every second integer from lo below hi |
| BitOld.PossibleBitCombos | holes/bitold.py:102-133 | A negative length makes `2 ** (length - 1)` a float, which `range` refuses |
| BitOld.PossibleBitCombosMembers | holes/bitold.py:117-131 | For length >= 1, exactly the combos below 2^(length + 1) with both end bits, ascending; none for length 0 |
| BitOld.BitComboMeasures | holes/bitold.py:137-156 | True iff `c & (c >> s) != 0` for every s in 1..length |
| BitOld.GoodBitCombos | holes/bitold.py:161-169 | Fails for a negative length, as `possible_bit_combos` does |
| BitOld.GoodBitCombosMembers | holes/bitold.py:168-169 | Exactly the measuring combos of `length + 1` positions, ascending |
| BitOld.BestBitCombos | holes/bitold.py:174-201 | The running-minimum loop returns exactly the rulers of the bitwise search, ascending. Its invariant: the list holds the good combos seen so far whose popcount equals `fewest_dots_yet` |
| BitOld.BestIsOptimal | holes/bitold.py:185-201 | After the pass, the combos of the minimum popcount are the bitwise search's best combos |
| BitOld.KeptIsOptimal | holes/bitold.py:190-196 | Every kept combo measures and has no more dots than any measuring combo |
| BitOld.OptimalIsKept | holes/bitold.py:185-196 | Every optimal ruler is kept |
| Rulers.PositionsMembers | holes/_util.py:237-251 | p is a position iff bit p is set |
| Rulers.PositionsIncreasing | holes/_util.py:237-251 | Positions come ascending, one per set bit |
| Rulers.BitsOfMembers | holes/_util.py:264-274 | Bit p of the packed integer is set iff p is in the sequence |
| Rulers.ShiftAndPair | holes/bitbased.py:180-181 | `c & (c >> s) != 0` iff two dots lie s apart |
| Rulers.MeasuresCovers | holes/bitbased.py:177-188 | The shift-AND test for every spacing equals "every length is a difference of two positions" |
| Rulers.MeasuresSpans | holes/bitbased.py:177-188 | A combo of `distance + 1` bits that measures `distance` holds both end dots |
| Rulers.FullRulerMeasures | holes/bitbased.py:177-188 | The all-ones ruler measures every length |
| Rulers.SpanningCombosMembers | holes/bitbased.py:107-114 | Exactly the combos of `k` dots in `d + 1` bits with both end bits |
| Combinatorics.BinomialFactorial | holes/_util.py:297 | C(n, k) * k! * (n - k)! = n! |
| Combinatorics.BinomialAbove | holes/_util.py:293-294 | C(n, k) = 0 for k > n |
| Combinatorics.BinaryTuplesValues | holes/bitparallel.py:96 | `product((0, 1), repeat=p)` lists 2^p binary tuples of length p, the j-th reading j |
| Combinatorics.FromBinaryPop | holes/bitparallel.py:210-218 | The numeral of a 0/1 tuple has as many one-bits as the tuple has ones |
| Combinatorics.FromBinaryBit | holes/bitparallel.py:190-200 | Entry i of the tuple is bit len - 1 - i of its numeral |

## Left out

- Process spawning, queues and joins in `parallelize_good_combos` and `parallelize_child_good_combos` are left out. They are concurrency; the model collects the workers' lists in spawn order.
- BitParallel.ParallelizeGoodCombos requires `2 <= dotcount <= distance + 1`, the range its only caller loops over. It also requires `parallels >= 1`: with 0 the power becomes -1 and `itertools.product` raises.
- BitParallel.InnerGivens requires `parallels >= 1` and `dotcount >= 2` for the same reason.
- BitParallel.BestBitCombos requires `parallels >= 1` when `distance >= 1`, because its loop then reaches `inner_givens`, which raises for `parallels` <= 0 as above. For `distance` <= 0 the loop never runs and any `parallels` is accepted.
- numpy's fixed-width `int_` overflows for wide rulers. The model uses unbounded integers, and arrays reshaped in place become sequences.
- Generators are modelled as the whole list they yield. When an error surfaces (at the first `next()`) is not modelled.
- Timing, logging and I/O are left out: `logfunc`, `log_progress` (an identity pass-through here), `print_combos`, `print_bit_combos`, `print_numpy_array_in_binary`, the command line and the implementation registry.
- `ruler_numbers` is left out because it depends on Python's format-spec mini-language.
- Util.RulerTicks: the section count is the `ceil` of a float division, modelled as exact integer ceiling. Multi-character tick strings are not modelled; ticks are single characters.
- Util.RsplitSize: with a negative size the source loops forever on a non-empty string, so the model takes `size` as a natural number.
- Util.FormatBinary: a negative `sections` makes the `rsplit_size` loop run forever, as above, so `sections` is a natural number. Negative numbers are modelled (the sign, and zfill padding after it); `digits` may be any integer.
- IterBased.BestCombos requires distance >= 1. For distance <= 0 `until_len_changes` runs on an empty stream. What happens then depends on the Python version (PEP 479).
- The class wrapper `HolesBitwiseOld` of holes/bitold.py is left out. So is its import of `points_from_bits`, which holes/_util.py does not define, so the module cannot be imported.
- The given-bits tests in test/test_holes.py import data that test/test_holes_data.py does not define. They were not used as evidence.
- `tuple_to_bits` accepts any iterable, while the model takes sequences of integers. Python's `True`/`False` as 1/0 is not modelled.
- Util.BitsFromSequence: the model gives 0 for every empty sequence. The source returns 0 only for the empty tuple `()`; an empty list reaches `max([])` and raises `ValueError`. Tuples and lists are one sequence type in the model.

## Findings

| source | as written | input that shows it | evidently intended | confidence | as-written member | corrected member |
|---|---|---|---|---|---|---|
| holes/bitparallel.py:234-238 | When the givens fill the whole ruler, `bit_combos_with_givens` yields the given mask without checking that its popcount equals `dotcount` | `bit_combos_with_givens(2, 3, (1, 0), (1,))` yields 0b101, which has 2 dots, not 3. Through the override, `bit_combos_with_ends(1, 3)` yields 0b11 | Yield the mask only when its ones equal the dot count; otherwise yield nothing | not executed | BitParallel.AsWrittenMiscounts | BitParallel.WithGivensMembers |
| holes/bitparallel.py:240-241 | When the inner dot count exceeds the inner width, the inner call `bit_combos_with_n_dots` raises `ValueError`. With 4 parallels, `inner_givens` produces such slices | `parallelize_good_combos(4, 4)` with `parallels = 4`: slice (1, 0, 0) has inner width 1 and inner dot count 2. The worker raises and its queue never receives a result | Such a slice holds no combo and yields nothing, so the slices together are `bit_combos_with_ends` | not executed | BitParallel.AsWrittenSliceFails | BitParallel.SlicesCover |
