/** The numpy route: the bitwise search, except that the measuring filter
    runs on chunks of 2^16 combos at a time, testing a whole chunk against
    every spacing in one broadcast array expression. */
module BitNumpy {
  import opened Bits
  import opened Seqs
  import opened Rulers
  import opened Util
  import BitBased

  /** The number of combos handed to one array computation. */
  const ChunkSize: nat := 0x1_0000

  /** range(1, distance + 1) as an array. */
  function Spacings(distance: int): (spacings: seq<nat>)
    ensures |spacings| == if distance > 0 then distance else 0
    ensures forall j :: 0 <= j < |spacings| ==> spacings[j] == j + 1
  {
    if distance <= 0 then [] else seq(distance, j => j + 1)
  }

  /** The broadcast table (combos & (combos >> spacings)) != 0: row i
      column j says whether combo i has two dots spacings[j] apart. */
  function MeasureMatrix(combos: seq<nat>, spacings: seq<nat>): (matrix: seq<seq<bool>>)
    ensures |matrix| == |combos|
    ensures forall i :: 0 <= i < |combos| ==> |matrix[i]| == |spacings|
  {
    seq(|combos|, i requires 0 <= i < |combos| =>
      seq(|spacings|, j requires 0 <= j < |spacings| => And(combos[i], Shr(combos[i], spacings[j])) != 0))
  }

  /** matrix.all(axis=1): whether each row is true throughout. */
  function AllRows(matrix: seq<seq<bool>>): (rows: seq<bool>)
    ensures |rows| == |matrix|
  {
    seq(|matrix|, i requires 0 <= i < |matrix| => forall j :: 0 <= j < |matrix[i]| ==> matrix[i][j])
  }

  /** combos[mask]: the entries whose mask entry is true, in order. */
  function Select(combos: seq<nat>, mask: seq<bool>): seq<nat>
    requires |mask| == |combos|
  {
    if combos == [] then []
    else
      var n := |combos| - 1;
      Select(combos[..n], mask[..n]) + (if mask[n] then [combos[n]] else [])
  }

  /** One chunk through the array expression: keeps exactly the combos that
      the one-at-a-time shift-AND test keeps, in the same order. */
  function BitCombosMeasureNp(chunk: seq<nat>, distance: int): (r: seq<nat>)
    ensures r == BitBased.MeasuringOnly(chunk, distance)
  {
    var matrix := MeasureMatrix(chunk, Spacings(distance));
    var mask := AllRows(matrix);
    forall i | 0 <= i < |chunk|
      ensures mask[i] == Measures(chunk[i], distance)
    {
      RowMeasures(chunk[i], distance, matrix[i]);
    }
    SelectMeasuring(chunk, mask, distance);
    Select(chunk, mask)
  }

  /** A row of the table is true throughout exactly when the combo passes
      the shift-AND test for every spacing 1 through distance. */
  lemma RowMeasures(c: nat, distance: int, row: seq<bool>)
    requires |row| == |Spacings(distance)|
    requires forall j :: 0 <= j < |row| ==> row[j] == (And(c, Shr(c, Spacings(distance)[j])) != 0)
    ensures (forall j :: 0 <= j < |row| ==> row[j]) <==> Measures(c, distance)
  {
    var spacings := Spacings(distance);
    if forall j :: 0 <= j < |row| ==> row[j] {
      forall s: nat | 1 <= s <= distance
        ensures ShiftAnd(c, s)
      {
        assert row[s - 1];
      }
    }
    if Measures(c, distance) {
      forall j | 0 <= j < |row|
        ensures row[j]
      {
        assert ShiftAnd(c, j + 1);
      }
    }
  }

  lemma {:induction false} SelectMeasuring(combos: seq<nat>, mask: seq<bool>, distance: int)
    requires |mask| == |combos|
    requires forall i :: 0 <= i < |combos| ==> mask[i] == Measures(combos[i], distance)
    ensures Select(combos, mask) == BitBased.MeasuringOnly(combos, distance)
    decreases |combos|
  {
    if combos != [] {
      var n := |combos| - 1;
      SelectMeasuring(combos[..n], mask[..n], distance);
    }
  }

  /** With no spacing to test, every combo of the chunk is kept. */
  lemma NothingToMeasure(chunk: seq<nat>, distance: int)
    requires distance <= 0
    ensures BitCombosMeasureNp(chunk, distance) == chunk
  {
    KeepAll(chunk, distance);
  }

  lemma {:induction false} KeepAll(chunk: seq<nat>, distance: int)
    requires distance <= 0
    ensures BitBased.MeasuringOnly(chunk, distance) == chunk
    decreases |chunk|
  {
    if chunk != [] {
      var n := |chunk| - 1;
      KeepAll(chunk[..n], distance);
      assert chunk[..n] + [chunk[n]] == chunk;
    }
  }

  /** Cut the combos into chunks, filter each chunk with the array
      expression, and pass on the survivors in order: the same combos as the
      one-at-a-time filter of the bitwise route. */
  method BitCombosThatMeasure(bitcombos: seq<nat>, distance: int) returns (measuring: seq<nat>)
    ensures measuring == BitBased.MeasuringOnly(bitcombos, distance)
  {
    var chunks := Chunkinate(bitcombos, ChunkSize);
    measuring := [];
    var i := 0;
    while i < |chunks|
      invariant 0 <= i <= |chunks|
      invariant measuring == BitBased.MeasuringOnly(Flatten(chunks[..i]), distance)
    {
      var mchunk := BitCombosMeasureNp(chunks[i], distance);
      assert chunks[..i + 1] == chunks[..i] + [chunks[i]];
      FlattenAppend(chunks[..i], chunks[i]);
      BitBased.MeasuringOnlyAppend(Flatten(chunks[..i]), chunks[i], distance);
      measuring := measuring + mchunk;
      i := i + 1;
    }
    assert chunks[..i] == chunks;
  }
}
