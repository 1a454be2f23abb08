/** The replay of an accepted codec: the raw table it stands for and the number of colours the
    table accepts and rejects. */
module CleanSetReplay {
  import opened Results
  import opened Bytes
  import opened Sequences
  import opened CleanSetCodec
  import opened FiniteSets

  const CELLS: nat := 65536
  const COLOURS: nat := 16777216

  /// One column per green value, one cell per red value.
  type Table = seq<Column>

  predicate TableOk(t: Table) {
    && |t| == SIDE
    && forall g :: 0 <= g < SIDE ==> |t[g]| == SIDE && CanonicalCells(t[g])
  }

  predicate CanonicalCells(column: Column) {
    forall r :: 0 <= r < |column| ==> CanonicalInterval(column[r])
  }

  function ExpandedColumn(records: seq<Record>): (column: Column)
    requires CanonicalColumn(records)
    ensures |column| == SIDE && CanonicalCells(column)
  {
    CanonicalLookups(records);
    Expand(records)
  }

  lemma CanonicalLookups(records: seq<Record>)
    requires CanonicalColumn(records)
    ensures CanonicalCells(Expand(records))
  {
    forall r | 0 <= r < SIDE ensures CanonicalInterval(Expand(records)[r]) {
      LookupDefined(records, r);
    }
  }

  function TableOf(codec: seq<Byte>, records: nat): (t: Table)
    requires Accepted(codec, records)
    ensures TableOk(t)
  {
    seq(SIDE, g requires 0 <= g < SIDE => ExpandedColumn(ColumnAt(codec, records, g)))
  }

  function ColumnRuns(column: Column): (records: seq<Record>)
    requires |column| == SIDE && CanonicalCells(column)
    ensures CanonicalColumn(records)
  {
    ExpandRoundTrip(column);
    Runs(column, SIDE)
  }

  function ColumnsOf(t: Table): (columns: seq<seq<Record>>)
    requires TableOk(t)
    ensures |columns| == SIDE && forall g :: 0 <= g < SIDE ==> CanonicalColumn(columns[g])
  {
    seq(SIDE, g requires 0 <= g < SIDE => ColumnRuns(t[g]))
  }

  /** The offsets are 16 bits wide: a table needs fewer than 65536 runs to have an encoding. */
  predicate Storable(t: Table)
    requires TableOk(t)
  {
    |Flatten(ColumnsOf(t))| < 65536
  }

  function EncodeTable(t: Table): seq<Byte>
    requires TableOk(t) && Storable(t)
  {
    EncodeColumns(ColumnsOf(t))
  }

  /** Decoding and encoding again gives the accepted bytes back. */
  lemma EncodeAfterDecode(codec: seq<Byte>, records: nat)
    requires Accepted(codec, records)
    ensures Storable(TableOf(codec, records)) && EncodeTable(TableOf(codec, records)) == codec
  {
    var t := TableOf(codec, records);
    forall g | 0 <= g < SIDE ensures ColumnsOf(t)[g] == Columns(codec, records)[g] {
      RunsRoundTrip(ColumnAt(codec, records, g));
    }
    assert ColumnsOf(t) == Columns(codec, records);
    AcceptedIsEncoding(codec, records);
  }

  /** Encoding and decoding again gives the table back. */
  lemma DecodeAfterEncode(t: Table)
    requires TableOk(t) && Storable(t)
    ensures var codec, records := EncodeTable(t), |Flatten(ColumnsOf(t))|;
            Accepted(codec, records) && TableOf(codec, records) == t
  {
    var codec, records := EncodeTable(t), |Flatten(ColumnsOf(t))|;
    EncodingIsAccepted(ColumnsOf(t));
    forall g | 0 <= g < SIDE ensures TableOf(codec, records)[g] == t[g] {
      assert ColumnAt(codec, records, g) == Columns(codec, records)[g] == Runs(t[g], SIDE);
      ExpandRoundTrip(t[g]);
    }
  }

  /// ------------------------------------------------------------ raw bytes

  function Cell(t: Table, k: nat): Interval
    requires TableOk(t) && k < CELLS
  {
    t[k % SIDE][k / SIDE]
  }

  /** Two bytes per cell, red-major. */
  function Raw(t: Table, n: nat): seq<Byte>
    requires TableOk(t) && n <= CELLS
  {
    if n == 0 then [] else Raw(t, n - 1) + [Cell(t, n - 1).lo, Cell(t, n - 1).hi]
  }

  lemma {:induction false} RawAt(t: Table, n: nat, k: nat)
    requires TableOk(t) && k < n <= CELLS
    ensures |Raw(t, n)| == 2 * n && Raw(t, n)[2*k] == Cell(t, k).lo && Raw(t, n)[2*k+1] == Cell(t, k).hi
  {
    if n > 1 { RawAt(t, n - 1, if k < n - 1 then k else 0); }
  }

  lemma RawDeterminesTable(t: Table, u: Table)
    requires TableOk(t) && TableOk(u) && Raw(t, CELLS) == Raw(u, CELLS)
    ensures t == u
  {
    forall g | 0 <= g < SIDE ensures t[g] == u[g] {
      forall r | 0 <= r < SIDE ensures t[g][r] == u[g][r] {
        var k := SIDE * r + g;
        assert k / SIDE == r && k % SIDE == g;
        RawAt(t, CELLS, k);
        RawAt(u, CELLS, k);
      }
    }
  }

  /** The form is canonical: two accepted codecs with the same raw table are the same bytes. */
  lemma SameRawSameBytes(a: seq<Byte>, m: nat, b: seq<Byte>, n: nat)
    requires Accepted(a, m) && Accepted(b, n)
    requires Raw(TableOf(a, m), CELLS) == Raw(TableOf(b, n), CELLS)
    ensures a == b && m == n
  {
    RawDeterminesTable(TableOf(a, m), TableOf(b, n));
    EncodeAfterDecode(a, m);
    EncodeAfterDecode(b, n);
  }

  /// ------------------------------------------------------------ totals

  /** A colour is accepted when it is neutral or its blue lies outside the cell's interval. */
  predicate Admits(i: Interval, red: int, green: int, blue: int) {
    (red == green && green == blue) || !(i.lo <= blue <= i.hi)
  }

  function RejectedHere(i: Interval, red: nat, green: nat): int {
    var span := if i == EMPTY then 0 else i.hi - i.lo + 1;
    if red == green && span != 0 && i.lo <= red <= i.hi then span - 1 else span
  }

  function AcceptedHere(i: Interval, red: nat, green: nat): int {
    var span := if i == EMPTY then 0 else i.hi - i.lo + 1;
    if red == green && span != 0 && i.lo <= red <= i.hi then 256 - span + 1 else 256 - span
  }

  ghost function Blues(i: Interval, red: int, green: int): set<int> {
    set b | b in Range(0, SIDE) && Admits(i, red, green, b)
  }

  lemma HereSplits(i: Interval, red: nat, green: nat)
    requires CanonicalInterval(i)
    ensures AcceptedHere(i, red, green) + RejectedHere(i, red, green) == SIDE
    ensures 0 <= AcceptedHere(i, red, green)
  {
  }

  ghost function RejectedBlues(i: Interval, red: int, green: int): set<int>
    requires CanonicalInterval(i)
  {
    var inside: set<int> := if i == EMPTY then {} else Range(i.lo, i.hi + 1);
    if red == green then inside - {red} else inside
  }

  lemma RejectedBluesCounted(i: Interval, red: nat, green: nat)
    requires CanonicalInterval(i)
    ensures |RejectedBlues(i, red, green)| == RejectedHere(i, red, green)
  {
    if i != EMPTY && red == green && i.lo <= red <= i.hi {
      Without(Range(i.lo, i.hi + 1), {red as int});
    } else if i != EMPTY {
      assert RejectedBlues(i, red, green) == Range(i.lo, i.hi + 1);
    }
  }

  lemma BluesSplit(i: Interval, red: nat, green: nat, b: int)
    requires CanonicalInterval(i) && 0 <= b < SIDE
    ensures Admits(i, red, green, b) <==> b !in RejectedBlues(i, red, green)
  {
  }

  lemma BluesCounted(i: Interval, red: nat, green: nat)
    requires CanonicalInterval(i)
    ensures |Blues(i, red, green)| == AcceptedHere(i, red, green)
  {
    var removed := RejectedBlues(i, red, green);
    BluesAreRest(i, red, green);
    RejectedBluesCounted(i, red, green);
    HereSplits(i, red, green);
    Without(Range(0, SIDE), removed);
  }

  lemma BluesAreRest(i: Interval, red: nat, green: nat)
    requires CanonicalInterval(i)
    ensures Blues(i, red, green) == Range(0, SIDE) - RejectedBlues(i, red, green)
    ensures RejectedBlues(i, red, green) <= Range(0, SIDE)
  {
    var all, removed := Range(0, SIDE), RejectedBlues(i, red, green);
    forall b | b in all ensures b in Blues(i, red, green) <==> b in all - removed {
      BluesSplit(i, red, green, b);
    }
  }

  ghost function CellColours(t: Table, k: nat): set<(int, int, int)>
    requires TableOk(t) && k < CELLS
  {
    Tagged(Blues(Cell(t, k), k / SIDE, k % SIDE), k / SIDE, k % SIDE)
  }

  function AcceptedTotal(t: Table, n: nat): int
    requires TableOk(t) && n <= CELLS
  {
    if n == 0 then 0 else AcceptedTotal(t, n - 1) + AcceptedHere(Cell(t, n - 1), (n - 1) / SIDE, (n - 1) % SIDE)
  }

  ghost predicate IsColour(c: (int, int, int)) {
    0 <= c.0 < SIDE && 0 <= c.1 < SIDE && 0 <= c.2 < SIDE
  }

  lemma CellMembers(t: Table, k: nat, c: (int, int, int))
    requires TableOk(t) && k < CELLS
    ensures c in CellColours(t, k) <==>
            IsColour(c) && SIDE * c.0 + c.1 == k && Admits(t[c.1][c.0], c.0, c.1, c.2)
  {
    var red, green := k / SIDE, k % SIDE;
    assert k == SIDE * red + green && 0 <= green < SIDE;
    if IsColour(c) && SIDE * c.0 + c.1 == k {
      assert c.0 == red && c.1 == green;
    }
    var blues := Blues(Cell(t, k), red, green);
    assert c in Tagged(blues, red, green) <==> c.0 == red && c.1 == green && c.2 in blues;
  }

  ghost function CellSets(t: Table, n: nat): seq<set<(int, int, int)>>
    requires TableOk(t) && n <= CELLS
  {
    seq(n, k requires 0 <= k < n => CellColours(t, k))
  }

  lemma CellCounted(t: Table, k: nat)
    requires TableOk(t) && k < CELLS
    ensures |CellColours(t, k)| == AcceptedHere(Cell(t, k), k / SIDE, k % SIDE)
  {
    BluesCounted(Cell(t, k), k / SIDE, k % SIDE);
    TaggedSize(Blues(Cell(t, k), k / SIDE, k % SIDE), k / SIDE, k % SIDE);
  }

  lemma CellSetsStep(t: Table, k: nat)
    requires TableOk(t) && k < CELLS
    ensures CellSets(t, k + 1) == CellSets(t, k) + [CellColours(t, k)]
  {
  }

  lemma AcceptedStep(t: Table, k: nat)
    requires TableOk(t) && k < CELLS
    ensures AcceptedTotal(t, k + 1) == AcceptedTotal(t, k) + |CellColours(t, k)|
  {
    CellCounted(t, k);
  }

  lemma {:induction false} CellSizes(t: Table, n: nat)
    requires TableOk(t) && n <= CELLS
    ensures SizeSum(CellSets(t, n)) == AcceptedTotal(t, n)
  {
    if n == 0 {
      assert CellSets(t, 0) == [];
    } else {
      CellSizes(t, n - 1);
      CellSetsStep(t, n - 1);
      SizeSumAppend(CellSets(t, n - 1), CellColours(t, n - 1));
      AcceptedStep(t, n - 1);
    }
  }

  /** The colours the table accepts among all 256^3. */
  ghost predicate AreAccepted(t: Table, accepted: set<(int, int, int)>)
    requires TableOk(t)
  {
    forall c :: c in accepted <==> IsColour(c) && Admits(t[c.1][c.0], c.0, c.1, c.2)
  }

  /** The running total is the number of accepted colours. */
  lemma TotalIsCardinality(t: Table, accepted: set<(int, int, int)>)
    requires TableOk(t) && AreAccepted(t, accepted)
    ensures |accepted| == AcceptedTotal(t, CELLS)
  {
    var sets := CellSets(t, CELLS);
    forall i, k | 0 <= i < k < |sets| ensures sets[i] !! sets[k] {
      forall c | c in sets[i] ensures c !in sets[k] {
        CellMembers(t, i, c);
        CellMembers(t, k, c);
      }
    }
    forall c ensures c in accepted <==> c in UnionAll(sets) {
      AcceptedInCells(t, accepted, c);
    }
    assert accepted == UnionAll(sets);
    DisjointUnionSize(sets);
    CellSizes(t, CELLS);
  }

  lemma AcceptedInCells(t: Table, accepted: set<(int, int, int)>, c: (int, int, int))
    requires TableOk(t) && AreAccepted(t, accepted)
    ensures c in accepted <==> c in UnionAll(CellSets(t, CELLS))
  {
    var sets := CellSets(t, CELLS);
    InUnion(sets, c);
    if IsColour(c) {
      var k := SIDE * c.0 + c.1;
      CellMembers(t, k, c);
      assert sets[k] == CellColours(t, k);
    }
    forall k | 0 <= k < |sets| ensures c in sets[k] ==> c in accepted {
      CellMembers(t, k, c);
    }
  }

  function RejectedTotal(t: Table, n: nat): int
    requires TableOk(t) && n <= CELLS
  {
    if n == 0 then 0 else RejectedTotal(t, n - 1) + RejectedHere(Cell(t, n - 1), (n - 1) / SIDE, (n - 1) % SIDE)
  }

  lemma {:induction false} TotalsSplitColours(t: Table, n: nat)
    requires TableOk(t) && n <= CELLS
    ensures AcceptedTotal(t, n) + RejectedTotal(t, n) == SIDE * n
    ensures 0 <= AcceptedTotal(t, n)
  {
    if n > 0 {
      TotalsSplitColours(t, n - 1);
      HereSplits(Cell(t, n - 1), (n - 1) / SIDE, (n - 1) % SIDE);
    }
  }

  /// ------------------------------------------------------------ the decoder

  datatype CodecError =
    | WrongLength
    | WrongHeader
    | UnboundOffsets
    | EmptyColumn
    | LateStart(green: nat)
    | NonIncreasing(green: nat)
    | ReversedInterval(green: nat)
    | SplitRun(green: nat)
    | Vacuous

  /** One column's canonical-form check, record by record. */
  method CheckColumn(records: seq<Record>, green: nat) returns (e: Option<CodecError>)
    requires records != []
    ensures e == None <==> CanonicalColumn(records)
    ensures e.Some? ==> e.value in {LateStart(green), NonIncreasing(green), ReversedInterval(green), SplitRun(green)}
  {
    if records[0].red != 0 { return Some(LateStart(green)); }
    var previousStart: int, previousRun: Option<Interval> := -1, None;
    for k := 0 to |records|
      invariant k == 0 ==> previousStart == -1 && previousRun == None
      invariant 0 < k ==> CanonicalColumn(records[..k])
      invariant 0 < k ==> previousStart == records[k-1].red && previousRun == Some(records[k-1].run)
    {
      var record := records[k];
      assert records[..k+1][k] == record;
      if record.red <= previousStart { return Some(NonIncreasing(green)); }
      if record.run.lo > record.run.hi && record.run != EMPTY { return Some(ReversedInterval(green)); }
      if previousRun == Some(record.run) { return Some(SplitRun(green)); }
      previousStart, previousRun := record.red, Some(record.run);
    }
    assert records[..|records|] == records;
    e := None;
  }

  method LookupRun(records: seq<Record>, red: nat) returns (i: Interval)
    requires CanonicalColumn(records) && red < SIDE
    ensures i == Expand(records)[red]
  {
    LookupDefined(records, red);
    StartedCuts(records, red + 1);
    i := records[0].run;
    for k := 1 to |records|
      invariant i == records[k-1].run
      invariant forall m :: 0 <= m < k ==> records[m].red < red + 1
    {
      if records[k].red > red {
        StartedIs(records, red + 1, k);
        return;
      }
      i := records[k].run;
    }
    StartedIs(records, red + 1, |records|);
  }

  method CheckColumns(codec: seq<Byte>, records: nat) returns (e: Option<CodecError>)
    requires |codec| == BODY_OFFSET + 3 * records && OffsetsOk(codec, records)
    ensures e == None <==> forall g :: 0 <= g < SIDE ==> CanonicalColumn(ColumnAt(codec, records, g))
    ensures e.Some? ==> e.value.LateStart? || e.value.NonIncreasing? || e.value.ReversedInterval? || e.value.SplitRun?
  {
    for green := 0 to SIDE
      invariant forall g :: 0 <= g < green ==> CanonicalColumn(ColumnAt(codec, records, g))
    {
      assert Offset(codec, green) < Offset(codec, green + 1);
      e := CheckColumn(ColumnAt(codec, records, green), green);
      if e.Some? { return; }
    }
    e := None;
  }

  /** The replay so far: raw bytes and both totals of the first n cells in red-major order. */
  ghost predicate Replayed(t: Table, n: nat, raw: seq<Byte>, accepted: int, rejected: int)
    requires TableOk(t) && n <= CELLS
  {
    raw == Raw(t, n) && accepted == AcceptedTotal(t, n) && rejected == RejectedTotal(t, n)
  }

  ghost predicate Stores(columns: seq<seq<Record>>, t: Table)
    requires TableOk(t)
  {
    |columns| == SIDE && forall g :: 0 <= g < SIDE ==> CanonicalColumn(columns[g]) && Expand(columns[g]) == t[g]
  }

  method Replay(columns: seq<seq<Record>>, ghost t: Table) returns (raw: seq<Byte>, accepted: int, rejected: int)
    requires TableOk(t) && Stores(columns, t)
    ensures Replayed(t, CELLS, raw, accepted, rejected)
  {
    raw, accepted, rejected := [], 0, 0;
    for red := 0 to SIDE
      invariant Replayed(t, SIDE * red, raw, accepted, rejected)
    {
      raw, accepted, rejected := ReplayRow(columns, t, red, raw, accepted, rejected);
    }
  }

  method ReplayRow(columns: seq<seq<Record>>, ghost t: Table, red: nat, raw0: seq<Byte>, accepted0: int, rejected0: int)
    returns (raw: seq<Byte>, accepted: int, rejected: int)
    requires TableOk(t) && Stores(columns, t) && red < SIDE
    requires Replayed(t, SIDE * red, raw0, accepted0, rejected0)
    ensures Replayed(t, SIDE * red + SIDE, raw, accepted, rejected)
  {
    raw, accepted, rejected := raw0, accepted0, rejected0;
    for green := 0 to SIDE
      invariant Replayed(t, SIDE * red + green, raw, accepted, rejected)
    {
      assert CanonicalColumn(columns[green]) && Expand(columns[green]) == t[green];
      var run := LookupRun(columns[green], red);
      var acceptedHere, rejectedHere := CountCell(run, red, green);
      ReplayStep(t, red, green, run, raw, accepted, rejected);
      raw := raw + [run.lo, run.hi];
      accepted := accepted + acceptedHere;
      rejected := rejected + rejectedHere;
    }
  }

  method CountCell(run: Interval, red: nat, green: nat) returns (acceptedHere: int, rejectedHere: int)
    ensures acceptedHere == AcceptedHere(run, red, green) && rejectedHere == RejectedHere(run, red, green)
  {
    rejectedHere := if run == EMPTY then 0 else run.hi - run.lo + 1;
    acceptedHere := 256 - rejectedHere;
    if red == green && rejectedHere != 0 && run.lo <= red <= run.hi {
      acceptedHere := acceptedHere + 1;
      rejectedHere := rejectedHere - 1;
    }
  }

  lemma ReplayStep(t: Table, red: nat, green: nat, run: Interval, raw: seq<Byte>, accepted: int, rejected: int)
    requires TableOk(t) && red < SIDE && green < SIDE && run == t[green][red]
    requires Replayed(t, SIDE * red + green, raw, accepted, rejected)
    ensures Replayed(t, SIDE * red + green + 1, raw + [run.lo, run.hi],
                     accepted + AcceptedHere(run, red, green), rejected + RejectedHere(run, red, green))
  {
    var k := SIDE * red + green;
    assert k / SIDE == red && k % SIDE == green;
  }

  /** The decoder. It answers exactly on accepted codecs whose table neither accepts nor rejects
      everything, with the raw bytes and the number of accepted colours. */
  method DecodeCodec(codec: seq<Byte>, expectedRecords: nat) returns (r: Result<(seq<Byte>, int), CodecError>)
    ensures r == Err(WrongLength) <==> |codec| != BODY_OFFSET + 3 * expectedRecords
    ensures r.Ok? || r == Err(Vacuous) <==> Accepted(codec, expectedRecords)
    ensures r.Ok? ==>
      && r.value.0 == Raw(TableOf(codec, expectedRecords), CELLS)
      && r.value.1 == AcceptedTotal(TableOf(codec, expectedRecords), CELLS)
      && 0 < r.value.1 < COLOURS
    ensures r == Err(Vacuous) ==> AcceptedTotal(TableOf(codec, expectedRecords), CELLS) in {0, COLOURS}
  {
    if |codec| != BODY_OFFSET + 3 * expectedRecords { return Err(WrongLength); }
    if codec[..8] != HEADER { return Err(WrongHeader); }
    if Offset(codec, 0) != 0 || Offset(codec, SIDE) != expectedRecords { return Err(UnboundOffsets); }
    if !OffsetsOk(codec, expectedRecords) { return Err(EmptyColumn); }
    var e := CheckColumns(codec, expectedRecords);
    if e.Some? { return Err(e.value); }
    ghost var t := TableOf(codec, expectedRecords);
    var raw, accepted, rejected := Replay(Columns(codec, expectedRecords), t);
    TotalsSplitColours(t, CELLS);
    if accepted == 0 || rejected == 0 { return Err(Vacuous); }
    RejectedNonNegative(t, CELLS);
    r := Ok((raw, accepted));
  }

  lemma {:induction false} RejectedNonNegative(t: Table, n: nat)
    requires TableOk(t) && n <= CELLS
    ensures 0 <= RejectedTotal(t, n)
  {
    if n > 0 { RejectedNonNegative(t, n - 1); }
  }
}
