/** The column run-length codec of the clean-set table: its canonical form, the decoder that
    replays it, the encoder that inverts the decoder, and the two totals of the replay. */
module CleanSetCodec {
  import opened Bytes
  import opened Sequences

  const HEADER: seq<Byte> := [0x4c, 0x50, 0x43, 0x43, 1, 1, 0, 0]
  const SIDE: nat := 256
  const INDEX_ENTRIES: nat := 257
  const BODY_OFFSET: nat := 522

  datatype Interval = Interval(lo: Byte, hi: Byte)

  const EMPTY := Interval(255, 0)

  /// A run: from this red value on, the column holds this interval.
  datatype Record = Record(red: Byte, run: Interval)

  predicate CanonicalInterval(i: Interval) { i.lo <= i.hi || i == EMPTY }

  predicate Holds(i: Interval, b: Byte) { i.lo <= b <= i.hi }

  /** Canonical forms are one for each set of values, the empty set included. */
  lemma CanonicalUnique(i: Interval, j: Interval)
    requires CanonicalInterval(i) && CanonicalInterval(j) && forall b: Byte :: Holds(i, b) <==> Holds(j, b)
    ensures i == j
  {
    assert Holds(i, i.lo) <==> Holds(j, i.lo);
    assert Holds(i, i.hi) <==> Holds(j, i.hi);
    assert Holds(i, j.lo) <==> Holds(j, j.lo);
    assert Holds(i, j.hi) <==> Holds(j, j.hi);
  }

  lemma CanonicalExists(i: Interval) returns (j: Interval)
    ensures CanonicalInterval(j) && forall b: Byte :: Holds(i, b) <==> Holds(j, b)
    ensures (forall b: Byte :: !Holds(i, b)) ==> j == Interval(255, 0)
  {
    assert i.lo <= i.hi ==> Holds(i, i.lo);
    j := if i.lo <= i.hi then i else EMPTY;
  }

  /** One green column in canonical form. */
  predicate CanonicalColumn(records: seq<Record>) {
    && records != [] && records[0].red == 0
    && (forall k :: 0 <= k < |records| ==> CanonicalInterval(records[k].run))
    && (forall k :: 0 < k < |records| ==> records[k-1].red < records[k].red && records[k-1].run != records[k].run)
  }

  /// ------------------------------------------------------------ runs and cells

  type Column = seq<Interval>

  /** How many runs start below n. */
  function Started(records: seq<Record>, n: nat): nat {
    if records == [] || records[0].red >= n then 0 else 1 + Started(records[1..], n)
  }

  lemma {:induction false} RedsIncrease(records: seq<Record>, i: nat, k: nat)
    requires forall m :: 0 < m < |records| ==> records[m-1].red < records[m].red
    requires i < k < |records|
    ensures records[i].red < records[k].red
  {
    if i + 1 < k { RedsIncrease(records, i, k - 1); }
  }

  lemma {:induction false} StartedCuts(records: seq<Record>, n: nat)
    requires forall m :: 0 < m < |records| ==> records[m-1].red < records[m].red
    ensures Started(records, n) <= |records|
    ensures forall k :: 0 <= k < |records| ==> (records[k].red < n <==> k < Started(records, n))
  {
    if records != [] {
      if records[0].red < n {
        StartedCuts(records[1..], n);
        forall k | 0 <= k < |records| ensures records[k].red < n <==> k < Started(records, n) {
          if k > 0 { assert records[k] == records[1..][k-1]; }
        }
      } else {
        forall k | 0 <= k < |records| ensures records[k].red >= n {
          if k > 0 { RedsIncrease(records, 0, k); }
        }
      }
    }
  }

  /** The run a cell falls in: the last one that starts at or before its red value. */
  function Lookup(records: seq<Record>, red: nat): Interval
    requires 0 < Started(records, red + 1) <= |records|
  {
    records[Started(records, red + 1) - 1].run
  }

  lemma LookupDefined(records: seq<Record>, red: nat)
    requires CanonicalColumn(records)
    ensures 0 < Started(records, red + 1) <= |records|
  {
    StartedCuts(records, red + 1);
  }

  function Expand(records: seq<Record>): (column: Column)
    requires CanonicalColumn(records)
    ensures |column| == SIDE
  {
    seq(SIDE, red requires 0 <= red < SIDE => LookupDefined(records, red); Lookup(records, red))
  }

  /** The runs of the first n cells of a column: one wherever the interval changes. */
  function Runs(column: Column, n: nat): seq<Record>
    requires n <= |column| <= SIDE
  {
    if n == 0 then []
    else if n == 1 || column[n-1] != column[n-2] then Runs(column, n - 1) + [Record(n - 1, column[n-1])]
    else Runs(column, n - 1)
  }

  lemma RunStarts(records: seq<Record>, n: nat, c: nat)
    requires CanonicalColumn(records) && 0 < n <= SIDE && c == Started(records, n - 1) < Started(records, n)
    requires c <= |records| && Runs(Expand(records), n - 1) == records[..c]
    ensures Started(records, n) <= |records| && Runs(Expand(records), n) == records[..Started(records, n)]
  {
    StartedCuts(records, n);
    StartedCuts(records, n - 1);
    LookupDefined(records, n - 1);
    assert records[c].red == n - 1;
    if n > 1 { LookupDefined(records, n - 2); }
    NextRun(records, n, c);
    assert records[..c+1] == records[..c] + [records[c]];
  }

  /** Run starts are exactly the change points, so re-encoding an expanded column gives it back. */
  lemma {:induction false} RunsOfExpansion(records: seq<Record>, n: nat)
    requires CanonicalColumn(records) && n <= SIDE
    ensures Started(records, n) <= |records| && Runs(Expand(records), n) == records[..Started(records, n)]
  {
    StartedCuts(records, n);
    if n > 0 {
      RunsOfExpansion(records, n - 1);
      StartedCuts(records, n - 1);
      var c := Started(records, n - 1);
      LookupDefined(records, n - 1);
      if Started(records, n) > c {
        RunStarts(records, n, c);
      } else {
        assert c > 0;
        LookupDefined(records, n - 2);
      }
    }
  }

  /** At most one run starts at a given red value. */
  lemma NextRun(records: seq<Record>, n: nat, c: nat)
    requires CanonicalColumn(records) && 0 < n && c == Started(records, n - 1) < Started(records, n)
    ensures Started(records, n) == c + 1 <= |records|
  {
    StartedCuts(records, n);
    StartedCuts(records, n - 1);
    if c + 1 < |records| {
      RedsIncrease(records, c, c + 1);
    }
  }

  /** What runs of a column look like, cell by cell. */
  lemma {:induction false} RunsShape(column: Column, n: nat)
    requires |column| == SIDE && 0 < n <= SIDE
    requires forall r :: 0 <= r < SIDE ==> CanonicalInterval(column[r])
    ensures var runs := Runs(column, n);
            && CanonicalColumn(runs) && |runs| <= n
            && runs[|runs|-1].red < n && runs[|runs|-1].run == column[n-1]
  {
    if n > 1 { RunsShape(column, n - 1); }
  }

  /** The cut is where it looks to be. */
  lemma StartedIs(records: seq<Record>, n: nat, c: nat)
    requires CanonicalColumn(records) && c <= |records|
    requires forall k :: 0 <= k < c ==> records[k].red < n
    requires c < |records| ==> n <= records[c].red
    ensures Started(records, n) == c
  {
    StartedCuts(records, n);
    var s := Started(records, n);
    if s < |records| { assert !(records[s].red < n); }
    if c < |records| { assert records[c].red < n <==> c < s; }
  }

  lemma {:induction false} RunsLookup(column: Column, n: nat, r: nat)
    requires |column| == SIDE && r < n <= SIDE
    requires forall k :: 0 <= k < SIDE ==> CanonicalInterval(column[k])
    ensures var runs := Runs(column, n);
            CanonicalColumn(runs) && 0 < Started(runs, r + 1) <= |runs| && Lookup(runs, r) == column[r]
  {
    var runs := Runs(column, n);
    RunsShape(column, n);
    if r == n - 1 {
      LastRunIsLargest(runs);
      StartedIs(runs, n, |runs|);
    } else {
      RunsLookup(column, n - 1, r);
      RunsShape(column, n - 1);
      if runs != Runs(column, n - 1) {
        LookupKept(Runs(column, n - 1), runs, r);
      }
    }
  }

  /** A run appended further right leaves the lookups to its left alone. */
  lemma LookupKept(before: seq<Record>, runs: seq<Record>, r: nat)
    requires CanonicalColumn(before) && CanonicalColumn(runs)
    requires |runs| == |before| + 1 && runs[..|before|] == before && r < runs[|before|].red
    requires 0 < Started(before, r + 1) <= |before|
    ensures Started(runs, r + 1) == Started(before, r + 1) && Lookup(runs, r) == Lookup(before, r)
  {
    var c := Started(before, r + 1);
    StartedCuts(before, r + 1);
    forall k | 0 <= k < c ensures runs[k].red < r + 1 { assert runs[k] == before[k]; }
    if c < |before| { assert runs[c] == before[c]; }
    StartedIs(runs, r + 1, c);
    assert runs[c-1] == before[c-1];
  }

  lemma LastRunIsLargest(records: seq<Record>)
    requires CanonicalColumn(records)
    ensures forall k :: 0 <= k < |records| ==> records[k].red <= records[|records|-1].red
  {
    forall k | 0 <= k < |records| ensures records[k].red <= records[|records|-1].red {
      if k < |records| - 1 { RedsIncrease(records, k, |records| - 1); }
    }
  }

  /** Expanding and collecting runs are inverse to each other on canonical columns. */
  lemma RunsRoundTrip(records: seq<Record>)
    requires CanonicalColumn(records)
    ensures Runs(Expand(records), SIDE) == records
  {
    RunsOfExpansion(records, SIDE);
    StartedIs(records, SIDE, |records|);
  }

  lemma ExpandRoundTrip(column: Column)
    requires |column| == SIDE && forall r :: 0 <= r < SIDE ==> CanonicalInterval(column[r])
    ensures CanonicalColumn(Runs(column, SIDE)) && Expand(Runs(column, SIDE)) == column
  {
    RunsShape(column, SIDE);
    forall r | 0 <= r < SIDE ensures Expand(Runs(column, SIDE))[r] == column[r] {
      RunsLookup(column, SIDE, r);
    }
  }

  /// ------------------------------------------------------------ bytes

  /** Where a column's records begin in the body. */
  function OffsetOf(columns: seq<seq<Record>>, g: nat): nat
    requires g <= |columns|
  {
    |Flatten(columns[..g])|
  }

  lemma {:induction false} FlattenGrows(columns: seq<seq<Record>>, g: nat)
    requires g <= |columns|
    ensures Flatten(columns[..g]) <= Flatten(columns)
    ensures OffsetOf(columns, g) <= |Flatten(columns)|
    decreases |columns|
  {
    if g == |columns| {
      assert columns[..g] == columns;
    } else {
      FlattenGrows(columns[..|columns|-1], g);
      assert columns[..|columns|-1][..g] == columns[..g];
    }
  }

  lemma FlattenStep(columns: seq<seq<Record>>, g: nat)
    requires g < |columns|
    ensures Flatten(columns[..g+1]) == Flatten(columns[..g]) + columns[g]
  {
    assert columns[..g+1][..g] == columns[..g];
  }

  predicate Encodable(columns: seq<seq<Record>>) {
    && |columns| == SIDE
    && (forall g :: 0 <= g < SIDE ==> CanonicalColumn(columns[g]))
    && |Flatten(columns)| < 65536
  }

  function IndexByte(offset: nat, low: bool): Byte
    requires offset < 65536
  {
    if low then offset % 256 else offset / 256
  }

  function RecordByte(record: Record, field: nat): Byte {
    if field == 0 then record.red else if field == 1 then record.run.lo else record.run.hi
  }

  /** Header, big-endian record offsets of the columns, then all records in column order. */
  function EncodeColumns(columns: seq<seq<Record>>): (codec: seq<Byte>)
    requires Encodable(columns)
    ensures |codec| == BODY_OFFSET + 3 * |Flatten(columns)|
  {
    HEADER
    + seq(2 * INDEX_ENTRIES, i requires 0 <= i < 2 * INDEX_ENTRIES =>
        FlattenGrows(columns, i / 2); IndexByte(OffsetOf(columns, i / 2), i % 2 == 1))
    + seq(3 * |Flatten(columns)|, j requires 0 <= j < 3 * |Flatten(columns)| =>
        RecordByte(Flatten(columns)[j / 3], j % 3))
  }

  function Offset(codec: seq<Byte>, i: nat): nat
    requires i < INDEX_ENTRIES && BODY_OFFSET <= |codec|
  {
    var high: nat := codec[8 + 2 * i];
    high * 256 + codec[9 + 2 * i]
  }

  function RecordAt(codec: seq<Byte>, k: nat): Record
    requires BODY_OFFSET + 3 * k + 3 <= |codec|
  {
    Record(codec[BODY_OFFSET + 3 * k], Interval(codec[BODY_OFFSET + 3 * k + 1], codec[BODY_OFFSET + 3 * k + 2]))
  }

  predicate OffsetsOk(codec: seq<Byte>, records: nat)
    requires |codec| == BODY_OFFSET + 3 * records
  {
    && Offset(codec, 0) == 0 && Offset(codec, SIDE) == records
    && forall g :: 0 <= g < SIDE ==> Offset(codec, g) < Offset(codec, g + 1)
  }

  lemma {:induction false} OffsetsIncrease(codec: seq<Byte>, records: nat, i: nat, k: nat)
    requires |codec| == BODY_OFFSET + 3 * records && OffsetsOk(codec, records) && i <= k <= SIDE
    ensures Offset(codec, i) <= Offset(codec, k)
    decreases k - i
  {
    if i < k { OffsetsIncrease(codec, records, i, k - 1); }
  }

  function AllRecords(codec: seq<Byte>, records: nat): (all: seq<Record>)
    requires |codec| == BODY_OFFSET + 3 * records
    ensures |all| == records
  {
    seq(records, k requires 0 <= k < records => RecordAt(codec, k))
  }

  function ColumnAt(codec: seq<Byte>, records: nat, g: nat): (column: seq<Record>)
    requires |codec| == BODY_OFFSET + 3 * records && OffsetsOk(codec, records) && g < SIDE
    ensures |column| == Offset(codec, g + 1) - Offset(codec, g)
  {
    OffsetsIncrease(codec, records, g + 1, SIDE);
    AllRecords(codec, records)[Offset(codec, g)..Offset(codec, g + 1)]
  }

  function Columns(codec: seq<Byte>, records: nat): (columns: seq<seq<Record>>)
    requires |codec| == BODY_OFFSET + 3 * records && OffsetsOk(codec, records)
    ensures |columns| == SIDE
  {
    seq(SIDE, g requires 0 <= g < SIDE => ColumnAt(codec, records, g))
  }

  /** The structural checks of the decoder, in one place. */
  predicate Accepted(codec: seq<Byte>, records: nat) {
    && |codec| == BODY_OFFSET + 3 * records
    && codec[..8] == HEADER
    && OffsetsOk(codec, records)
    && forall g :: 0 <= g < SIDE ==> CanonicalColumn(ColumnAt(codec, records, g))
  }

  lemma {:induction false} FlattenColumns(codec: seq<Byte>, records: nat, g: nat)
    requires |codec| == BODY_OFFSET + 3 * records && OffsetsOk(codec, records) && g <= SIDE
    ensures Offset(codec, g) <= records
    ensures Flatten(Columns(codec, records)[..g]) == AllRecords(codec, records)[..Offset(codec, g)]
  {
    OffsetsIncrease(codec, records, g, SIDE);
    if g > 0 {
      FlattenColumns(codec, records, g - 1);
      FlattenStep(Columns(codec, records), g - 1);
      var all, a, b := AllRecords(codec, records), Offset(codec, g - 1), Offset(codec, g);
      assert all[..b] == all[..a] + all[a..b];
    }
  }

  lemma AcceptedColumns(codec: seq<Byte>, records: nat)
    requires Accepted(codec, records)
    ensures Encodable(Columns(codec, records))
    ensures Flatten(Columns(codec, records)) == AllRecords(codec, records)
    ensures forall g :: 0 <= g <= SIDE ==> OffsetOf(Columns(codec, records), g) == Offset(codec, g)
  {
    var columns := Columns(codec, records);
    FlattenColumns(codec, records, SIDE);
    assert columns[..SIDE] == columns;
    forall g | 0 <= g <= SIDE ensures OffsetOf(columns, g) == Offset(codec, g) {
      FlattenColumns(codec, records, g);
    }
  }

  lemma EncodedHeader(columns: seq<seq<Record>>)
    requires Encodable(columns)
    ensures EncodeColumns(columns)[..8] == HEADER
  {
  }

  lemma EncodedIndexPair(columns: seq<seq<Record>>, k: nat)
    requires Encodable(columns) && k < INDEX_ENTRIES
    ensures OffsetOf(columns, k) < 65536
    ensures EncodeColumns(columns)[8 + 2 * k] == IndexByte(OffsetOf(columns, k), false)
    ensures EncodeColumns(columns)[9 + 2 * k] == IndexByte(OffsetOf(columns, k), true)
  {
    FlattenGrows(columns, k);
    assert (2 * k) / 2 == k && (2 * k) % 2 == 0 && (2 * k + 1) / 2 == k && (2 * k + 1) % 2 == 1;
  }

  lemma EncodedTriple(columns: seq<seq<Record>>, k: nat)
    requires Encodable(columns) && k < |Flatten(columns)|
    ensures EncodeColumns(columns)[BODY_OFFSET + 3 * k] == Flatten(columns)[k].red
    ensures EncodeColumns(columns)[BODY_OFFSET + 3 * k + 1] == Flatten(columns)[k].run.lo
    ensures EncodeColumns(columns)[BODY_OFFSET + 3 * k + 2] == Flatten(columns)[k].run.hi
  {
    assert (3 * k) / 3 == k && (3 * k) % 3 == 0;
    assert (3 * k + 1) / 3 == k && (3 * k + 1) % 3 == 1;
    assert (3 * k + 2) / 3 == k && (3 * k + 2) % 3 == 2;
  }

  /** The bytes of an encoding in their places: "LPCC" and the version, the number of records before
      each column in two bytes, high first, and three bytes for each record. */
  lemma EncodingLayout(columns: seq<seq<Record>>, g: nat, k: nat)
    requires Encodable(columns) && g <= 256 && k < |Flatten(columns)|
    ensures var codec, record := EncodeColumns(columns), Flatten(columns)[k];
            && codec[..8] == ['L' as nat, 'P' as nat, 'C' as nat, 'C' as nat, 1, 1, 0, 0]
            && codec[8 + 2 * g] as int * 256 + codec[9 + 2 * g] as int == |Flatten(columns[..g])|
            && codec[522 + 3 * k..522 + 3 * k + 3] == [record.red, record.run.lo, record.run.hi]
  {
    EncodedHeader(columns);
    EncodedIndexPair(columns, g);
    EncodedTriple(columns, k);
  }

  predicate SamePair(a: seq<Byte>, b: seq<Byte>, k: nat) {
    |a| == |b| && 9 + 2 * k < |a| && a[8 + 2 * k] == b[8 + 2 * k] && a[9 + 2 * k] == b[9 + 2 * k]
  }

  predicate SameTriple(a: seq<Byte>, b: seq<Byte>, k: nat) {
    var j := BODY_OFFSET + 3 * k;
    |a| == |b| && j + 2 < |a| && a[j] == b[j] && a[j+1] == b[j+1] && a[j+2] == b[j+2]
  }

  lemma SameBytes(a: seq<Byte>, b: seq<Byte>, records: nat)
    requires |a| == |b| == BODY_OFFSET + 3 * records && a[..8] == b[..8]
    requires forall k :: 0 <= k < INDEX_ENTRIES ==> SamePair(a, b, k)
    requires forall k :: 0 <= k < records ==> SameTriple(a, b, k)
    ensures a == b
  {
    forall i | 0 <= i < |a| ensures a[i] == b[i] {
      if i < 8 {
        assert a[i] == a[..8][i] && b[i] == b[..8][i];
      } else if i < BODY_OFFSET {
        assert SamePair(a, b, (i - 8) / 2);
      } else {
        assert SameTriple(a, b, (i - BODY_OFFSET) / 3);
      }
    }
  }

  /** The encoder reads back what the decoder read. */
  ghost predicate SameColumns(codec: seq<Byte>, records: nat, columns: seq<seq<Record>>) {
    && |codec| == BODY_OFFSET + 3 * records && Encodable(columns)
    && Flatten(columns) == AllRecords(codec, records)
    && forall g :: 0 <= g <= SIDE ==> OffsetOf(columns, g) == Offset(codec, g)
  }

  lemma AcceptedIndexPair(codec: seq<Byte>, records: nat, columns: seq<seq<Record>>, k: nat)
    requires SameColumns(codec, records, columns) && k < INDEX_ENTRIES
    ensures SamePair(EncodeColumns(columns), codec, k)
  {
    EncodedIndexPair(columns, k);
    OffsetSplits(codec[8 + 2 * k], codec[9 + 2 * k]);
    assert OffsetOf(columns, k) == Offset(codec, k);
  }

  lemma AcceptedTriple(codec: seq<Byte>, records: nat, columns: seq<seq<Record>>, k: nat)
    requires SameColumns(codec, records, columns) && k < records
    ensures SameTriple(EncodeColumns(columns), codec, k)
  {
    EncodedTriple(columns, k);
    assert Flatten(columns)[k] == RecordAt(codec, k);
  }

  /** An accepted codec is the encoding of its own columns, byte for byte. */
  lemma AcceptedIsEncoding(codec: seq<Byte>, records: nat)
    requires Accepted(codec, records)
    ensures Encodable(Columns(codec, records)) && EncodeColumns(Columns(codec, records)) == codec
  {
    AcceptedColumns(codec, records);
    var columns := Columns(codec, records);
    var encoded := EncodeColumns(columns);
    EncodedHeader(columns);
    forall k | 0 <= k < INDEX_ENTRIES ensures SamePair(encoded, codec, k) {
      AcceptedIndexPair(codec, records, columns, k);
    }
    forall k | 0 <= k < records ensures SameTriple(encoded, codec, k) {
      AcceptedTriple(codec, records, columns, k);
    }
    SameBytes(encoded, codec, records);
  }

  lemma OffsetSplits(high: Byte, low: Byte)
    ensures var offset: nat := (high as int) * 256 + low;
            IndexByte(offset, false) == high && IndexByte(offset, true) == low
  {
  }

  lemma EncodedOffsetsOk(columns: seq<seq<Record>>)
    requires Encodable(columns)
    ensures OffsetsOk(EncodeColumns(columns), |Flatten(columns)|)
    ensures forall i :: 0 <= i <= SIDE ==> Offset(EncodeColumns(columns), i) == OffsetOf(columns, i)
  {
    var codec := EncodeColumns(columns);
    forall i | 0 <= i <= SIDE ensures Offset(codec, i) == OffsetOf(columns, i) {
      EncodedOffset(columns, i);
    }
    assert columns[..SIDE] == columns && columns[..0] == [];
    forall g | 0 <= g < SIDE ensures Offset(codec, g) < Offset(codec, g + 1) {
      FlattenStep(columns, g);
      assert CanonicalColumn(columns[g]);
    }
  }

  lemma EncodedColumnAt(columns: seq<seq<Record>>, g: nat)
    requires Encodable(columns) && g < SIDE && OffsetsOk(EncodeColumns(columns), |Flatten(columns)|)
    ensures ColumnAt(EncodeColumns(columns), |Flatten(columns)|, g) == columns[g]
  {
    EncodedOffset(columns, g);
    EncodedOffset(columns, g + 1);
    EncodedRecords(columns);
    FlattenSlice(columns, g);
  }

  lemma FlattenSlice(columns: seq<seq<Record>>, g: nat)
    requires g < |columns|
    ensures OffsetOf(columns, g) <= OffsetOf(columns, g + 1) <= |Flatten(columns)|
    ensures Flatten(columns)[OffsetOf(columns, g)..OffsetOf(columns, g + 1)] == columns[g]
  {
    FlattenStep(columns, g);
    FlattenGrows(columns, g + 1);
    var before, upTo := Flatten(columns[..g]), Flatten(columns[..g+1]);
    assert Flatten(columns)[..|upTo|] == upTo;
    assert upTo[|before|..] == columns[g];
  }

  /** Encoding canonical columns gives an accepted codec that decodes to the same columns. */
  lemma EncodingIsAccepted(columns: seq<seq<Record>>)
    requires Encodable(columns)
    ensures var codec, records := EncodeColumns(columns), |Flatten(columns)|;
            Accepted(codec, records) && Columns(codec, records) == columns
  {
    EncodedHeader(columns);
    EncodedOffsetsOk(columns);
    forall g | 0 <= g < SIDE ensures ColumnAt(EncodeColumns(columns), |Flatten(columns)|, g) == columns[g] {
      EncodedColumnAt(columns, g);
    }
    ColumnsAccepted(EncodeColumns(columns), |Flatten(columns)|, columns);
  }

  lemma ColumnsAccepted(codec: seq<Byte>, records: nat, columns: seq<seq<Record>>)
    requires |codec| == BODY_OFFSET + 3 * records && codec[..8] == HEADER && OffsetsOk(codec, records)
    requires |columns| == SIDE && forall g :: 0 <= g < SIDE ==> CanonicalColumn(columns[g])
    requires forall g :: 0 <= g < SIDE ==> ColumnAt(codec, records, g) == columns[g]
    ensures Accepted(codec, records) && Columns(codec, records) == columns
  {
  }

  lemma EncodedOffset(columns: seq<seq<Record>>, i: nat)
    requires Encodable(columns) && i <= SIDE
    ensures Offset(EncodeColumns(columns), i) == OffsetOf(columns, i)
  {
    EncodedIndexPair(columns, i);
  }

  lemma EncodedRecords(columns: seq<seq<Record>>)
    requires Encodable(columns)
    ensures AllRecords(EncodeColumns(columns), |Flatten(columns)|) == Flatten(columns)
  {
    var codec, all := EncodeColumns(columns), Flatten(columns);
    forall k | 0 <= k < |all| ensures RecordAt(codec, k) == all[k] {
      EncodedTriple(columns, k);
    }
  }
}
