/** `DocketSpider.parse`: the walk over the rows of the docket table. A row of three cells
    starts a docket (identifier and link, filer, description); a row of two cells is either
    a further document under a new identifier or a further filing of the current docket; any
    other row only names another filer. The spider keeps the record of the last three-cell
    row and fills the fields a shorter row lacks from it. Every record is written to the
    CSV file (columns docket_id, description, date, filer, file_url) and yielded; an
    exception raised while reading a date ends the walk. */
module DocketSpider {
  import opened Wrappers
  import opened Text
  import opened Extractors

  /** The `Docket` item. */
  datatype Docket = Docket(
    docketId: Option<string>,
    description: Option<string>,
    date: Option<string>,
    filer: Option<string>,
    fileUrl: Option<string>)

  /** The `td` cells of one `tr`. */
  type Row = seq<Cell>

  /** What a crawl of one page produced: the records yielded, in order, and the exception
      that stopped it, if any. */
  datatype Outcome = Outcome(records: seq<Docket>, failure: Option<DateError>)

  // ---------------------------------------------------------------------------
  // One row

  /** The cell a row's description and date are read from: the third of a three-cell row,
      the second of a two-cell row; other rows have none. */
  function DescriptionCell(row: Row): (c: Option<Cell>)
    ensures c.Some? <==> |row| == 2 || |row| == 3
    ensures c.Some? ==> c.value == row[|row| - 1]
  {
    if |row| == 3 then Some(row[2]) else if |row| == 2 then Some(row[1]) else None
  }

  /** What the loop body reads from the cells of one row: how many cells there are, and
      what the extractors give for the cells it looks at. The extractors are pure, so
      reading them all before the branch is taken changes nothing but the order of the
      calls. */
  datatype Reading = Reading(
    width: nat,
    docketId: Option<string>,                // identifier in the first cell
    fileUrl: Option<string>,                 // link in the first cell
    filer: Option<string>,                   // filer in the second cell of a three-cell row, the first otherwise
    description: Option<string>,             // description in the description cell
    date: Result<Option<string>, DateError>) // date in the description cell

  /** The reading of one row. */
  function ReadRow(row: Row, join: (string, string) -> string): (r: Reading)
    requires row != []
    ensures r.width == |row|
    ensures DescriptionCell(row).None? ==> r.description.None? && r.date == Success(None)
  {
    var filerCell := if |row| == 3 then row[1] else row[0];
    var (description, date) :=
      match DescriptionCell(row)
      case Some(c) => (ExtractDescription(c), ExtractFilingDate(c))
      case None => (None, Success(None));
    Reading(|row|, ExtractDocketId(row[0]), ExtractLinks(row[0], join), ExtractFiler(filerCell),
            description, date)
  }

  /** A description as `extract_description` leaves it: non-empty, no surrounding
      whitespace, no run of two spaces. */
  predicate Normalized(s: string) {
    s != [] && !IsSpace(s[0]) && !IsSpace(s[|s| - 1]) && NoDoubleSpace(s)
  }

  /** What the extractors guarantee of a reading: an identifier is digits, a description is
      normalized, and there is no date without a description. */
  predicate ValidReading(r: Reading) {
    (r.docketId.None? || IsNumeric(r.docketId.value))
    && (r.description.None? || Normalized(r.description.value))
    && (r.date.Success? && r.date.value.Some? ==> r.description.Some?)
  }

  /** The same for a record. */
  predicate ValidRecord(d: Docket) {
    (d.docketId.None? || IsNumeric(d.docketId.value))
    && (d.description.None? || Normalized(d.description.value))
    && (d.date.Some? ==> d.description.Some?)
  }

  /** Every row reads validly. */
  lemma ReadRowValid(row: Row, join: (string, string) -> string)
    requires row != []
    ensures ValidReading(ReadRow(row, join))
  {
    match DescriptionCell(row)
    case Some(c) =>
      assert ExtractFilingDate(c).Success? && ExtractFilingDate(c).value.Some? ==> ExtractDescription(c).Some?;
    case None =>
  }

  /** The record one row produces, given the stored record of the last three-cell row (the
      body of the loop in `parse`). A row of other than three cells reads the stored
      record, so it must have been filled. Only the date can raise. */
  function RowRecord(r: Reading, stored: Option<Docket>): (res: Result<Docket, DateError>)
    requires r.width == 3 || stored.Some?
    ensures res.Failure? <==> (r.width == 2 || r.width == 3) && r.date.Failure?
    ensures res.Failure? ==> res.error == r.date.error
    ensures res.Success? && ValidReading(r) && (stored.None? || ValidRecord(stored.value))
      ==> ValidRecord(res.value)
  {
    if r.width == 3 then
      var date :- r.date;
      Success(Docket(r.docketId, r.description, date, r.filer, r.fileUrl))
    else if r.width == 2 then
      var date :- r.date;
      if r.docketId.Some? then
        Success(Docket(r.docketId, r.description, date, stored.value.filer, r.fileUrl))
      else
        Success(Docket(stored.value.docketId, r.description, date, r.filer, stored.value.fileUrl))
    else
      Success(stored.value.(filer := r.filer))
  }

  // ---------------------------------------------------------------------------
  // The walk

  /** The walk can start: unless the stored record is already `filled`, the first row has
      three cells (otherwise `docket_temporary_storage` is still the empty dict and a shorter row raises
      a KeyError). */
  predicate CanStart(readings: seq<Reading>, filled: bool) {
    readings != [] && !filled ==> readings[0].width == 3
  }

  /** The loop of `parse` from some row on, with the stored record as it stands there. */
  function Walk(readings: seq<Reading>, stored: Option<Docket>): (o: Outcome)
    requires CanStart(readings, stored.Some?)
    ensures |o.records| <= |readings|
    ensures o.failure.None? <==> |o.records| == |readings|
    decreases |readings|
  {
    if readings == [] then Outcome([], None)
    else
      match RowRecord(readings[0], stored)
      case Failure(e) => Outcome([], Some(e))
      case Success(d) =>
        var rest := Walk(readings[1..], if readings[0].width == 3 then Some(d) else stored);
        Outcome([d] + rest.records, rest.failure)
  }

  /** The last three-cell row before row `k`. */
  function LastFull(readings: seq<Reading>, k: nat): (r: Option<nat>)
    requires k <= |readings|
    ensures r.Some? ==> r.value < k && readings[r.value].width == 3
    ensures r.Some? ==> forall j :: r.value < j < k ==> readings[j].width != 3
    ensures r.None? ==> forall j :: 0 <= j < k ==> readings[j].width != 3
  {
    if k == 0 then None
    else if readings[k - 1].width == 3 then Some(k - 1)
    else LastFull(readings, k - 1)
  }

  /** Dropping the first row shifts the last three-cell row by one. */
  lemma {:induction false} LastFullShift(readings: seq<Reading>, k: nat)
    requires 1 <= k <= |readings|
    ensures LastFull(readings, k) ==
      match LastFull(readings[1..], k - 1)
      case Some(j) => Some(j + 1)
      case None => if readings[0].width == 3 then Some(0) else None
  {
    if k > 1 && readings[k - 1].width != 3 {
      LastFullShift(readings, k - 1);
    }
  }

  /** A three-cell row `j` with no three-cell row between it and row `k` is the last one
      before `k`. */
  lemma {:induction false} LastFullIs(readings: seq<Reading>, k: nat, j: nat)
    requires j < k <= |readings| && readings[j].width == 3
    requires forall m :: j < m < k ==> readings[m].width != 3
    ensures LastFull(readings, k) == Some(j)
  {
    if k - 1 != j {
      LastFullIs(readings, k - 1, j);
    }
  }

  /** The stored record when row `k` is reached, read off the records yielded before it:
      the record of the last three-cell row, or `initial` when there is none. */
  function StoredAt(records: seq<Docket>, readings: seq<Reading>, initial: Option<Docket>, k: nat): Option<Docket>
    requires k <= |readings| && k <= |records|
  {
    match LastFull(readings, k)
    case None => initial
    case Some(j) => Some(records[j])
  }

  /** One step of the walk: the first row's record comes first, then the walk goes on
      from the second row with the stored record updated if the first row has three
      cells; a first row that raises ends it. */
  lemma ParseStep(readings: seq<Reading>, stored: Option<Docket>)
    requires readings != [] && CanStart(readings, stored.Some?)
    ensures RowRecord(readings[0], stored).Failure? ==>
      Walk(readings, stored) == Outcome([], Some(RowRecord(readings[0], stored).error))
    ensures RowRecord(readings[0], stored).Success? ==>
      var d := RowRecord(readings[0], stored).value;
      var next := if readings[0].width == 3 then Some(d) else stored;
      CanStart(readings[1..], next.Some?)
      && Walk(readings, stored).records == [d] + Walk(readings[1..], next).records
      && Walk(readings, stored).failure == Walk(readings[1..], next).failure
  {
  }

  /** Every record the walk yields is valid when every reading is and the stored record
      it starts from is. */
  lemma {:induction false} RecordsValid(readings: seq<Reading>, stored: Option<Docket>)
    requires CanStart(readings, stored.Some?)
    requires forall k :: 0 <= k < |readings| ==> ValidReading(readings[k])
    requires stored.None? || ValidRecord(stored.value)
    ensures var recs := Walk(readings, stored).records;
      forall k :: 0 <= k < |recs| ==> ValidRecord(recs[k])
    decreases |readings|
  {
    if readings != [] && RowRecord(readings[0], stored).Success? {
      ParseStep(readings, stored);
      var d := RowRecord(readings[0], stored).value;
      var next := if readings[0].width == 3 then Some(d) else stored;
      RecordsValid(readings[1..], next);
    }
  }

  /** The stored record seen from the second row on is the one seen from the first row,
      one row later. */
  lemma StoredShift(records: seq<Docket>, readings: seq<Reading>, stored: Option<Docket>, k: nat)
    requires 1 <= k <= |readings| && k <= |records|
    ensures StoredAt(records, readings, stored, k)
         == StoredAt(records[1..], readings[1..], if readings[0].width == 3 then Some(records[0]) else stored, k - 1)
  {
    LastFullShift(readings, k);
  }

  /** The first record is the first row's record, read against the initial stored
      record. */
  lemma RecordHead(readings: seq<Reading>, stored: Option<Docket>)
    requires CanStart(readings, stored.Some?)
    requires 0 < |Walk(readings, stored).records|
    ensures var recs := Walk(readings, stored).records;
      (readings[0].width != 3 ==> StoredAt(recs, readings, stored, 0).Some?)
      && RowRecord(readings[0], StoredAt(recs, readings, stored, 0)) == Success(recs[0])
  {
  }

  /** After a first row that yields a record, the walk goes on from the second row with
      the stored record updated if the first row has three cells. */
  lemma ParseTail(readings: seq<Reading>, stored: Option<Docket>)
    requires CanStart(readings, stored.Some?)
    requires 0 < |Walk(readings, stored).records|
    ensures var o := Walk(readings, stored);
      var next := if readings[0].width == 3 then Some(o.records[0]) else stored;
      CanStart(readings[1..], next.Some?)
      && o.records[1..] == Walk(readings[1..], next).records
      && o.failure == Walk(readings[1..], next).failure
  {
    ParseStep(readings, stored);
  }

  /** The reading of row `k` seen from the second row on is the one seen from the first
      row: same row, same stored record, same record. */
  lemma RecordShift(readings: seq<Reading>, stored: Option<Docket>, recs: seq<Docket>, k: nat)
    requires 1 <= k < |readings| && k < |recs|
    requires var next := if readings[0].width == 3 then Some(recs[0]) else stored;
      var st := StoredAt(recs[1..], readings[1..], next, k - 1);
      (readings[1..][k - 1].width != 3 ==> st.Some?)
      && RowRecord(readings[1..][k - 1], st) == Success(recs[1..][k - 1])
    ensures (readings[k].width != 3 ==> StoredAt(recs, readings, stored, k).Some?)
      && RowRecord(readings[k], StoredAt(recs, readings, stored, k)) == Success(recs[k])
  {
    StoredShift(recs, readings, stored, k);
    assert readings[1..][k - 1] == readings[k] && recs[1..][k - 1] == recs[k];
  }

  /** Record `k` is the record of row `k`, read against the record yielded at the last
      three-cell row before it. */
  lemma {:induction false} RecordFrom(readings: seq<Reading>, stored: Option<Docket>, k: nat)
    requires CanStart(readings, stored.Some?)
    requires k < |Walk(readings, stored).records|
    ensures var recs := Walk(readings, stored).records;
      (readings[k].width != 3 ==> StoredAt(recs, readings, stored, k).Some?)
      && RowRecord(readings[k], StoredAt(recs, readings, stored, k)) == Success(recs[k])
    decreases k
  {
    if k == 0 {
      RecordHead(readings, stored);
    } else {
      ParseTail(readings, stored);
      var recs := Walk(readings, stored).records;
      var next := if readings[0].width == 3 then Some(recs[0]) else stored;
      RecordFrom(readings[1..], next, k - 1);
      RecordShift(readings, stored, recs, k);
    }
  }

  /** The walk stops at the first row that raises, with that row's error. */
  lemma {:induction false} FailureFrom(readings: seq<Reading>, stored: Option<Docket>)
    requires CanStart(readings, stored.Some?)
    requires Walk(readings, stored).failure.Some?
    ensures var o := Walk(readings, stored); var k := |o.records|;
      k < |readings| && (readings[k].width != 3 ==> StoredAt(o.records, readings, stored, k).Some?)
      && RowRecord(readings[k], StoredAt(o.records, readings, stored, k)) == Failure(o.failure.value)
    decreases |readings|
  {
    ParseStep(readings, stored);
    var o := Walk(readings, stored);
    if RowRecord(readings[0], stored).Success? {
      var next := if readings[0].width == 3 then Some(o.records[0]) else stored;
      FailureFrom(readings[1..], next);
      var k := |o.records|;
      StoredShift(o.records, readings, stored, k);
      assert readings[1..][k - 1] == readings[k];
    }
  }

  /** After row `i` the stored record is its record if it has three cells, and unchanged
      otherwise. */
  lemma StoredNext(records: seq<Docket>, readings: seq<Reading>, initial: Option<Docket>, i: nat)
    requires i < |readings| && i < |records|
    ensures StoredAt(records, readings, initial, i + 1)
         == if readings[i].width == 3 then Some(records[i]) else StoredAt(records, readings, initial, i)
  {
  }

  // ---------------------------------------------------------------------------
  // A page

  /** The rows can be read without a KeyError or IndexError: every row has a cell, and the
      first row has three cells, so that the stored record is filled before a shorter row
      reads it. */
  predicate Readable(rows: seq<Row>) {
    (forall k :: 0 <= k < |rows| ==> rows[k] != []) && (rows != [] ==> |rows[0]| == 3)
  }

  /** The readings of the rows of a page, in order. */
  function Readings(rows: seq<Row>, join: (string, string) -> string): (rs: seq<Reading>)
    requires Readable(rows)
    ensures |rs| == |rows| && CanStart(rs, false)
  {
    seq(|rows|, k requires 0 <= k < |rows| => ReadRow(rows[k], join))
  }

  /** The whole page: the walk from the first row, with nothing stored yet. */
  function ParsePage(rows: seq<Row>, join: (string, string) -> string): (o: Outcome)
    requires Readable(rows)
    ensures |o.records| <= |rows| && (o.failure.None? <==> |o.records| == |rows|)
  {
    Walk(Readings(rows, join), None)
  }

  /** The records of a page are as many as its rows unless a date raised, and every one of
      them is valid. */
  lemma PageRecords(rows: seq<Row>, join: (string, string) -> string)
    requires Readable(rows)
    ensures var o := ParsePage(rows, join);
      |o.records| <= |rows| && (o.failure.None? <==> |o.records| == |rows|)
      && forall k :: 0 <= k < |o.records| ==> ValidRecord(o.records[k])
  {
    var readings := Readings(rows, join);
    forall k | 0 <= k < |readings|
      ensures ValidReading(readings[k])
    {
      assert readings[k] == ReadRow(rows[k], join);
      ReadRowValid(rows[k], join);
    }
    RecordsValid(readings, None);
    assert ParsePage(rows, join) == Walk(readings, None);
  }

  /** The records of a whole page, each read at its own row against the record yielded at
      the last three-cell row before it. */
  lemma RecordAt(rows: seq<Row>, join: (string, string) -> string, k: nat)
    requires Readable(rows)
    requires k < |ParsePage(rows, join).records|
    ensures var recs := ParsePage(rows, join).records;
      var st := StoredAt(recs, Readings(rows, join), None, k);
      (|rows[k]| != 3 ==> st.Some?) && RowRecord(ReadRow(rows[k], join), st) == Success(recs[k])
  {
    RecordFrom(Readings(rows, join), None, k);
  }

  /** The last three-cell row before row `k`, stated on the rows. */
  lemma LastThreeCellRow(rows: seq<Row>, join: (string, string) -> string, k: nat, j: nat)
    requires Readable(rows)
    requires j < k <= |rows| && |rows[j]| == 3 && forall m :: j < m < k ==> |rows[m]| != 3
    ensures LastFull(Readings(rows, join), k) == Some(j)
  {
    var readings := Readings(rows, join);
    forall m | j < m < k
      ensures readings[m].width != 3
    {
      assert readings[m] == ReadRow(rows[m], join);
    }
    assert readings[j] == ReadRow(rows[j], join);
    LastFullIs(readings, k, j);
  }

  /** A page stops early exactly at the first row whose date raises, and with that error. */
  lemma FailureAt(rows: seq<Row>, join: (string, string) -> string)
    requires Readable(rows)
    ensures var o := ParsePage(rows, join);
      o.failure.Some? ==>
        var k := |o.records|;
        k < |rows| && DescriptionCell(rows[k]).Some?
        && ExtractFilingDate(DescriptionCell(rows[k]).value) == Failure(o.failure.value)
  {
    var readings := Readings(rows, join);
    if Walk(readings, None).failure.Some? {
      FailureFrom(readings, None);
      var k := |Walk(readings, None).records|;
      assert readings[k] == ReadRow(rows[k], join);
    }
  }

  /** A three-cell row reads the identifier and link from its first cell, the filer from
      its second and the description and date from its third. */
  lemma ThreeCellRow(rows: seq<Row>, join: (string, string) -> string, k: nat)
    requires Readable(rows)
    requires k < |ParsePage(rows, join).records| && |rows[k]| == 3
    ensures var d := ParsePage(rows, join).records[k];
      d.docketId == ExtractDocketId(rows[k][0])
      && d.fileUrl == ExtractLinks(rows[k][0], join)
      && d.filer == ExtractFiler(rows[k][1])
      && d.description == ExtractDescription(rows[k][2])
      && ExtractFilingDate(rows[k][2]) == Success(d.date)
  {
    RecordAt(rows, join, k);
  }

  /** A two-cell row with an identifier is a new document: identifier, link, description
      and date are its own, and only the filer comes from the last three-cell row `j`. */
  lemma TwoCellNewDocument(rows: seq<Row>, join: (string, string) -> string, k: nat, j: nat)
    requires Readable(rows)
    requires k < |ParsePage(rows, join).records| && |rows[k]| == 2
    requires ExtractDocketId(rows[k][0]).Some?
    requires j < k && |rows[j]| == 3 && forall m :: j < m < k ==> |rows[m]| != 3
    ensures var recs := ParsePage(rows, join).records;
      recs[k].docketId == ExtractDocketId(rows[k][0])
      && recs[k].fileUrl == ExtractLinks(rows[k][0], join)
      && recs[k].description == ExtractDescription(rows[k][1])
      && ExtractFilingDate(rows[k][1]) == Success(recs[k].date)
      && recs[k].filer == recs[j].filer
  {
    LastThreeCellRow(rows, join, k, j);
    RecordAt(rows, join, k);
  }

  /** A two-cell row without an identifier is a further filing of the docket of the last
      three-cell row `j`: identifier and link come from there, the filer, description and
      date from the row. */
  lemma TwoCellContinuation(rows: seq<Row>, join: (string, string) -> string, k: nat, j: nat)
    requires Readable(rows)
    requires k < |ParsePage(rows, join).records| && |rows[k]| == 2
    requires ExtractDocketId(rows[k][0]).None?
    requires j < k && |rows[j]| == 3 && forall m :: j < m < k ==> |rows[m]| != 3
    ensures var recs := ParsePage(rows, join).records;
      recs[k].docketId == recs[j].docketId
      && recs[k].fileUrl == recs[j].fileUrl
      && recs[k].filer == ExtractFiler(rows[k][0])
      && recs[k].description == ExtractDescription(rows[k][1])
      && ExtractFilingDate(rows[k][1]) == Success(recs[k].date)
  {
    LastThreeCellRow(rows, join, k, j);
    RecordAt(rows, join, k);
  }

  /** Any other row repeats the record of the last three-cell row `j` with the filer read
      from its first cell. */
  lemma OtherRow(rows: seq<Row>, join: (string, string) -> string, k: nat, j: nat)
    requires Readable(rows)
    requires k < |ParsePage(rows, join).records| && |rows[k]| != 2 && |rows[k]| != 3
    requires j < k && |rows[j]| == 3 && forall m :: j < m < k ==> |rows[m]| != 3
    ensures var recs := ParsePage(rows, join).records;
      recs[k] == recs[j].(filer := ExtractFiler(rows[k][0]))
  {
    LastThreeCellRow(rows, join, k, j);
    RecordAt(rows, join, k);
  }

  /** A three-cell row, a two-cell row and a one-cell row can be read. */
  lemma ThreeRowsReadable(rows: seq<Row>)
    requires |rows| == 3 && |rows[0]| == 3 && |rows[1]| == 2 && |rows[2]| == 1
    ensures Readable(rows) && forall m :: 0 < m < 2 ==> |rows[m]| != 3
  {
  }

  /** A filer-only row after a two-cell row with its own identifier takes the identifier,
      description, date and link of the three-cell row before both, not those of the
      two-cell row just above it. */
  lemma FilerRowSkipsTwoCellRow(rows: seq<Row>, join: (string, string) -> string)
    requires |rows| == 3 && |rows[0]| == 3 && |rows[1]| == 2 && |rows[2]| == 1
    requires ExtractDocketId(rows[1][0]).Some?
    requires |ParsePage(rows, join).records| == 3
    ensures var recs := ParsePage(rows, join).records;
      recs[2] == recs[0].(filer := ExtractFiler(rows[2][0]))
  {
    ThreeRowsReadable(rows);
    OtherRow(rows, join, 2, 0);
  }

  // ---------------------------------------------------------------------------
  // The loop as the spider runs it

  /** Row `i` of a page, read against the record stored when it is reached, either yields
      record `i` or raises the error that ends the page. */
  lemma PageStep(rows: seq<Row>, join: (string, string) -> string, i: nat)
    requires Readable(rows) && i < |rows| && i <= |ParsePage(rows, join).records|
    ensures var o := ParsePage(rows, join); var readings := Readings(rows, join);
      var st := StoredAt(o.records, readings, None, i);
      readings[i] == ReadRow(rows[i], join) && (|rows[i]| != 3 ==> st.Some?)
      && (RowRecord(readings[i], st).Success? ==>
            i < |o.records| && o.records[i] == RowRecord(readings[i], st).value)
      && (RowRecord(readings[i], st).Failure? ==>
            i == |o.records| && o.failure == Some(RowRecord(readings[i], st).error))
  {
    var readings := Readings(rows, join);
    if i < |Walk(readings, None).records| {
      RecordFrom(readings, None, i);
    } else {
      FailureFrom(readings, None);
    }
  }

  /** A prefix followed by the next element is the longer prefix. */
  lemma PrefixGrows<T>(s: seq<T>, i: nat)
    requires i < |s|
    ensures s[..i] + [s[i]] == s[..i + 1]
  {
  }

  /** The body of the loop of `parse` for one row: the branches on the number of cells,
      reading the stored record where the row lacks a field. Only the date can raise. */
  method ReadRecord(col: Row, stored: Option<Docket>, join: (string, string) -> string)
    returns (res: Result<Docket, DateError>)
    requires col != [] && (|col| != 3 ==> stored.Some?)
    ensures res == RowRecord(ReadRow(col, join), stored)
  {
    if |col| == 3 {
      var date := ExtractFilingDate(col[2]);
      if date.Failure? {
        return Failure(date.error);
      }
      res := Success(Docket(ExtractDocketId(col[0]), ExtractDescription(col[2]), date.value,
                            ExtractFiler(col[1]), ExtractLinks(col[0], join)));
    } else if |col| == 2 {
      var id := ExtractDocketId(col[0]);
      var date := ExtractFilingDate(col[1]);
      if date.Failure? {
        return Failure(date.error);
      }
      if id.Some? {
        res := Success(Docket(id, ExtractDescription(col[1]), date.value, stored.value.filer,
                              ExtractLinks(col[0], join)));
      } else {
        res := Success(Docket(stored.value.docketId, ExtractDescription(col[1]), date.value,
                              ExtractFiler(col[0]), stored.value.fileUrl));
      }
    } else {
      res := Success(stored.value.(filer := ExtractFiler(col[0])));
    }
  }

  /** What the loop of `parse` knows after `i` rows: it has yielded the first `i` records of
      the page and holds the record of the last three-cell row among them. */
  ghost predicate Progress(rows: seq<Row>, join: (string, string) -> string, i: nat,
                           records: seq<Docket>, stored: Option<Docket>)
    requires Readable(rows)
  {
    var page := ParsePage(rows, join);
    i <= |rows| && i <= |page.records| && records == page.records[..i]
    && stored == StoredAt(page.records, Readings(rows, join), None, i)
  }

  /** Nothing has been read before the first row. */
  lemma ProgressStart(rows: seq<Row>, join: (string, string) -> string)
    requires Readable(rows)
    ensures Progress(rows, join, 0, [], None)
  {
  }

  /** The next row can be read: it has a cell, and a record is stored unless it has three. */
  lemma ProgressReady(rows: seq<Row>, join: (string, string) -> string, i: nat,
                      records: seq<Docket>, stored: Option<Docket>)
    requires Readable(rows) && i < |rows| && Progress(rows, join, i, records, stored)
    ensures rows[i] != [] && (|rows[i]| != 3 ==> stored.Some?)
  {
    PageStep(rows, join, i);
  }

  /** Reading row `i` either ends the page with its error or yields record `i`, after which
      the stored record is that record if the row has three cells. */
  lemma ProgressStep(rows: seq<Row>, join: (string, string) -> string, i: nat,
                     records: seq<Docket>, stored: Option<Docket>, res: Result<Docket, DateError>)
    requires Readable(rows) && i < |rows| && Progress(rows, join, i, records, stored)
    requires |rows[i]| != 3 ==> stored.Some?
    requires res == RowRecord(ReadRow(rows[i], join), stored)
    ensures res.Failure? ==> ParsePage(rows, join) == Outcome(records, Some(res.error))
    ensures res.Success? ==>
      Progress(rows, join, i + 1, records + [res.value],
               if |rows[i]| == 3 then Some(res.value) else stored)
  {
    var page := ParsePage(rows, join);
    var readings := Readings(rows, join);
    PageStep(rows, join, i);
    if res.Failure? {
      assert records == page.records;
    } else {
      StoredNext(page.records, readings, None, i);
      PrefixGrows(page.records, i);
    }
  }

  /** After the last row the whole page has been yielded without an error. */
  lemma ProgressEnd(rows: seq<Row>, join: (string, string) -> string,
                    records: seq<Docket>, stored: Option<Docket>)
    requires Readable(rows) && Progress(rows, join, |rows|, records, stored)
    ensures ParsePage(rows, join) == Outcome(records, None)
  {
    var page := ParsePage(rows, join);
    assert records == page.records;
  }

  /** `parse`: walks the rows, keeping the record of the last three-cell row, and yields
      (and writes) one record per row until a date raises. */
  method Parse(rows: seq<Row>, join: (string, string) -> string) returns (records: seq<Docket>, failure: Option<DateError>)
    requires Readable(rows)
    ensures Outcome(records, failure) == ParsePage(rows, join)
  {
    records := [];
    failure := None;
    var stored: Option<Docket> := None;
    var i := 0;
    ProgressStart(rows, join);
    while i < |rows|
      invariant i <= |rows| && Progress(rows, join, i, records, stored)
      decreases |rows| - i
    {
      var col := rows[i];
      ProgressReady(rows, join, i, records, stored);
      var res := ReadRecord(col, stored, join);
      ProgressStep(rows, join, i, records, stored, res);
      if res.Failure? {
        failure := Some(res.error);
        return;
      }
      var docket := res.value;
      records := records + [docket];
      if |col| == 3 {
        stored := Some(docket);
      }
      i := i + 1;
    }
    ProgressEnd(rows, join, records, stored);
  }
}
