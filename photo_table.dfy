/**
 * The item-by-feature photo table and what one record does to it. A record either leaves
 * the table alone, overwrites one whole row, or aborts the ingestion; `Run` applies records
 * in order and stops at the first abort, keeping the rows written before it.
 */
module PhotoTable {
  import opened Wrappers
  import opened JavaText
  import opened BufferedLines

  /** Columns of the photo matrix: readData allocates `itemIds.size()` rows of 1000. */
  const FEATURE_DIM: nat := 1000

  type Row = seq<real>

  /** The raw item id to inner item id map built from the rating data. */
  type IdMap = map<string, int>

  /** Double.parseDouble: the value, or None where it throws NumberFormatException. */
  type Parser = string -> Option<real>

  /** The exceptions that end an ingestion. */
  datatype IngestError =
    | NoItemMap                           // the item map was never set
    | DirectoryUnreadable(path: string)   // the directory walk failed
    | MissingFeatureField(record: string) // a record with fewer than two fields
    | NotANumber(token: string)           // a feature value that does not parse
    | RowOutOfRange(row: int)             // an inner id outside the matrix's rows
    | WrongRowLength(length: nat)         // a feature vector that is not FEATURE_DIM long

  /** What one record does to the table, whatever the table holds. */
  datatype Effect = Skip | Overwrite(row: int, values: Row) | Abort(error: IngestError)

  /** The table after applying records, and the error that stopped them, if any. */
  datatype Applied = Applied(table: seq<Row>, error: Option<IngestError>)

  function ZeroRow(): (r: Row)
    ensures |r| == FEATURE_DIM && forall j | 0 <= j < |r| :: r[j] == 0.0
  {
    seq(FEATURE_DIM, _ => 0.0)
  }

  /** A freshly allocated dense matrix: every row zero. */
  function ZeroTable(n: nat): (t: seq<Row>)
    ensures |t| == n && forall k | 0 <= k < n :: t[k] == ZeroRow()
  {
    seq(n, _ => ZeroRow())
  }

  predicate Rectangular(t: seq<Row>)
  {
    forall k | 0 <= k < |t| :: |t[k]| == FEATURE_DIM
  }

  /**
   * Parses the comma-separated feature values left to right, failing on the first token
   * that is not a number.
   */
  function ParseAll(tokens: seq<string>, parse: Parser): (r: Result<Row, string>)
    ensures r.Success? <==> forall j | 0 <= j < |tokens| :: parse(tokens[j]).Some?
    ensures r.Success? ==> |r.value| == |tokens| && forall j | 0 <= j < |tokens| :: parse(tokens[j]) == Some(r.value[j])
    ensures r.Failure? ==> exists j | 0 <= j < |tokens| ::
      tokens[j] == r.error && parse(tokens[j]).None? && forall k | 0 <= k < j :: parse(tokens[k]).Some?
    decreases |tokens|
  {
    if tokens == [] then Success([])
    else
      var n := |tokens| - 1;
      var prior := ParseAll(tokens[..n], parse);
      assert forall j | 0 <= j < n :: tokens[..n][j] == tokens[j];
      if prior.Failure? then
        prior
      else
        match parse(tokens[n])
        case None => Failure(tokens[n])
        case Some(v) => Success(prior.value + [v])
  }

  /** The first token that does not parse is the one reported, however many tokens follow. */
  lemma FirstFailureReported(tokens: seq<string>, j: nat, parse: Parser)
    requires j < |tokens| && ParseAll(tokens[..j], parse).Success? && parse(tokens[j]).None?
    ensures ParseAll(tokens, parse) == Failure(tokens[j])
  {
    var r := ParseAll(tokens, parse);
    assert forall k | 0 <= k < j :: parse(tokens[k]).Some? by {
      assert forall k | 0 <= k < j :: tokens[..j][k] == tokens[k];
    }
    var i :| 0 <= i < |tokens| && tokens[i] == r.error && parse(tokens[i]).None? &&
      forall k | 0 <= k < i :: parse(tokens[k]).Some?;
    assert i == j;
  }

  /**
   * The whitespace-separated fields of a record, after String.trim: at least one, none
   * holding a blank, and the single empty field when the record is blank.
   */
  function Fields(record: string): (fs: seq<string>)
    ensures |fs| >= 1 && AllFree(fs, BlankRun)
    ensures Trim(record) == [] ==> fs == [""]
  {
    Split(Trim(record), BlankRun)
  }

  /**
   * A record with fewer than two fields aborts before the item is looked up; a record of an
   * unknown item is skipped; a record of a known item overwrites that item's row with its
   * parsed feature values, or aborts when a value does not parse, when the item's inner id
   * is not a row of the `|ids|`-row matrix, or when there are not FEATURE_DIM values.
   */
  function RecordEffect(record: string, ids: IdMap, parse: Parser): (e: Effect)
    ensures WellFormed(e, |ids|)
    ensures e == Abort(MissingFeatureField(record)) <==> |Fields(record)| < 2
    ensures e.Skip? <==> |Fields(record)| >= 2 && Fields(record)[0] !in ids
    ensures e.Overwrite? ==>
      && |Fields(record)| >= 2 && Fields(record)[0] in ids
      && e.row == ids[Fields(record)[0]]
      && ParseAll(Split(Fields(record)[1], Comma), parse) == Success(e.values)
    ensures |Fields(record)| >= 2 && Fields(record)[0] in ids ==>
      var p := ParseAll(Split(Fields(record)[1], Comma), parse);
      var row := ids[Fields(record)[0]];
      && (p.Failure? ==> e == Abort(NotANumber(p.error)))
      && (p.Success? && !(0 <= row < |ids|) ==> e == Abort(RowOutOfRange(row)))
      && (p.Success? && 0 <= row < |ids| && |p.value| != FEATURE_DIM ==> e == Abort(WrongRowLength(|p.value|)))
      && (p.Success? && 0 <= row < |ids| && |p.value| == FEATURE_DIM ==> e == Overwrite(row, p.value))
  {
    var data := Fields(record);
    if |data| < 2 then
      Abort(MissingFeatureField(record))
    else if data[0] !in ids then
      Skip
    else
      match ParseAll(Split(data[1], Comma), parse)
      case Failure(token) => Abort(NotANumber(token))
      case Success(values) =>
        var row := ids[data[0]];
        if !(0 <= row < |ids|) then Abort(RowOutOfRange(row))
        else if |values| != FEATURE_DIM then Abort(WrongRowLength(|values|))
        else Overwrite(row, values)
  }

  /** An overwrite names a row of an `n`-row table and carries a full row. */
  predicate WellFormed(e: Effect, n: nat)
  {
    e.Overwrite? ==> 0 <= e.row < n && |e.values| == FEATURE_DIM
  }

  /** Every record's effect fits an `n`-row table. */
  ghost predicate Fits(effect: string -> Effect, n: nat)
  {
    forall record :: WellFormed(effect(record), n)
  }

  /** The effect of each record under the item map `ids`. */
  function EffectOf(ids: IdMap, parse: Parser): (effect: string -> Effect)
    ensures Fits(effect, |ids|)
    ensures forall record :: effect(record) == RecordEffect(record, ids, parse)
  {
    record => RecordEffect(record, ids, parse)
  }

  predicate WritesRow(e: Effect, row: int)
  {
    e.Overwrite? && e.row == row
  }

  function ApplyEffect(table: seq<Row>, e: Effect): (a: Applied)
    requires WellFormed(e, |table|)
  {
    match e
    case Skip => Applied(table, None)
    case Overwrite(row, values) => Applied(table[row := values], None)
    case Abort(error) => Applied(table, Some(error))
  }

  /** Applies the effects of `records` in order to `table`, stopping at the first abort. */
  function Run(table: seq<Row>, records: seq<string>, effect: string -> Effect): (a: Applied)
    requires Fits(effect, |table|)
    ensures |a.table| == |table|
    ensures Rectangular(table) ==> Rectangular(a.table)
    decreases |records|
  {
    if records == [] then
      Applied(table, None)
    else
      var prior := Run(table, records[..|records| - 1], effect);
      if prior.error.Some? then prior
      else ApplyEffect(prior.table, effect(records[|records| - 1]))
  }

  /** The values the last record that writes `row` puts there, if any record does. */
  function LastWrite(records: seq<string>, effect: string -> Effect, row: int): Option<Row>
    decreases |records|
  {
    if records == [] then None
    else if WritesRow(effect(records[|records| - 1]), row) then
      Some(effect(records[|records| - 1]).values)
    else
      LastWrite(records[..|records| - 1], effect, row)
  }

  // ---------------------------------------------------------------------------

  lemma RunSnoc(t: seq<Row>, records: seq<string>, x: string, effect: string -> Effect)
    requires Fits(effect, |t|)
    ensures var prior := Run(t, records, effect);
      Run(t, records + [x], effect) ==
        if prior.error.Some? then prior else ApplyEffect(prior.table, effect(x))
  {
    assert (records + [x])[..|records|] == records;
  }

  /** Applying one more of `records` is one more step of `Run`. */
  lemma RunStep(t: seq<Row>, records: seq<string>, i: nat, effect: string -> Effect)
    requires Fits(effect, |t|) && i < |records|
    ensures var prior := Run(t, records[..i], effect);
      Run(t, records[..i + 1], effect) ==
        if prior.error.Some? then prior else ApplyEffect(prior.table, effect(records[i]))
  {
    assert records[..i + 1][..i] == records[..i];
  }

  /** Applying `a + b` is applying `a`, then, unless that aborted, `b`. */
  lemma {:induction false} RunAppend(t: seq<Row>, a: seq<string>, b: seq<string>, effect: string -> Effect)
    requires Fits(effect, |t|)
    ensures Run(t, a, effect).error.Some? ==> Run(t, a + b, effect) == Run(t, a, effect)
    ensures Run(t, a, effect).error.None? ==> Run(t, a + b, effect) == Run(Run(t, a, effect).table, b, effect)
    decreases |b|
  {
    if b == [] {
      assert a + b == a;
    } else {
      var b' := b[..|b| - 1];
      var x := b[|b| - 1];
      RunAppend(t, a, b', effect);
      assert a + b == (a + b') + [x];
      assert b == b' + [x];
      RunSnoc(t, a + b', x, effect);
      var pa := Run(t, a, effect);
      if pa.error.None? {
        RunSnoc(pa.table, b', x, effect);
      }
    }
  }

  /** Whether records abort does not depend on what the table holds. */
  lemma {:induction false} RunErrorIgnoresTable(t: seq<Row>, u: seq<Row>, records: seq<string>, effect: string -> Effect)
    requires |t| == |u| && Fits(effect, |t|)
    ensures Run(t, records, effect).error == Run(u, records, effect).error
    decreases |records|
  {
    if records != [] {
      RunErrorIgnoresTable(t, u, records[..|records| - 1], effect);
    }
  }

  /** After records that do not abort, each row holds its last write, or what it held. */
  lemma {:induction false} RunAt(t: seq<Row>, records: seq<string>, effect: string -> Effect, row: int)
    requires Fits(effect, |t|) && 0 <= row < |t|
    requires Run(t, records, effect).error == None
    ensures Run(t, records, effect).table[row] == LastWrite(records, effect, row).GetOr(t[row])
    decreases |records|
  {
    if records != [] {
      RunAt(t, records[..|records| - 1], effect, row);
    }
  }

  /** Applying the same records twice gives what applying them once gives. */
  lemma RunIdempotent(t: seq<Row>, records: seq<string>, effect: string -> Effect)
    requires Fits(effect, |t|)
    requires Run(t, records, effect).error == None
    ensures Run(Run(t, records, effect).table, records, effect) == Run(t, records, effect)
  {
    var once := Run(t, records, effect);
    var twice := Run(once.table, records, effect);
    RunErrorIgnoresTable(once.table, t, records, effect);
    forall row | 0 <= row < |t|
      ensures twice.table[row] == once.table[row]
    {
      RunAt(t, records, effect, row);
      RunAt(once.table, records, effect, row);
    }
  }

  /**
   * Re-applying the records `c` already applied, followed by new ones, ends where applying
   * everything once, in order, ends.
   */
  lemma RunAfterPrefix(t: seq<Row>, a: seq<string>, c: seq<string>, x: seq<string>, effect: string -> Effect)
    requires Fits(effect, |t|)
    requires Run(t, a + c, effect).error == None && c <= x
    ensures Run(Run(t, a + c, effect).table, x, effect) == Run(t, a + x, effect)
  {
    var d := x[|c|..];
    assert x == c + d;
    RunAppend(t, a, c, effect);
    RunAppend(t, a, x, effect);
    var s := Run(t, a, effect).table;
    var sc := Run(s, c, effect);
    RunIdempotent(s, c, effect);
    RunAppend(sc.table, c, d, effect);
    RunAppend(s, c, d, effect);
  }

  /** Once a record aborts, later records change nothing. */
  lemma AbortIsFinal(t: seq<Row>, a: seq<string>, b: seq<string>, effect: string -> Effect)
    requires Fits(effect, |t|) && a <= b
    requires Run(t, a, effect).error.Some?
    ensures Run(t, b, effect) == Run(t, a, effect)
  {
    assert b == a + b[|a|..];
    RunAppend(t, a, b[|a|..], effect);
  }

  /** A row no record writes keeps its value, whether or not the records abort. */
  lemma {:induction false} UntouchedRowKept(t: seq<Row>, records: seq<string>, effect: string -> Effect, row: int)
    requires Fits(effect, |t|) && 0 <= row < |t|
    requires forall k | 0 <= k < |records| :: !WritesRow(effect(records[k]), row)
    ensures Run(t, records, effect).table[row] == t[row]
    decreases |records|
  {
    if records != [] {
      UntouchedRowKept(t, records[..|records| - 1], effect, row);
      assert !WritesRow(effect(records[|records| - 1]), row);
    }
  }

  /** With duplicate ids the last record wins: a row holds the values of its last write. */
  lemma {:induction false} LastWriteWins(t: seq<Row>, records: seq<string>, effect: string -> Effect, row: int, k: nat)
    requires Fits(effect, |t|) && 0 <= row < |t|
    requires Run(t, records, effect).error == None
    requires k < |records| && WritesRow(effect(records[k]), row)
    requires forall j | k < j < |records| :: !WritesRow(effect(records[j]), row)
    ensures Run(t, records, effect).table[row] == effect(records[k]).values
    decreases |records|
  {
    RunAt(t, records, effect, row);
    var n := |records| - 1;
    if k < n {
      assert !WritesRow(effect(records[n]), row);
      assert Run(t, records[..n], effect).error == None;
      LastWriteWins(t, records[..n], effect, row, k);
      RunAt(t, records[..n], effect, row);
    }
  }

  /** A record of an unknown item changes nothing. */
  lemma UnknownItemIgnored(t: seq<Row>, a: seq<string>, record: string, ids: IdMap, parse: Parser)
    requires |t| == |ids|
    requires |Fields(record)| >= 2 && Fields(record)[0] !in ids
    ensures Run(t, a + [record], EffectOf(ids, parse)) == Run(t, a, EffectOf(ids, parse))
  {
    RunSnoc(t, a, record, EffectOf(ids, parse));
  }

  /**
   * A record of a known item, inside the matrix, whose comma-separated values all parse
   * and number FEATURE_DIM overwrites exactly that item's row with them, and no other row.
   */
  lemma KnownItemOverwritesRow(t: seq<Row>, a: seq<string>, record: string, ids: IdMap, parse: Parser, values: Row)
    requires |t| == |ids|
    requires Run(t, a, EffectOf(ids, parse)).error == None
    requires |Fields(record)| >= 2 && Fields(record)[0] in ids && 0 <= ids[Fields(record)[0]] < |ids|
    requires ParseAll(Split(Fields(record)[1], Comma), parse) == Success(values) && |values| == FEATURE_DIM
    ensures Run(t, a + [record], EffectOf(ids, parse)) ==
      Applied(Run(t, a, EffectOf(ids, parse)).table[ids[Fields(record)[0]] := values], None)
  {
    var effect := EffectOf(ids, parse);
    assert effect(record) == Overwrite(ids[Fields(record)[0]], values);
    RunSnoc(t, a, record, effect);
  }

  /**
   * A known item's record in which a value does not parse aborts with the first such value,
   * and the table keeps what the records before it wrote.
   */
  lemma UnparsableValueAborts(t: seq<Row>, a: seq<string>, record: string, ids: IdMap, parse: Parser, j: nat)
    requires |t| == |ids|
    requires Run(t, a, EffectOf(ids, parse)).error == None
    requires |Fields(record)| >= 2 && Fields(record)[0] in ids
    requires var tokens := Split(Fields(record)[1], Comma);
      j < |tokens| && ParseAll(tokens[..j], parse).Success? && parse(tokens[j]).None?
    ensures Run(t, a + [record], EffectOf(ids, parse)) ==
      Applied(Run(t, a, EffectOf(ids, parse)).table, Some(NotANumber(Split(Fields(record)[1], Comma)[j])))
  {
    var tokens := Split(Fields(record)[1], Comma);
    FirstFailureReported(tokens, j, parse);
    RunSnoc(t, a, record, EffectOf(ids, parse));
  }

  /** A line `id values` whose two parts hold no blank splits into exactly those two fields. */
  lemma RecordFields(id: string, values: string)
    requires id != [] && values != [] && Visible(id) && Visible(values)
    ensures Fields(id + " " + values) == [id, values]
  {
    LineTrimmed(id, values);
    LineSplit(id, values);
  }

  lemma LineTrimmed(id: string, values: string)
    requires id != [] && values != [] && Visible(id) && Visible(values)
    ensures Trim(id + " " + values) == id + " " + values
  {
    var line := id + " " + values;
    assert line[0] == id[0] && line[|line| - 1] == values[|values| - 1];
    TrimKeeps(line);
  }

  lemma LineSplit(id: string, values: string)
    requires id != [] && values != [] && Visible(id) && Visible(values)
    ensures Split(id + " " + values, BlankRun) == [id, values]
  {
    VisibleIsFree(id, BlankRun);
    VisibleIsFree(values, BlankRun);
    JoinPair(id, values, ' ');
    SplitJoin([id, values], ' ', BlankRun);
  }

  lemma JoinedFields(id: string, tokens: seq<string>)
    requires id != [] && Visible(id) && |tokens| >= 1
    requires forall k | 0 <= k < |tokens| :: tokens[k] != [] && Visible(tokens[k])
    ensures Fields(id + " " + Join(tokens, ',')) == [id, Join(tokens, ',')]
  {
    JoinVisible(tokens, ',');
    RecordFields(id, Join(tokens, ','));
  }

  lemma KnownFieldsOverwrite(record: string, id: string, values: string, ids: IdMap, parse: Parser)
    requires Fields(record) == [id, values] && id in ids && 0 <= ids[id] < |ids|
    requires var p := ParseAll(Split(values, Comma), parse); p.Success? && |p.value| == FEATURE_DIM
    ensures RecordEffect(record, ids, parse) == Overwrite(ids[id], ParseAll(Split(values, Comma), parse).value)
  {
  }

  /**
   * The line a writer lays out for one item, `id v1,v2,...,v1000` with every value a
   * number, overwrites that item's row with the parsed values.
   */
  lemma WellFormedLineOverwrites(id: string, tokens: seq<string>, ids: IdMap, parse: Parser)
    requires id != [] && Visible(id) && id in ids && 0 <= ids[id] < |ids|
    requires |tokens| == FEATURE_DIM
    requires forall k | 0 <= k < |tokens| :: tokens[k] != [] && Visible(tokens[k]) && Free(tokens[k], Comma)
    requires forall k | 0 <= k < |tokens| :: parse(tokens[k]).Some?
    ensures var e := RecordEffect(id + " " + Join(tokens, ','), ids, parse);
      && e.Overwrite? && e.row == ids[id] && |e.values| == FEATURE_DIM
      && forall k | 0 <= k < |tokens| :: parse(tokens[k]) == Some(e.values[k])
  {
    assert Tokens(tokens, Comma);
    SplitJoin(tokens, ',', Comma);
    JoinedFields(id, tokens);
    KnownFieldsOverwrite(id + " " + Join(tokens, ','), id, Join(tokens, ','), ids, parse);
  }

  /** A record with fewer than two fields aborts, known item or not. */
  lemma ShortRecordAborts(t: seq<Row>, a: seq<string>, record: string, ids: IdMap, parse: Parser)
    requires |t| == |ids|
    requires Run(t, a, EffectOf(ids, parse)).error == None && |Fields(record)| < 2
    ensures Run(t, a + [record], EffectOf(ids, parse)) ==
      Applied(Run(t, a, EffectOf(ids, parse)).table, Some(MissingFeatureField(record)))
  {
    RunSnoc(t, a, record, EffectOf(ids, parse));
  }

  /** Records that open with the empty record abort at once, with the table untouched. */
  lemma EmptyFirstRecordAborts(t: seq<Row>, records: seq<string>, ids: IdMap, parse: Parser)
    requires |t| == |ids|
    requires records != [] && records[0] == ""
    ensures Run(t, records, EffectOf(ids, parse)) == Applied(t, Some(MissingFeatureField("")))
  {
    var effect := EffectOf(ids, parse);
    PiecesOfFree("", BlankRun);
    assert Fields("") == [""];
    assert records == [""] + records[1..];
    assert [""] == [] + [""];
    ShortRecordAborts(t, [], "", ids, parse);
    RunAppend(t, [""], records[1..], effect);
  }

  // ---------------------------------------------------------------------------
  // Whole directories.

  /** The directory walk: a root path to the files under it, each a sequence of decoded reads. */
  type FileTree = map<string, seq<seq<string>>>

  /** The records of every file, file after file; no carry crosses from one file to the next. */
  function AllRecords(files: seq<seq<string>>): (rs: seq<string>)
    ensures AllFree(rs, NewlineRun)
    ensures |files| == 1 ==> rs == FileRecords(files[0])
    decreases |files|
  {
    if files == [] then []
    else
      var front := AllRecords(files[..|files| - 1]);
      var last := FileRecords(files[|files| - 1]);
      assert forall i | |front| <= i < |front + last| :: (front + last)[i] == last[i - |front|];
      front + last
  }

  /** One more file adds its own records after those of the files before it. */
  lemma AllRecordsStep(files: seq<seq<string>>, k: nat)
    requires k < |files|
    ensures AllRecords(files[..k + 1]) == AllRecords(files[..k]) + FileRecords(files[k])
  {
    assert files[..k + 1][..k] == files[..k];
  }

  /** The records of the first files open the records of all of them. */
  lemma {:induction false} AllRecordsPrefix(files: seq<seq<string>>, k: nat)
    requires k <= |files|
    ensures AllRecords(files[..k]) <= AllRecords(files)
    decreases |files|
  {
    if k < |files| {
      var n := |files| - 1;
      var front := AllRecords(files[..n]);
      assert AllRecords(files) == front + FileRecords(files[n]);
      assert files[..n][..k] == files[..k];
      AllRecordsPrefix(files[..n], k);
    } else {
      assert files[..k] == files;
    }
  }

  /** The outcome of ingesting the directory `path`: a zero table, then every record. */
  function Ingest(ids: IdMap, tree: FileTree, path: string, parse: Parser): (a: Applied)
    ensures |a.table| == |ids| && Rectangular(a.table)
  {
    if path !in tree then Applied(ZeroTable(|ids|), Some(DirectoryUnreadable(path)))
    else Run(ZeroTable(|ids|), AllRecords(tree[path]), EffectOf(ids, parse))
  }

  /** Only the text of each file matters, never where its reads ended. */
  lemma {:induction false} ChunkingIrrelevant(files: seq<seq<string>>, other: seq<seq<string>>)
    requires |files| == |other|
    requires forall i | 0 <= i < |files| :: Concat(files[i]) == Concat(other[i])
    ensures AllRecords(files) == AllRecords(other)
    decreases |files|
  {
    if files != [] {
      var n := |files| - 1;
      ChunkingIrrelevant(files[..n], other[..n]);
    }
  }

  /** A row whose item no record writes stays zero. */
  lemma UnwrittenRowStaysZero(ids: IdMap, tree: FileTree, path: string, parse: Parser, row: int)
    requires 0 <= row < |ids| && path in tree
    requires forall k | 0 <= k < |AllRecords(tree[path])| ::
      !WritesRow(RecordEffect(AllRecords(tree[path])[k], ids, parse), row)
    ensures Ingest(ids, tree, path, parse).table[row] == ZeroRow()
  {
    UntouchedRowKept(ZeroTable(|ids|), AllRecords(tree[path]), EffectOf(ids, parse), row);
  }

  /**
   * A directory whose first file opens with a line break and holds a record aborts at once
   * with the empty record, leaving the fresh matrix zero.
   */
  lemma LeadingBreakFileAborts(ids: IdMap, tree: FileTree, path: string, parse: Parser)
    requires path in tree && tree[path] != []
    requires var text := Concat(tree[path][0]);
      && text != [] && (text[0] == CR || text[0] == LF)
      && exists i | 0 <= i < |text| :: text[i] != CR && text[i] != LF
    ensures Ingest(ids, tree, path, parse) == Applied(ZeroTable(|ids|), Some(MissingFeatureField("")))
  {
    var files := tree[path];
    LeadingBreakFile(files[0]);
    AllRecordsPrefix(files, 1);
    assert files[..1] == [files[0]];
    EmptyFirstRecordAborts(ZeroTable(|ids|), AllRecords(files), ids, parse);
  }
}
