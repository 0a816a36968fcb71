/**
 * The photo data appender: a configuration says where the photo feature files live, the
 * item map says which row each raw item id owns, and reading the files fills a dense
 * item-by-feature matrix, one whole row per recognised record.
 */
module PhotoAppender {
  import opened Wrappers
  import opened JavaText
  import opened BufferedLines
  import opened PhotoTable

  /** The job configuration, as key to value; a missing key reads as null. */
  type Configuration = map<string, string>

  const PHOTO_PATH_KEY: string := "data.appender.photo.path"
  const DATA_DIR_KEY: string := "dfs.data.dir"

  function Get(conf: Configuration, key: string): Option<string>
  {
    if key in conf then Some(conf[key]) else None
  }

  /** A string as Java's `+` renders it: null becomes "null". */
  function JavaString(s: Option<string>): string
  {
    match s
    case None => "null"
    case Some(v) => v
  }

  /**
   * Photo features are read only with a configuration whose photo path is not blank: never
   * without a configuration or with the key unset or empty, always when the path holds a
   * visible ASCII character.
   */
  function IngestionEnabled(conf: Option<Configuration>): (r: bool)
    ensures conf.None? ==> !r
    ensures r ==> PHOTO_PATH_KEY in conf.value && conf.value[PHOTO_PATH_KEY] != []
    ensures conf.Some? && PHOTO_PATH_KEY in conf.value ==>
      var path := conf.value[PHOTO_PATH_KEY];
      && ((forall i | 0 <= i < |path| :: path[i] in {' ', '\t', LF, CR}) ==> !r)
      && ((exists i | 0 <= i < |path| :: ' ' < path[i] <= '\U{7F}') ==> r)
  {
    conf.Some? && !IsBlank(Get(conf.value, PHOTO_PATH_KEY))
  }

  /**
   * The directory read: the data directory, a slash, then the photo path, with an unset key
   * rendered as "null".
   */
  function PhotoPath(conf: Configuration): (p: string)
    ensures var dir := JavaString(Get(conf, DATA_DIR_KEY));
      && |p| > |dir| && p[..|dir|] == dir && p[|dir|] == '/'
      && p[|dir| + 1..] == JavaString(Get(conf, PHOTO_PATH_KEY))
    ensures DATA_DIR_KEY !in conf ==> p[..4] == "null"
    ensures IngestionEnabled(Some(conf)) ==> p[|p| - |conf[PHOTO_PATH_KEY]|..] == conf[PHOTO_PATH_KEY]
  {
    JavaString(Get(conf, DATA_DIR_KEY)) + "/" + JavaString(Get(conf, PHOTO_PATH_KEY))
  }

  // ---------------------------------------------------------------------------
  // Parsing and applying one record.

  /** Parses each token into a fresh array of the same length, stopping at the first failure. */
  method ParseVector(tokens: seq<string>, parse: Parser) returns (r: Result<Row, string>)
    ensures r == ParseAll(tokens, parse)
  {
    var values := new real[|tokens|];
    for j := 0 to |tokens|
      invariant ParseAll(tokens[..j], parse) == Success(values[..j])
    {
      assert tokens[..j + 1][..j] == tokens[..j];
      match parse(tokens[j])
      case None =>
        FirstFailureReported(tokens, j, parse);
        return Failure(tokens[j]);
      case Some(v) =>
        values[j] := v;
        assert values[..j + 1] == values[..j] + [v];
    }
    assert tokens[..|tokens|] == tokens;
    assert values[..] == values[..|tokens|];
    return Success(values[..]);
  }

  /**
   * Handles one complete record: splits it into fields, skips an unknown item, and otherwise
   * overwrites the item's row with the parsed values.
   */
  method ApplyRecord(matrix: array<Row>, line: string, ids: IdMap, parse: Parser)
    returns (failure: Option<IngestError>)
    requires matrix.Length == |ids|
    modifies matrix
    ensures Applied(matrix[..], failure) == ApplyEffect(old(matrix[..]), RecordEffect(line, ids, parse))
  {
    ghost var e := RecordEffect(line, ids, parse);
    var data := Split(Trim(line), BlankRun);
    if |data| < 2 {
      assert e == Abort(MissingFeatureField(line));
      return Some(MissingFeatureField(line));
    }
    var item := data[0];
    var vectors := data[1];
    if item in ids {
      var row := ids[item];
      var tmp := Split(vectors, Comma);
      var parsed := ParseVector(tmp, parse);
      if parsed.Failure? {
        assert e == Abort(NotANumber(parsed.error));
        return Some(NotANumber(parsed.error));
      }
      if !(0 <= row < matrix.Length) {
        assert e == Abort(RowOutOfRange(row));
        return Some(RowOutOfRange(row));
      }
      if |parsed.value| != FEATURE_DIM {
        assert e == Abort(WrongRowLength(|parsed.value|));
        return Some(WrongRowLength(|parsed.value|));
      }
      assert e == Overwrite(row, parsed.value);
      matrix[row] := parsed.value;
    } else {
      assert e == Skip;
    }
    return None;
  }

  /** Handles the records in order, stopping at the first that fails. */
  method ApplyRecords(matrix: array<Row>, records: seq<string>, ids: IdMap, parse: Parser)
    returns (failure: Option<IngestError>)
    requires matrix.Length == |ids|
    modifies matrix
    ensures Applied(matrix[..], failure) == Run(old(matrix[..]), records, EffectOf(ids, parse))
  {
    ghost var before := matrix[..];
    ghost var effect := EffectOf(ids, parse);
    for i := 0 to |records|
      invariant Run(before, records[..i], effect) == Applied(matrix[..], None)
    {
      RunStep(before, records, i, effect);
      failure := ApplyRecord(matrix, records[i], ids, parse);
      if failure.Some? {
        AbortIsFinal(before, records[..i + 1], records, effect);
        return;
      }
    }
    assert records[..|records|] == records;
    failure := None;
  }

  // ---------------------------------------------------------------------------
  // Reading one file in chunks.

  /**
   * Reads one file chunk by chunk, applying the complete records of the growing buffer after
   * each read: the table ends as applying the file's complete records once, in order, does,
   * wherever the reads ended.
   */
  method ReadFile(matrix: array<Row>, chunks: seq<string>, ids: IdMap, parse: Parser)
    returns (failure: Option<IngestError>)
    requires matrix.Length == |ids|
    modifies matrix
    ensures Applied(matrix[..], failure) == Run(old(matrix[..]), FileRecords(chunks), EffectOf(ids, parse))
  {
    ghost var start := matrix[..];
    ghost var effect := EffectOf(ids, parse);
    ghost var settled: string := "";
    var bufferLine: string := "";
    var n := 0;
    while n < |chunks|
      invariant n <= |chunks|
      invariant ReplaceCR(Concat(chunks[..n])) == settled + bufferLine
      invariant CarryInvariant(settled, bufferLine)
      invariant Run(start, Lines(settled) + CompleteRecords(bufferLine), effect) == Applied(matrix[..], None)
    {
      ghost var carry := bufferLine;
      // One read: CR becomes LF, the buffer splits on runs of LF, its terminated lines are
      // handled now and the rest is carried to the next read.
      var buffer := ReplaceCR(bufferLine + chunks[n]);
      var records := CompleteRecords(buffer);
      var next := Carry(buffer);
      ReadStep(chunks, n, settled, carry, buffer, next);
      failure := ApplyRecords(matrix, records, ids, parse);
      ghost var met := Lines(settled) + records;
      assert Applied(matrix[..], failure) == Run(start, met, effect) by {
        RunAfterPrefix(start, Lines(settled), CompleteRecords(carry), records, effect);
      }
      if failure.Some? {
        AbortIsFinal(start, met, FileRecords(chunks), effect);
        return;
      }
      settled := settled + buffer[..|buffer| - |next|];
      bufferLine := next;
      n := n + 1;
    }
    assert chunks[..n] == chunks;
    SettledSplit(settled, bufferLine);
    failure := None;
  }

  /**
   * Reads the files one after another into the same matrix, each with a fresh carry,
   * stopping at the first failure.
   */
  method ReadFiles(matrix: array<Row>, files: seq<seq<string>>, ids: IdMap, parse: Parser)
    returns (failure: Option<IngestError>)
    requires matrix.Length == |ids|
    modifies matrix
    ensures Applied(matrix[..], failure) == Run(old(matrix[..]), AllRecords(files), EffectOf(ids, parse))
  {
    ghost var start := matrix[..];
    ghost var effect := EffectOf(ids, parse);
    for f := 0 to |files|
      invariant Run(start, AllRecords(files[..f]), effect) == Applied(matrix[..], None)
    {
      AllRecordsStep(files, f);
      failure := ReadFile(matrix, files[f], ids, parse);
      RunAppend(start, AllRecords(files[..f]), FileRecords(files[f]), effect);
      if failure.Some? {
        assert AllRecords(files[..f + 1]) <= AllRecords(files) by {
          AllRecordsPrefix(files, f + 1);
        }
        AbortIsFinal(start, AllRecords(files[..f + 1]), AllRecords(files), effect);
        return;
      }
    }
    assert files[..|files|] == files;
    failure := None;
  }

  // ---------------------------------------------------------------------------
  // The appender.

  class PhotoDataAppender {
    var conf: Option<Configuration>
    var inputDataPath: Option<string>
    var userIds: Option<IdMap>
    var itemIds: Option<IdMap>
    /** The item-by-feature matrix; null until a read allocates it. */
    var itemPhotoMatrix: array?<Row>

    constructor(conf: Option<Configuration>)
      ensures this.conf == conf && inputDataPath == None
      ensures userIds == None && itemIds == None && itemPhotoMatrix == null
    {
      this.conf := conf;
      inputDataPath := None;
      userIds := None;
      itemIds := None;
      itemPhotoMatrix := null;
    }

    method SetUserMappingData(userMappingData: IdMap)
      modifies this
      ensures userIds == Some(userMappingData)
      ensures conf == old(conf) && inputDataPath == old(inputDataPath)
      ensures itemIds == old(itemIds) && itemPhotoMatrix == old(itemPhotoMatrix)
    {
      userIds := Some(userMappingData);
    }

    method SetItemMappingData(itemMappingData: IdMap)
      modifies this
      ensures itemIds == Some(itemMappingData)
      ensures conf == old(conf) && inputDataPath == old(inputDataPath)
      ensures userIds == old(userIds) && itemPhotoMatrix == old(itemPhotoMatrix)
    {
      itemIds := Some(itemMappingData);
    }

    method GetItemAppender() returns (m: array?<Row>)
      ensures m == itemPhotoMatrix
    {
      return itemPhotoMatrix;
    }

    /**
     * Reads every file under `path` into a fresh zero matrix with one row per item. Without an
     * item map nothing is allocated; an unreadable directory leaves the zero matrix.
     */
    method ReadData(path: string, tree: FileTree, parse: Parser) returns (failure: Option<IngestError>)
      modifies this
      ensures conf == old(conf) && inputDataPath == old(inputDataPath)
      ensures userIds == old(userIds) && itemIds == old(itemIds)
      ensures itemIds.None? ==> failure == Some(NoItemMap) && itemPhotoMatrix == old(itemPhotoMatrix)
      ensures itemIds.Some? ==>
        && itemPhotoMatrix != null && fresh(itemPhotoMatrix)
        && Applied(itemPhotoMatrix[..], failure) == Ingest(itemIds.value, tree, path, parse)
    {
      if itemIds.None? {
        return Some(NoItemMap);
      }
      var ids := itemIds.value;
      var matrix := new Row[|ids|](_ => ZeroRow());
      assert matrix[..] == ZeroTable(|ids|);
      itemPhotoMatrix := matrix;
      if path !in tree {
        return Some(DirectoryUnreadable(path));
      }
      failure := ReadFiles(matrix, tree[path], ids, parse);
    }

    /**
     * With photo ingestion enabled, reads the configured directory; otherwise changes nothing.
     */
    method ProcessData(tree: FileTree, parse: Parser) returns (failure: Option<IngestError>)
      modifies this
      ensures conf == old(conf) && userIds == old(userIds) && itemIds == old(itemIds)
      ensures !IngestionEnabled(conf) ==>
        failure == None && inputDataPath == old(inputDataPath) && itemPhotoMatrix == old(itemPhotoMatrix)
      ensures IngestionEnabled(conf) ==> inputDataPath == Some(PhotoPath(conf.value))
      ensures IngestionEnabled(conf) && itemIds.None? ==>
        failure == Some(NoItemMap) && itemPhotoMatrix == old(itemPhotoMatrix)
      ensures IngestionEnabled(conf) && itemIds.Some? ==>
        && itemPhotoMatrix != null && fresh(itemPhotoMatrix)
        && Applied(itemPhotoMatrix[..], failure) == Ingest(itemIds.value, tree, PhotoPath(conf.value), parse)
    {
      if IngestionEnabled(conf) {
        inputDataPath := Some(PhotoPath(conf.value));
        failure := ReadData(inputDataPath.value, tree, parse);
      } else {
        failure := None;
      }
    }
  }
}
