/** Model of the CSV cleaning stage of the stock data loader
    (cmd/data-loader/main.go): which directory entries are queued, how a file
    path becomes a stock symbol and a cleaned-file path, and how one raw price
    file is cleaned record by record before the bulk copy. */
module DataLoader {

  datatype Result<T, E> = Success(value: T) | Failure(error: E)

  // ---------------------------------------------------------------------------
  // Strings and paths
  // ---------------------------------------------------------------------------

  /** strings.HasSuffix: `s` is some prefix followed by `suffix`. */
  predicate HasSuffix(s: string, suffix: string)
    ensures HasSuffix(s, suffix) ==> |suffix| <= |s| && s == s[..|s| - |suffix|] + suffix
  {
    |suffix| <= |s| && s[|s| - |suffix|..] == suffix
  }

  /** Any string followed by `suffix` ends in `suffix`. */
  lemma HasSuffixOfAppend(prefix: string, suffix: string)
    ensures HasSuffix(prefix + suffix, suffix)
  {
    assert (prefix + suffix)[|prefix|..] == suffix;
  }

  /** strings.TrimSuffix: removes one copy of `suffix` from the end of `s`, if there is one. */
  function TrimSuffix(s: string, suffix: string): (r: string)
    ensures HasSuffix(s, suffix) ==> r + suffix == s
    ensures !HasSuffix(s, suffix) ==> r == s
  {
    if HasSuffix(s, suffix) then s[..|s| - |suffix|] else s
  }

  /** `p` without its trailing '/' characters (the first step of filepath.Base). */
  function TrimTrailingSlashes(p: string): (r: string)
    ensures r <= p
    ensures r == [] || r[|r| - 1] != '/'
    ensures forall i :: |r| <= i < |p| ==> p[i] == '/'
  {
    if p != [] && p[|p| - 1] == '/' then TrimTrailingSlashes(p[..|p| - 1]) else p
  }

  /** The part of `p` after its last '/', all of `p` when it has none. */
  function AfterLastSlash(p: string): (r: string)
    ensures |r| <= |p| && r == p[|p| - |r|..]
    ensures '/' !in r
    ensures |r| < |p| ==> p[|p| - |r| - 1] == '/'
  {
    if p == [] || p[|p| - 1] == '/' then []
    else AfterLastSlash(p[..|p| - 1]) + [p[|p| - 1]]
  }

  /** filepath.Base on a system whose separator is '/': the last element of
      the path, "." for the empty path, "/" for a path made of separators only. */
  function Base(p: string): (r: string)
    ensures r != []
    ensures '/' in r ==> r == "/"
    ensures r == "/" <==> p != [] && forall i :: 0 <= i < |p| ==> p[i] == '/'
  {
    if p == [] then "."
    else
      var element := AfterLastSlash(TrimTrailingSlashes(p));
      if element == [] then "/" else element
  }

  /** The stock symbol of a price file: its base name minus one ".csv" (main.go:180). */
  function Symbol(filePath: string): (r: string)
    ensures r <= Base(filePath)
    ensures HasSuffix(Base(filePath), ".csv") ==> r + ".csv" == Base(filePath)
    ensures !HasSuffix(Base(filePath), ".csv") ==> r == Base(filePath)
    ensures '/' in r ==> r == "/"
  {
    TrimSuffix(Base(filePath), ".csv")
  }

  /** Name of the cleaned file written next to the raw file (main.go:217). */
  function CleanedPath(filePath: string): (r: string)
    ensures HasSuffix(r, "_cleaned.csv")
    ensures filePath <= r
  {
    filePath + "_cleaned.csv"
  }

  lemma AfterLastSlashSnoc(s: string, c: char)
    requires c != '/'
    ensures AfterLastSlash(s + [c]) == AfterLastSlash(s) + [c]
  {
    assert (s + [c])[..|s|] == s;
  }

  lemma {:induction false} AfterLastSlashOfElement(prefix: string, name: string)
    requires '/' !in name
    requires prefix == [] || prefix[|prefix| - 1] == '/'
    ensures AfterLastSlash(prefix + name) == name
  {
    if name == [] {
      assert prefix + name == prefix;
    } else {
      var init, c := name[..|name| - 1], name[|name| - 1];
      assert name == init + [c];
      assert prefix + name == (prefix + init) + [c];
      AfterLastSlashOfElement(prefix, init);
      AfterLastSlashSnoc(prefix + init, c);
    }
  }

  /** A file name that is the last element of a path is its own base name,
      whatever directory (cleaned by filepath.Join or not) precedes it. */
  lemma BaseOfFileInDirectory(prefix: string, name: string)
    requires name != [] && '/' !in name
    requires prefix == [] || prefix[|prefix| - 1] == '/'
    ensures Base(prefix + name) == name
  {
    var p := prefix + name;
    assert p[|p| - 1] == name[|name| - 1] && p[|p| - 1] != '/';
    assert TrimTrailingSlashes(p) == p;
    AfterLastSlashOfElement(prefix, name);
  }

  /** The symbol of a queued file is its name with exactly one trailing ".csv"
      removed: "AAA.csv" gives "AAA", "AAA.csv.csv" gives "AAA.csv", ".csv" gives "". */
  lemma SymbolOfStockFile(dir: string, name: string)
    requires name != [] && '/' !in name && HasSuffix(name, ".csv")
    requires dir == [] || dir[|dir| - 1] == '/'
    ensures Symbol(dir + name) + ".csv" == name
    ensures |Symbol(dir + name)| == |name| - 4
  {
    BaseOfFileInDirectory(dir, name);
  }

  /** The cleaned path determines the raw path it was made from. */
  lemma CleanedPathRoundTrip(filePath: string)
    ensures TrimSuffix(CleanedPath(filePath), "_cleaned.csv") == filePath
  {
    var r := CleanedPath(filePath);
    assert r[..|r| - |"_cleaned.csv"|] == filePath;
  }

  lemma CleanedPathInjective(p: string, q: string)
    requires CleanedPath(p) == CleanedPath(q)
    ensures p == q
  {
    CleanedPathRoundTrip(p);
    CleanedPathRoundTrip(q);
  }

  // ---------------------------------------------------------------------------
  // Directory scan (main.go:163-168)
  // ---------------------------------------------------------------------------

  /** An entry of os.ReadDir. */
  datatype DirEntry = DirEntry(name: string, isDir: bool)

  /** Only regular entries whose name ends in ".csv" are handed to the workers. */
  predicate IsStockFile(e: DirEntry)
    ensures IsStockFile(e) ==> !e.isDir && TrimSuffix(e.name, ".csv") + ".csv" == e.name
  {
    !e.isDir && HasSuffix(e.name, ".csv")
  }

  /** Names of the stock files among `entries`, in directory order. */
  function StockFiles(entries: seq<DirEntry>): (names: seq<string>)
    ensures |names| <= |entries|
    ensures forall j :: 0 <= j < |names| ==> HasSuffix(names[j], ".csv")
  {
    if entries == [] then []
    else
      var last := entries[|entries| - 1];
      StockFiles(entries[..|entries| - 1]) + (if IsStockFile(last) then [last.name] else [])
  }

  /** A name is queued iff some entry with that name is not a directory and ends in ".csv". */
  lemma {:induction false} StockFilesMembership(entries: seq<DirEntry>, name: string)
    ensures name in StockFiles(entries) <==>
            exists i :: 0 <= i < |entries| && IsStockFile(entries[i]) && entries[i].name == name
  {
    if entries != [] {
      var init := entries[..|entries| - 1];
      StockFilesMembership(init, name);
      if name in StockFiles(entries) && name !in StockFiles(init) {
        assert IsStockFile(entries[|entries| - 1]) && entries[|entries| - 1].name == name;
      }
      if exists i :: 0 <= i < |entries| && IsStockFile(entries[i]) && entries[i].name == name {
        var i :| 0 <= i < |entries| && IsStockFile(entries[i]) && entries[i].name == name;
        if i < |init| {
          assert init[i] == entries[i];
        }
      }
    }
  }

  /** The loop that fills the work queue, with the queue as the sequence of names sent. */
  method QueueStockFiles(entries: seq<DirEntry>) returns (queue: seq<string>)
    ensures queue == StockFiles(entries)
  {
    queue := [];
    for i := 0 to |entries|
      invariant queue == StockFiles(entries[..i])
    {
      var file := entries[i];
      assert entries[..i + 1][..i] == entries[..i];
      if !file.isDir && HasSuffix(file.name, ".csv") {
        queue := queue + [file.name];
      }
    }
    assert entries[..|entries|] == entries;
  }

  // ---------------------------------------------------------------------------
  // Row cleaning (main.go:252-269)
  // ---------------------------------------------------------------------------

  type Row = seq<string>

  /** strings.Split(v, ".")[0]: the text of `v` before its first '.'. */
  function BeforeFirstDot(v: string): (r: string)
    ensures r <= v
    ensures '.' !in r
    ensures |r| < |v| ==> v[|r|] == '.'
  {
    if v == [] || v[0] == '.' then [] else [v[0]] + BeforeFirstDot(v[1..])
  }

  /** The volume as written to the cleaned file: cut at the first '.' when it has one. */
  function CleanVolume(v: string): (r: string)
    ensures r <= v && '.' !in r
    ensures '.' !in v ==> r == v
    ensures '.' in v ==> v[|r|] == '.'
  {
    if '.' in v then BeforeFirstDot(v) else v
  }

  /** The guard on strings.Contains changes nothing: the volume is always its text before the first '.'. */
  lemma CleanVolumeIsBeforeFirstDot(v: string)
    ensures CleanVolume(v) == BeforeFirstDot(v)
  {
  }

  lemma CleanVolumeIdempotent(v: string)
    ensures CleanVolume(CleanVolume(v)) == CleanVolume(v)
  {
  }

  /** Truncation, not rounding; emptiness is tested before truncation, so ".5" becomes "". */
  lemma CleanVolumeExamples()
    ensures CleanVolume("123.0") == "123"
    ensures CleanVolume("123") == "123"
    ensures CleanVolume("1.2.3") == "1"
    ensures CleanVolume(".5") == ""
  {
    assert "123.0"[3] == '.' && "1.2.3"[1] == '.' && ".5"[0] == '.';
    assert "123"[..3] == "123";
  }

  /** A row survives iff it has 7 fields and non-empty "open" (1) and "volume" (6) fields. */
  predicate Accepts(row: Row)
  {
    |row| == 7 && row[1] != "" && row[6] != ""
  }

  /** An accepted row as written out: fields 0-5 unchanged, the cleaned volume, then the symbol. */
  function CleanRow(row: Row, symbol: string): (r: Row)
    requires |row| == 7
    ensures |r| == 8
    ensures r[..6] == row[..6]
    ensures r[6] == CleanVolume(row[6]) && '.' !in r[6]
    ensures r[7] == symbol
  {
    row[6 := CleanVolume(row[6])] + [symbol]
  }

  /** A row whose volume has no '.' is only extended by the symbol. */
  lemma CleanRowOfIntegralVolume(row: Row, symbol: string)
    requires |row| == 7 && '.' !in row[6]
    ensures CleanRow(row, symbol) == row + [symbol]
  {
  }

  /** The cleaned rows for a run of data rows, in input order. */
  function CleanRows(rows: seq<Row>, symbol: string): (out: seq<Row>)
    ensures |out| <= |rows|
    ensures forall j :: 0 <= j < |out| ==> |out[j]| == 8 && out[j][7] == symbol && '.' !in out[j][6]
  {
    if rows == [] then []
    else
      var last := rows[|rows| - 1];
      CleanRows(rows[..|rows| - 1], symbol) + (if Accepts(last) then [CleanRow(last, symbol)] else [])
  }

  /** Reference definition: the accepted rows, as a filter from the front. */
  function Accepted(rows: seq<Row>): (kept: seq<Row>)
    ensures forall x :: x in kept <==> x in rows && Accepts(x)
  {
    if rows == [] then []
    else (if Accepts(rows[0]) then [rows[0]] else []) + Accepted(rows[1..])
  }

  lemma {:induction false} AcceptedAppend(a: seq<Row>, b: seq<Row>)
    ensures Accepted(a + b) == Accepted(a) + Accepted(b)
  {
    if a != [] {
      assert (a + b)[1..] == a[1..] + b;
      AcceptedAppend(a[1..], b);
    } else {
      assert a + b == b;
    }
  }

  lemma {:induction false} CleanRowsAppend(a: seq<Row>, b: seq<Row>, symbol: string)
    ensures CleanRows(a + b, symbol) == CleanRows(a, symbol) + CleanRows(b, symbol)
  {
    if b == [] {
      assert a + b == a;
    } else {
      var init := b[..|b| - 1];
      assert (a + b)[..|a + b| - 1] == a + init;
      CleanRowsAppend(a, init, symbol);
    }
  }

  /** The cleaned rows are exactly the accepted rows, each cleaned, in the same order. */
  lemma {:induction false} CleanRowsMapsAccepted(rows: seq<Row>, symbol: string)
    ensures |CleanRows(rows, symbol)| == |Accepted(rows)|
    ensures forall j :: 0 <= j < |Accepted(rows)| ==>
              |Accepted(rows)[j]| == 7 && CleanRows(rows, symbol)[j] == CleanRow(Accepted(rows)[j], symbol)
  {
    if rows != [] {
      var init, last := rows[..|rows| - 1], rows[|rows| - 1];
      CleanRowsMapsAccepted(init, symbol);
      AcceptedAppend(init, [last]);
      assert init + [last] == rows;
      assert Accepted([last]) == if Accepts(last) then [last] else [];
    }
  }

  /** `out` is what the accepted row `row` becomes in the cleaned file. */
  predicate CleanedFrom(out: Row, row: Row, symbol: string)
  {
    Accepts(row) && out == CleanRow(row, symbol)
  }

  /** Every output row comes from an accepted input row, and every accepted input row
      reaches the output: rows with a field count other than 7, or an empty "open" or
      "volume" field, never do. */
  lemma CleanRowsOrigin(rows: seq<Row>, symbol: string)
    ensures forall j :: 0 <= j < |CleanRows(rows, symbol)| ==>
              exists i :: 0 <= i < |rows| && CleanedFrom(CleanRows(rows, symbol)[j], rows[i], symbol)
    ensures forall i :: 0 <= i < |rows| && Accepts(rows[i]) ==> CleanRow(rows[i], symbol) in CleanRows(rows, symbol)
  {
    CleanRowsMapsAccepted(rows, symbol);
    forall j | 0 <= j < |CleanRows(rows, symbol)|
      ensures exists i :: 0 <= i < |rows| && CleanedFrom(CleanRows(rows, symbol)[j], rows[i], symbol)
    {
      var x := Accepted(rows)[j];
      assert x in Accepted(rows);
      var i :| 0 <= i < |rows| && rows[i] == x;
      assert CleanedFrom(CleanRows(rows, symbol)[j], rows[i], symbol);
    }
    forall i | 0 <= i < |rows| && Accepts(rows[i])
      ensures CleanRow(rows[i], symbol) in CleanRows(rows, symbol)
    {
      assert rows[i] in Accepted(rows);
      var j :| 0 <= j < |Accepted(rows)| && Accepted(rows)[j] == rows[i];
      assert CleanRows(rows, symbol)[j] == CleanRow(rows[i], symbol);
    }
  }

  /** A file none of whose rows is accepted cleans to nothing but its header. */
  lemma NoAcceptedRowLeavesNoOutput(rows: seq<Row>, symbol: string)
    requires forall i :: 0 <= i < |rows| ==> !Accepts(rows[i])
    ensures CleanRows(rows, symbol) == []
  {
    CleanRowsMapsAccepted(rows, symbol);
  }

  /** A rejected row contributes nothing: removing it leaves the output unchanged. */
  lemma RejectedRowContributesNothing(a: seq<Row>, x: Row, b: seq<Row>, symbol: string)
    requires !Accepts(x)
    ensures CleanRows(a + [x] + b, symbol) == CleanRows(a + b, symbol)
  {
    CleanRowsAppend(a + [x], b, symbol);
    CleanRowsAppend(a, [x], symbol);
    CleanRowsAppend(a, b, symbol);
    assert [x][..0] == [];
  }

  // ---------------------------------------------------------------------------
  // preprocessCSV (main.go:216-276)
  // ---------------------------------------------------------------------------

  /** The outcome of one reader.Read call; the end of the sequence is io.EOF. */
  datatype ReadResult = Fields(fields: Row) | ReadFailed

  datatype PreprocessError = OpenError | CreateError | HeaderError | RowError

  predicate AllRead(outcomes: seq<ReadResult>)
  {
    forall i :: 0 <= i < |outcomes| ==> outcomes[i].Fields?
  }

  /** The records returned before the first failed read. */
  function RowsRead(outcomes: seq<ReadResult>): (rows: seq<Row>)
    ensures |rows| <= |outcomes|
  {
    if outcomes == [] || outcomes[0].ReadFailed? then [] else [outcomes[0].fields] + RowsRead(outcomes[1..])
  }

  lemma {:induction false} RowsReadAppend(s: seq<ReadResult>, t: seq<ReadResult>)
    requires AllRead(s)
    ensures RowsRead(s + t) == RowsRead(s) + RowsRead(t)
  {
    if s != [] {
      assert (s + t)[0] == s[0] && s[0].Fields?;
      assert (s + t)[1..] == s[1..] + t;
      assert AllRead(s[1..]) by {
        forall i | 0 <= i < |s| - 1 ensures s[1..][i].Fields? {
          assert s[1..][i] == s[i + 1];
        }
      }
      RowsReadAppend(s[1..], t);
    } else {
      assert s + t == t;
    }
  }

  /** The path returned and the records handed to the csv writer; the deferred
      Flush writes them out on every exit after the output file is created. */
  datatype Cleaning = Cleaning(result: Result<string, PreprocessError>, written: seq<Row>)

  /** What cleaning one raw file produces. `inputOpened` and `outputCreated` say whether the
      input could be opened and the output created; `outcomes` are the reader's results. */
  function Preprocessed(filePath: string, symbol: string, inputOpened: bool, outputCreated: bool,
                        outcomes: seq<ReadResult>): Cleaning
  {
    if !inputOpened then Cleaning(Failure(OpenError), [])
    else if !outputCreated then Cleaning(Failure(CreateError), [])
    else if outcomes == [] || outcomes[0].ReadFailed? then Cleaning(Failure(HeaderError), [])
    else
      var written := [outcomes[0].fields] + CleanRows(RowsRead(outcomes[1..]), symbol);
      if AllRead(outcomes[1..]) then Cleaning(Success(CleanedPath(filePath)), written)
      else Cleaning(Failure(RowError), written)
  }

  /** Success iff both files open and every read succeeds, with the cleaned path as
      result; whatever is written starts with the header unchanged, and every later
      record has 8 fields ending in the symbol. */
  lemma PreprocessedOutcome(filePath: string, symbol: string, inputOpened: bool, outputCreated: bool,
                            outcomes: seq<ReadResult>)
    ensures var c := Preprocessed(filePath, symbol, inputOpened, outputCreated, outcomes);
            && (c.result.Success? <==> inputOpened && outputCreated && outcomes != [] && AllRead(outcomes))
            && (c.result.Success? ==> c.result.value == CleanedPath(filePath))
            && (c.written != [] ==> outcomes != [] && outcomes[0].Fields? && c.written[0] == outcomes[0].fields)
            && |c.written| <= |outcomes|
            && (forall j :: 1 <= j < |c.written| ==> |c.written[j]| == 8 && c.written[j][7] == symbol)
  {
    if inputOpened && outputCreated && outcomes != [] && outcomes[0].Fields? {
      assert AllRead(outcomes) <==> AllRead(outcomes[1..]) by {
        if AllRead(outcomes[1..]) {
          forall i | 0 <= i < |outcomes| ensures outcomes[i].Fields? {
            if i > 0 { assert outcomes[1..][i - 1] == outcomes[i]; }
          }
        }
      }
    }
  }

  /** On success the cleaned file is the header followed by the cleaned rows of all data records. */
  lemma PreprocessedOnSuccess(filePath: string, symbol: string, outcomes: seq<ReadResult>)
    requires Preprocessed(filePath, symbol, true, true, outcomes).result.Success?
    ensures |outcomes| > 0
    ensures Preprocessed(filePath, symbol, true, true, outcomes).written ==
            [outcomes[0].fields] + CleanRows(RowsRead(outcomes[1..]), symbol)
    ensures |RowsRead(outcomes[1..])| == |outcomes| - 1
  {
    RowsReadAppend(outcomes[1..], []);
    assert outcomes[1..] + [] == outcomes[1..];
    AllReadRowsRead(outcomes[1..]);
  }

  lemma {:induction false} AllReadRowsRead(outcomes: seq<ReadResult>)
    requires AllRead(outcomes)
    ensures |RowsRead(outcomes)| == |outcomes|
    ensures forall i :: 0 <= i < |outcomes| ==> RowsRead(outcomes)[i] == outcomes[i].fields
  {
    if outcomes != [] {
      AllReadRowsRead(outcomes[1..]);
    }
  }

  /** One more successful read adds its record to what the loop has seen. */
  lemma SuccessfulReadExtendsRows(outcomes: seq<ReadResult>, i: nat, symbol: string)
    requires 1 <= i < |outcomes| && AllRead(outcomes[1..i]) && outcomes[i].Fields?
    ensures AllRead(outcomes[1..i + 1])
    ensures CleanRows(RowsRead(outcomes[1..i + 1]), symbol) ==
            CleanRows(RowsRead(outcomes[1..i]), symbol) +
            (if Accepts(outcomes[i].fields) then [CleanRow(outcomes[i].fields, symbol)] else [])
  {
    var before := outcomes[1..i];
    RowsReadAppend(before, [outcomes[i]]);
    assert outcomes[1..i + 1] == before + [outcomes[i]];
    CleanRowsAppend(RowsRead(before), [outcomes[i].fields], symbol);
  }

  /** A failed read ends the records: nothing after it is looked at. */
  lemma ReadFailureEndsRows(outcomes: seq<ReadResult>, i: nat)
    requires 1 <= i < |outcomes| && AllRead(outcomes[1..i]) && outcomes[i].ReadFailed?
    ensures !AllRead(outcomes[1..])
    ensures RowsRead(outcomes[1..]) == RowsRead(outcomes[1..i])
  {
    var data := outcomes[1..];
    assert data[i - 1] == outcomes[i];
    assert data[..i - 1] == outcomes[1..i] && data[i - 1..] == outcomes[i..];
    assert data == outcomes[1..i] + outcomes[i..];
    RowsReadAppend(outcomes[1..i], outcomes[i..]);
    assert outcomes[i..][0] == outcomes[i];
    assert RowsRead(outcomes[1..i]) + [] == RowsRead(outcomes[1..i]);
  }

  /** preprocessCSV with the file system calls replaced by their outcomes. */
  method PreprocessCsv(filePath: string, symbol: string, inputOpened: bool, outputCreated: bool,
                       outcomes: seq<ReadResult>)
    returns (result: Result<string, PreprocessError>, written: seq<Row>)
    ensures Cleaning(result, written) == Preprocessed(filePath, symbol, inputOpened, outputCreated, outcomes)
  {
    var tempFilePath := filePath + "_cleaned.csv";
    written := [];
    if !inputOpened {
      return Failure(OpenError), written;
    }
    if !outputCreated {
      return Failure(CreateError), written;
    }
    if outcomes == [] || outcomes[0].ReadFailed? {
      return Failure(HeaderError), written;
    }
    var header := outcomes[0].fields;
    written := written + [header];
    var i := 1;
    while i < |outcomes|
      invariant 1 <= i <= |outcomes|
      invariant AllRead(outcomes[1..i])
      invariant written == [header] + CleanRows(RowsRead(outcomes[1..i]), symbol)
    {
      var read := outcomes[i];
      if read.ReadFailed? {
        ReadFailureEndsRows(outcomes, i);
        return Failure(RowError), written;
      }
      SuccessfulReadExtendsRows(outcomes, i, symbol);
      i := i + 1;
      var row := read.fields;
      if |row| != 7 {
        continue;
      }
      if row[1] == "" || row[6] == "" {
        continue;
      }
      var volume := row[6];
      if '.' in volume {
        volume := BeforeFirstDot(volume);
      }
      assert volume == CleanVolume(read.fields[6]);
      row := row[6 := volume];
      row := row + [symbol];
      assert row == CleanRow(read.fields, symbol);
      written := written + [row];
    }
    assert outcomes[1..i] == outcomes[1..];
    result := Success(tempFilePath);
  }

  /** processStockFile (main.go:179-184) composed with the queue: every data row
      cleaned from a queued file carries that file's name minus ".csv". */
  lemma CleanedRowsCarryFileSymbol(entries: seq<DirEntry>, dir: string, name: string,
                                   absolutePath: string, outcomes: seq<ReadResult>)
    requires name in StockFiles(entries) && name != [] && '/' !in name
    requires dir == [] || dir[|dir| - 1] == '/'
    ensures var written := Preprocessed(absolutePath, Symbol(dir + name), true, true, outcomes).written;
            forall j :: 1 <= j < |written| ==> |written[j]| == 8 && written[j][7] + ".csv" == name
  {
    StockFilesMembership(entries, name);
    SymbolOfStockFile(dir, name);
    PreprocessedOutcome(absolutePath, Symbol(dir + name), true, true, outcomes);
  }

  // ---------------------------------------------------------------------------
  // How encoding/csv produces the outcomes (finding)
  // ---------------------------------------------------------------------------

  /** Reads as encoding/csv performs them with its default FieldsPerRecord = 0 (as
      written at main.go:231): the first record fixes the field count, and a later
      record with another count makes Read return an error. */
  function StrictReads(lines: seq<Row>): (outcomes: seq<ReadResult>)
    ensures |outcomes| == |lines|
    ensures AllRead(outcomes) <==> forall i :: 0 <= i < |lines| ==> |lines[i]| == |lines[0]|
  {
    var outcomes := seq(|lines|, i requires 0 <= i < |lines| =>
                          if |lines[i]| == |lines[0]| then Fields(lines[i]) else ReadFailed);
    assert forall i :: 0 <= i < |lines| ==> (outcomes[i].Fields? <==> |lines[i]| == |lines[0]|);
    outcomes
  }

  /** The records a reader hands over are the leading successful reads, and the
      first failed read, if any, comes right after them. */
  lemma {:induction false} RowsReadPrefix(outcomes: seq<ReadResult>)
    ensures forall j :: 0 <= j < |RowsRead(outcomes)| ==>
              outcomes[j].Fields? && RowsRead(outcomes)[j] == outcomes[j].fields
    ensures |RowsRead(outcomes)| < |outcomes| ==> outcomes[|RowsRead(outcomes)|].ReadFailed?
  {
    if outcomes != [] && outcomes[0].Fields? {
      RowsReadPrefix(outcomes[1..]);
      var rest := RowsRead(outcomes[1..]);
      assert RowsRead(outcomes) == [outcomes[0].fields] + rest;
      forall j | 1 <= j < |RowsRead(outcomes)|
        ensures outcomes[j].Fields? && RowsRead(outcomes)[j] == outcomes[j].fields
      {
        assert RowsRead(outcomes)[j] == rest[j - 1] && outcomes[1..][j - 1] == outcomes[j];
      }
      if |rest| < |outcomes[1..]| {
        assert outcomes[1..][|rest|] == outcomes[|rest| + 1];
      }
    }
  }

  /** With the default field count the records handed over are the longest run of
      leading lines as wide as the first line; the line after that run is the
      first of another width. */
  lemma StrictReadsStopAtFirstWidthChange(lines: seq<Row>)
    requires |lines| > 0
    ensures var rows := RowsRead(StrictReads(lines));
            && rows <= lines
            && (forall j :: 0 <= j < |rows| ==> |rows[j]| == |lines[0]|)
            && (|rows| < |lines| ==> |lines[|rows|]| != |lines[0]|)
  {
    var outcomes := StrictReads(lines);
    RowsReadPrefix(outcomes);
    var rows := RowsRead(outcomes);
    assert rows == lines[..|rows|];
  }

  /** Reads with FieldsPerRecord = -1: every record is returned whatever its field
      count, so the field-count test at main.go:253 decides. */
  function LenientReads(lines: seq<Row>): (outcomes: seq<ReadResult>)
    ensures |outcomes| == |lines| && AllRead(outcomes)
    ensures RowsRead(outcomes) == lines
  {
    var outcomes := seq(|lines|, i requires 0 <= i < |lines| => Fields(lines[i]));
    RowsReadPrefix(outcomes);
    outcomes
  }

  /** As written: with a 7-field header, one data row of another width makes the
      whole file fail instead of being skipped, so none of its rows are loaded. */
  lemma StrictReadsAbortOnShortRow(filePath: string, symbol: string, lines: seq<Row>, k: nat)
    requires |lines| > 0 && |lines[0]| == 7
    requires 1 <= k < |lines| && |lines[k]| != 7
    ensures Preprocessed(filePath, symbol, true, true, StrictReads(lines)).result == Failure(RowError)
  {
    var outcomes := StrictReads(lines);
    assert outcomes[1..][k - 1] == ReadFailed;
  }

  /** Corrected: with lenient outcomes the cleaned file holds the header and the
      cleaned rows of every data line, rows of another width being skipped. */
  lemma LenientReadsSkipShortRows(filePath: string, symbol: string, lines: seq<Row>)
    requires |lines| > 0
    ensures Preprocessed(filePath, symbol, true, true, LenientReads(lines)) ==
            Cleaning(Success(CleanedPath(filePath)), [lines[0]] + CleanRows(lines[1..], symbol))
  {
    var outcomes := LenientReads(lines);
    AllReadRowsRead(outcomes[1..]);
    assert RowsRead(outcomes[1..]) == lines[1..];
  }
}
