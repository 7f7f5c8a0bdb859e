/**
 * The POST branch of the "/" handler: check that both files were uploaded,
 * read them, reject an empty table, reconcile, and map a KeyError to the
 * key error and any other exception to the general error with its text.
 * Writing the report to the spreadsheet (to_excel) happens inside the same
 * try: it is the parameter write, which gives the bytes sent for download or
 * raises.
 */
module Handler {
  import opened Wrappers
  import opened Frames
  import opened Uploads
  import opened Merge
  import opened Status

  /** The error messages the handler tells apart; only the general one carries a detail. */
  datatype ErrorKind = FileMissing | EmptyFile | KeyErr | General(detail: string)

  /** The download: the reconciled table and the spreadsheet bytes written from it; or an error message. */
  datatype Outcome = Report(table: Table, file: Bytes) | Failed(kind: ErrorKind)

  /** A form field holds an upload when it is present and names a file (an unnamed upload is false). */
  predicate Uploaded(f: Option<Upload>): (present: bool)
    ensures present ==> f.Some?
    ensures f.Some? && f.value.filename == "" ==> !present
    ensures f.Some? && |f.value.filename| > 0 ==> present
  {
    f.Some? && f.value.filename != ""
  }

  /** The two except clauses: KeyError first, then every other exception with str(e). */
  function KindOf(e: Exception): (k: ErrorKind)
    ensures k == KeyErr <==> e.KeyError?
    ensures e.Error? ==> k == General(e.message)
    ensures k != FileMissing && k != EmptyFile
  {
    match e
    case KeyError(_) => KeyErr
    case Error(message) => General(message)
  }

  /**
   * The last step inside the try: write the report. A report is sent exactly
   * when writing succeeds, carrying the bytes written; an exception from
   * to_excel is the general error (or the key error) like any other.
   */
  function Deliver(report: Table, write: Table -> Result<Bytes, Exception>): (o: Outcome)
    ensures o.Report? <==> write(report).Success?
    ensures o.Report? ==> o.table == report && o.file == write(report).value
    ensures o.Failed? ==> o.kind == KindOf(write(report).error) && o.kind != FileMissing && o.kind != EmptyFile
  {
    match write(report)
    case Success(bytes) => Report(report, bytes)
    case Failure(e) => Failed(KindOf(e))
  }

  /**
   * The handler. A missing upload is reported before anything is read; the
   * first file is read before the second; an empty table is reported before
   * the merge; the report is written only after reconciling succeeded, and
   * a report is produced only when every step, writing included, succeeded.
   */
  function Home(file1: Option<Upload>, file2: Option<Upload>, readers: Readers, toText: Cell -> string, write: Table -> Result<Bytes, Exception>): (o: Outcome)
    ensures !Uploaded(file1) || !Uploaded(file2) ==> o == Failed(FileMissing)
    ensures Uploaded(file1) && Uploaded(file2) && ReadFile(file1.value, readers).Failure? ==>
      o == Failed(KindOf(ReadFile(file1.value, readers).error))
    ensures Uploaded(file1) && Uploaded(file2) && ReadFile(file1.value, readers).Success? && ReadFile(file2.value, readers).Failure? ==>
      o == Failed(KindOf(ReadFile(file2.value, readers).error))
    ensures Uploaded(file1) && Uploaded(file2) && ReadFile(file1.value, readers).Success? && ReadFile(file2.value, readers).Success? ==>
      var t1, t2 := ReadFile(file1.value, readers).value, ReadFile(file2.value, readers).value;
      && (IsEmpty(t1) || IsEmpty(t2) ==> o == Failed(EmptyFile))
      && (!IsEmpty(t1) && !IsEmpty(t2) ==>
            o == match Reconcile(t1, t2, toText) case Success(report) => Deliver(report, write) case Failure(e) => Failed(KindOf(e)))
    ensures o.Report? ==>
      && Uploaded(file1) && Uploaded(file2)
      && ReadFile(file1.value, readers).Success? && ReadFile(file2.value, readers).Success?
      && !IsEmpty(ReadFile(file1.value, readers).value) && !IsEmpty(ReadFile(file2.value, readers).value)
      && Reconcile(ReadFile(file1.value, readers).value, ReadFile(file2.value, readers).value, toText) == Success(o.table)
      && write(o.table) == Success(o.file)
  {
    if !Uploaded(file1) || !Uploaded(file2) then Failed(FileMissing)
    else
      match ReadFile(file1.value, readers)
      case Failure(e) => Failed(KindOf(e))
      case Success(df1) =>
        match ReadFile(file2.value, readers)
        case Failure(e) => Failed(KindOf(e))
        case Success(df2) =>
          if IsEmpty(df1) || IsEmpty(df2) then Failed(EmptyFile)
          else
            match Reconcile(df1, df2, toText)
            case Failure(e) => Failed(KindOf(e))
            case Success(report) => Deliver(report, write)
  }

  /** A file of any other type fails with "Unsupported file type" whatever its bytes. */
  lemma UnsupportedUpload(file1: Option<Upload>, file2: Option<Upload>, readers: Readers, toText: Cell -> string, write: Table -> Result<Bytes, Exception>)
    requires Uploaded(file1) && Uploaded(file2)
    requires !HasSuffixIgnoringCase(file1.value.filename, ".xlsx")
    requires !HasSuffixIgnoringCase(file1.value.filename, ".xls")
    requires !HasSuffixIgnoringCase(file1.value.filename, ".csv")
    ensures Home(file1, file2, readers, toText, write) == Failed(General(UnsupportedMessage))
  {
    SelectReaderSpec(file1.value.filename);
  }

  /** A table without "ID" yields the key error once both tables have rows. */
  lemma MissingKeyIsKeyError(file1: Option<Upload>, file2: Option<Upload>, readers: Readers, toText: Cell -> string, write: Table -> Result<Bytes, Exception>)
    requires Uploaded(file1) && Uploaded(file2)
    requires ReadFile(file1.value, readers).Success? && ReadFile(file2.value, readers).Success?
    requires !IsEmpty(ReadFile(file1.value, readers).value) && !IsEmpty(ReadFile(file2.value, readers).value)
    requires Key !in ReadFile(file1.value, readers).value.columns || Key !in ReadFile(file2.value, readers).value.columns
    ensures Home(file1, file2, readers, toText, write) == Failed(KeyErr)
  {
  }

  /** Amount_A can only name the left Amount, a column literally called so, or nothing. */
  lemma AmountANamesOnly(lcols: seq<string>, rcols: seq<string>)
    requires !(Amount in lcols && Amount in rcols)
    requires AmountA !in lcols && AmountA !in rcols
    ensures AmountA !in Names(Layout(lcols, rcols))
  {
    var lay := Layout(lcols, rcols);
    LayoutSpec(lcols, rcols);
    forall i | 0 <= i < |lay|
      ensures lay[i].name != AmountA
    {
      assert lay[i] in lay;
      SuffixedIsNotAmountA(lay[i].src);
    }
  }

  /** "c_A" is Amount_A only for c = Amount, and "c_B" never is. */
  lemma SuffixedIsNotAmountA(src: Source)
    ensures src.FromLeft? && src.col != Amount ==> src.col + SuffixA != AmountA
    ensures src.FromRight? ==> src.col + SuffixB != AmountA
  {
    if src.FromLeft? && src.col + SuffixA == AmountA {
      var c := src.col;
      assert |c| == 6;
      assert c == (c + SuffixA)[..6];
    }
    if src.FromRight? {
      var c := src.col;
      assert (c + SuffixB)[|c| + 1] == 'B';
    }
  }

  /**
   * When the Amount column is absent from either table (and no column is
   * literally called Amount_A), reconciling raises a KeyError, or the
   * merge's error when its labels collide first.
   */
  lemma ReconcileMissingAmount(t1: Table, t2: Table, toText: Cell -> string)
    requires !(Amount in t1.columns && Amount in t2.columns)
    requires AmountA !in t1.columns && AmountA !in t2.columns
    ensures Reconcile(t1, t2, toText).Failure?
    ensures Reconcile(t1, t2, toText).error.KeyError? || Reconcile(t1, t2, toText).error == Error(DuplicateColumnsMessage)
  {
    var m := MergeFrames(t1, t2);
    if m.Success? {
      AmountANamesOnly(t1.columns, t2.columns);
      assert AmountA !in m.value.columns;
    }
  }

  /**
   * When the Amount column is absent from either table (and no column is
   * literally called Amount_A), the outcome is the key error or, if the
   * merge's labels collide first, the general error: never a report.
   */
  lemma MissingAmountIsKeyError(file1: Option<Upload>, file2: Option<Upload>, readers: Readers, toText: Cell -> string, write: Table -> Result<Bytes, Exception>, t1: Table, t2: Table)
    requires Uploaded(file1) && Uploaded(file2)
    requires ReadFile(file1.value, readers) == Success(t1) && ReadFile(file2.value, readers) == Success(t2)
    requires !IsEmpty(t1) && !IsEmpty(t2)
    requires !(Amount in t1.columns && Amount in t2.columns)
    requires AmountA !in t1.columns && AmountA !in t2.columns
    ensures Home(file1, file2, readers, toText, write) == Failed(KeyErr)
      || Home(file1, file2, readers, toText, write) == Failed(General(DuplicateColumnsMessage))
  {
    ReconcileMissingAmount(t1, t2, toText);
  }

  /**
   * Two uploads read into tables with unique keys and an Amount column each
   * reconcile to a report that is handed to the writer (sent when writing
   * succeeds), with exactly one row per key found in either upload, and
   * each row's Status is Match exactly when the two sides' Amount for that
   * key have the same text.
   */
  lemma ReportOneVerdictPerKey(file1: Option<Upload>, file2: Option<Upload>, readers: Readers, toText: Cell -> string, write: Table -> Result<Bytes, Exception>, t1: Table, t2: Table)
    requires Uploaded(file1) && Uploaded(file2)
    requires ReadFile(file1.value, readers) == Success(t1) && ReadFile(file2.value, readers) == Success(t2)
    requires !IsEmpty(t1) && !IsEmpty(t2)
    requires Key in t1.columns && Key in t2.columns && Amount in t1.columns && Amount in t2.columns
    requires Distinct(Names(Layout(t1.columns, t2.columns)))
    requires UniqueKeys(t1.rows) && UniqueKeys(t2.rows)
    ensures Reconcile(t1, t2, toText).Success?
    ensures Home(file1, file2, readers, toText, write) == Deliver(Reconcile(t1, t2, toText).value, write)
    ensures Home(file1, file2, readers, toText, write).Report? <==> write(Reconcile(t1, t2, toText).value).Success?
    ensures UniqueKeys(Reconcile(t1, t2, toText).value.rows)
    ensures forall k :: k in KeysOf(Reconcile(t1, t2, toText).value.rows) <==> k in KeysOf(t1.rows) || k in KeysOf(t2.rows)
    ensures forall row :: row in Reconcile(t1, t2, toText).value.rows ==>
      (Get(row, StatusColumn) == Text(MatchLabel) <==>
       toText(AmountOf(Lookup(t1.rows, KeyOf(row)))) == toText(AmountOf(Lookup(t2.rows, KeyOf(row)))))
  {
    ReconcileOneVerdictPerKey(t1, t2, toText);
    ReconcileMatchIff(t1, t2, toText);
    HomeDelivers(file1, file2, readers, toText, write, t1, t2);
  }

  /** Once both uploads are read into non-empty tables that reconcile, the outcome is writing that report. */
  lemma HomeDelivers(file1: Option<Upload>, file2: Option<Upload>, readers: Readers, toText: Cell -> string, write: Table -> Result<Bytes, Exception>, t1: Table, t2: Table)
    requires Uploaded(file1) && Uploaded(file2)
    requires ReadFile(file1.value, readers) == Success(t1) && ReadFile(file2.value, readers) == Success(t2)
    requires !IsEmpty(t1) && !IsEmpty(t2)
    requires Reconcile(t1, t2, toText).Success?
    ensures Home(file1, file2, readers, toText, write) == Deliver(Reconcile(t1, t2, toText).value, write)
  {
  }
}
