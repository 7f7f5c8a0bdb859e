/**
 * The upload reader: the lower-cased file name picks the spreadsheet reader
 * for ".xlsx" and ".xls", the CSV reader for ".csv", and anything else fails
 * with "Unsupported file type". The two pandas readers are opaque functions
 * of the upload's bytes that may raise.
 */
module Uploads {
  import opened Wrappers
  import opened Frames

  type Bytes = seq<bv8>

  datatype Upload = Upload(filename: string, content: Bytes)

  datatype Reader = Excel | Csv

  /** pandas.read_excel and pandas.read_csv, as functions of the bytes. */
  datatype Readers = Readers(excel: Bytes -> Result<Table, Exception>, csv: Bytes -> Result<Table, Exception>)

  const UnsupportedMessage := "Unsupported file type"

  /** str.lower on the characters that can decide the suffix test: A-Z. */
  function LowerChar(c: char): char
  {
    if 'A' <= c <= 'Z' then (c as int + 32) as char else c
  }

  function Lower(s: string): string
  {
    seq(|s|, i requires 0 <= i < |s| => LowerChar(s[i]))
  }

  function EndsWith(s: string, suffix: string): bool
  {
    |suffix| <= |s| && s[|s| - |suffix|..] == suffix
  }

  /**
   * The if/elif/else dispatch on the lower-cased name. The only way it fails
   * is the unsupported-type error, and a name it accepts is at least as long
   * as the shortest suffix and ends, lower-cased, in a suffix of the reader
   * it picks.
   */
  function SelectReader(filename: string): (r: Result<Reader, Exception>)
    ensures r.Failure? ==> r.error == Error(UnsupportedMessage)
    ensures r.Success? ==> |filename| >= 4
    ensures r == Success(Csv) ==> EndsWith(Lower(filename), ".csv")
    ensures r == Success(Excel) ==> EndsWith(Lower(filename), ".xls") || EndsWith(Lower(filename), ".xlsx")
  {
    var name := Lower(filename);
    if EndsWith(name, ".xlsx") || EndsWith(name, ".xls") then Success(Excel)
    else if EndsWith(name, ".csv") then Success(Csv)
    else Failure(Error(UnsupportedMessage))
  }

  /** read_file: dispatch on the name, then run the chosen reader on the bytes. */
  function ReadFile(file: Upload, readers: Readers): (r: Result<Table, Exception>)
    ensures SelectReader(file.filename).Failure? ==> r == Failure(Error(UnsupportedMessage))
    ensures SelectReader(file.filename) == Success(Excel) ==> r == readers.excel(file.content)
    ensures SelectReader(file.filename) == Success(Csv) ==> r == readers.csv(file.content)
  {
    match SelectReader(file.filename)
    case Success(Excel) => readers.excel(file.content)
    case Success(Csv) => readers.csv(file.content)
    case Failure(e) => Failure(e)
  }

  // Reference definition of the suffix test, one character at a time.

  /** The last |suffix| characters of name, lower-cased one by one, spell suffix. */
  predicate HasSuffixIgnoringCase(name: string, suffix: string)
  {
    |suffix| <= |name| && forall i :: 0 <= i < |suffix| ==> LowerChar(name[|name| - |suffix| + i]) == suffix[i]
  }

  lemma EndsWithLower(name: string, suffix: string)
    ensures EndsWith(Lower(name), suffix) <==> HasSuffixIgnoringCase(name, suffix)
  {
    var low := Lower(name);
    if HasSuffixIgnoringCase(name, suffix) {
      assert low[|low| - |suffix|..] == suffix;
    }
    if EndsWith(low, suffix) {
      forall i | 0 <= i < |suffix|
        ensures LowerChar(name[|name| - |suffix| + i]) == suffix[i]
      {
        assert low[|low| - |suffix|..][i] == suffix[i];
      }
    }
  }

  /** No name ends with both a spreadsheet suffix and ".csv": the last characters differ. */
  lemma SuffixesExclusive(name: string)
    ensures !(HasSuffixIgnoringCase(name, ".csv") && HasSuffixIgnoringCase(name, ".xls"))
    ensures !(HasSuffixIgnoringCase(name, ".csv") && HasSuffixIgnoringCase(name, ".xlsx"))
  {
    if HasSuffixIgnoringCase(name, ".csv") {
      assert LowerChar(name[|name| - 4 + 3]) == ".csv"[3] == 'v';
      assert !HasSuffixIgnoringCase(name, ".xls") by {
        assert ".xls"[3] == 's';
      }
      assert !HasSuffixIgnoringCase(name, ".xlsx") by {
        assert ".xlsx"[4] == 'x';
      }
    }
  }

  /**
   * A name is accepted exactly when, ignoring case, it ends with ".xlsx",
   * ".xls" or ".csv", and each accepted name selects exactly one reader.
   */
  lemma SelectReaderSpec(name: string)
    ensures SelectReader(name) == Success(Excel) <==> HasSuffixIgnoringCase(name, ".xlsx") || HasSuffixIgnoringCase(name, ".xls")
    ensures SelectReader(name) == Success(Csv) <==> HasSuffixIgnoringCase(name, ".csv")
    ensures SelectReader(name).Failure? <==>
      !HasSuffixIgnoringCase(name, ".xlsx") && !HasSuffixIgnoringCase(name, ".xls") && !HasSuffixIgnoringCase(name, ".csv")
    ensures SelectReader(name).Failure? ==> SelectReader(name).error == Error(UnsupportedMessage)
  {
    EndsWithLower(name, ".xlsx");
    EndsWithLower(name, ".xls");
    EndsWithLower(name, ".csv");
    SuffixesExclusive(name);
  }

  /** Matching ignores case: names equal up to the case of A-Z select the same reader. */
  lemma SelectReaderIgnoresCase(a: string, b: string)
    requires |a| == |b|
    requires forall i :: 0 <= i < |a| ==> LowerChar(a[i]) == LowerChar(b[i])
    ensures SelectReader(a) == SelectReader(b)
  {
    assert Lower(a) == Lower(b);
  }

  /** An unsupported name fails the same way whatever the bytes and whatever the readers. */
  lemma UnsupportedIgnoresContent(file: Upload, other: Bytes, readers: Readers, others: Readers)
    requires SelectReader(file.filename).Failure?
    ensures ReadFile(file, readers) == ReadFile(Upload(file.filename, other), others) == Failure(Error(UnsupportedMessage))
  {
  }

  lemma SpreadsheetNameExample()
    ensures SelectReader("Ledger.XLSX") == Success(Excel)
    ensures SelectReader("ledger.Xls") == Success(Excel)
  {
    assert Lower("Ledger.XLSX") == "ledger.xlsx";
    assert Lower("ledger.Xls") == "ledger.xls";
  }

  lemma CsvNameExample()
    ensures SelectReader("bank.CsV") == Success(Csv)
  {
    assert Lower("bank.CsV") == "bank.csv";
  }

  lemma UnsupportedNameExample()
    ensures SelectReader("data.txt") == Failure(Error(UnsupportedMessage))
    ensures SelectReader("csv") == Failure(Error(UnsupportedMessage))
  {
    assert Lower("data.txt") == "data.txt";
    assert Lower("csv") == "csv";
  }
}
