/**
 * The Status column: comparison["Status"] = comparison.apply(...). Each
 * merged row is a Match when the text forms of its Amount_A and Amount_B
 * cells are equal and a Mismatch otherwise. The text form (Python's str) is
 * a parameter; PyStr below is the concrete one for integers, strings and NaN.
 */
module Status {
  import opened Wrappers
  import opened Frames
  import opened Merge

  const Amount := "Amount"
  const AmountA := "Amount_A"
  const AmountB := "Amount_B"
  const StatusColumn := "Status"
  const MatchLabel := "✅ Match"
  const MismatchLabel := "❌ Mismatch"

  datatype Verdict = Match | Mismatch

  function Label(v: Verdict): string
  {
    match v
    case Match => MatchLabel
    case Mismatch => MismatchLabel
  }

  /** The per-row lambda: Match exactly when str() gives the same text for the two amounts. */
  function Classify(row: Row, toText: Cell -> string): (v: Verdict)
    ensures v == Match <==> toText(Get(row, AmountA)) == toText(Get(row, AmountB))
  {
    if toText(Get(row, AmountA)) == toText(Get(row, AmountB)) then Match else Mismatch
  }

  /**
   * Adding the Status column. Reading row["Amount_A"] or row["Amount_B"]
   * raises KeyError when the merged table lacks that column; otherwise every
   * row gets a Status cell that is one of the two labels, the Match label
   * exactly when the two amounts have the same text, and nothing else in the
   * row changes. An existing Status column is overwritten in place.
   */
  function AddStatus(t: Table, toText: Cell -> string): (res: Result<Table, Exception>)
    ensures res.Failure? <==> AmountA !in t.columns || AmountB !in t.columns
    ensures res.Failure? ==> res.error.KeyError?
    ensures res.Success? ==>
      && res.value.columns == (if StatusColumn in t.columns then t.columns else t.columns + [StatusColumn])
      && |res.value.rows| == |t.rows|
      && (forall i :: 0 <= i < |t.rows| ==>
            Get(res.value.rows[i], StatusColumn) == Text(MatchLabel) || Get(res.value.rows[i], StatusColumn) == Text(MismatchLabel))
      && (forall i :: 0 <= i < |t.rows| ==>
            (Get(res.value.rows[i], StatusColumn) == Text(MatchLabel) <==>
             toText(Get(t.rows[i], AmountA)) == toText(Get(t.rows[i], AmountB))))
      && (forall i, c :: 0 <= i < |t.rows| && c != StatusColumn ==> Get(res.value.rows[i], c) == Get(t.rows[i], c))
      && (forall i :: 0 <= i < |t.rows| ==> res.value.rows[i].Keys == t.rows[i].Keys + {StatusColumn})
    ensures res.Success? && Valid(t) ==> Valid(res.value)
  {
    if AmountA !in t.columns then Failure(KeyError(AmountA))
    else if AmountB !in t.columns then Failure(KeyError(AmountB))
    else
      var rows := seq(|t.rows|, i requires 0 <= i < |t.rows| =>
        t.rows[i][StatusColumn := Text(Label(Classify(t.rows[i], toText)))]);
      Success(Table(if StatusColumn in t.columns then t.columns else t.columns + [StatusColumn], rows))
  }

  /**
   * The merge followed by the Status column: the reconciliation report. A
   * missing ID is the merge's KeyError; a report keeps every left row, is a
   * well-formed table with a Status column, and labels every row with one of
   * the two verdicts.
   */
  function Reconcile(left: Table, right: Table, toText: Cell -> string): (r: Result<Table, Exception>)
    ensures Key !in left.columns || Key !in right.columns ==> r == Failure(KeyError(Key))
    ensures r.Success? ==>
      && |r.value.rows| >= |left.rows|
      && Valid(r.value)
      && StatusColumn in r.value.columns
      && forall row :: row in r.value.rows ==>
           Get(row, StatusColumn) == Text(MatchLabel) || Get(row, StatusColumn) == Text(MismatchLabel)
  {
    match MergeFrames(left, right)
    case Failure(e) => Failure(e)
    case Success(merged) => AddStatus(merged, toText)
  }

  /** The Amount of a side's row for some key, missing when that side lacks the key. */
  function AmountOf(r: Option<Row>): Cell
  {
    if r.Some? then Get(r.value, Amount) else Null
  }

  /** The two Amount columns of the merged table read the two sides' Amount. */
  lemma AmountColumns(lcols: seq<string>, rcols: seq<string>)
    requires Amount in lcols && Amount in rcols
    ensures OutColumn(AmountA, FromLeft(Amount)) in Layout(lcols, rcols)
    ensures OutColumn(AmountB, FromRight(Amount)) in Layout(lcols, rcols)
  {
    LayoutSpec(lcols, rcols);
    assert Amount + SuffixA == AmountA;
    assert Amount + SuffixB == AmountB;
  }

  lemma CombineAt(lay: seq<OutColumn>, oc: OutColumn, k: Cell, l: Option<Row>, r: Option<Row>)
    requires Distinct(Names(lay)) && oc in lay
    ensures Get(Combine(lay, k, l, r), oc.name) == Fetch(oc.src, k, l, r)
  {
    var i :| 0 <= i < |lay| && lay[i] == oc;
  }

  /** Each joined row's Amount_A and Amount_B are the two sides' Amount for its key. */
  lemma JoinedAmounts(lay: seq<OutColumn>, ls: seq<Row>, rs: seq<Row>)
    requires LayoutOk(lay) && UniqueKeys(ls) && UniqueKeys(rs)
    requires OutColumn(AmountA, FromLeft(Amount)) in lay && OutColumn(AmountB, FromRight(Amount)) in lay
    ensures forall i :: 0 <= i < |OuterJoin(lay, ls, rs)| ==>
      var row := OuterJoin(lay, ls, rs)[i];
      Get(row, AmountA) == AmountOf(Lookup(ls, KeyOf(row))) && Get(row, AmountB) == AmountOf(Lookup(rs, KeyOf(row)))
  {
    var joined := OuterJoin(lay, ls, rs);
    OuterJoinOneRowPerKey(lay, ls, rs);
    forall i | 0 <= i < |joined|
      ensures Get(joined[i], AmountA) == AmountOf(Lookup(ls, KeyOf(joined[i])))
      ensures Get(joined[i], AmountB) == AmountOf(Lookup(rs, KeyOf(joined[i])))
    {
      var k := KeyOf(joined[i]);
      var l, r := Lookup(ls, k), Lookup(rs, k);
      CombineAt(lay, OutColumn(AmountA, FromLeft(Amount)), k, l, r);
      CombineAt(lay, OutColumn(AmountB, FromRight(Amount)), k, l, r);
    }
  }

  /** When both sides have an Amount column, the merged table has Amount_A and Amount_B. */
  lemma MergedHasAmounts(left: Table, right: Table)
    requires Amount in left.columns && Amount in right.columns
    requires MergeFrames(left, right).Success?
    ensures AmountA in MergeFrames(left, right).value.columns
    ensures AmountB in MergeFrames(left, right).value.columns
  {
    var lay := Layout(left.columns, right.columns);
    AmountColumns(left.columns, right.columns);
    var i :| 0 <= i < |lay| && lay[i] == OutColumn(AmountA, FromLeft(Amount));
    assert Names(lay)[i] == AmountA;
    var j :| 0 <= j < |lay| && lay[j] == OutColumn(AmountB, FromRight(Amount));
    assert Names(lay)[j] == AmountB;
  }

  /**
   * With unique keys on each side and an Amount column on each side, the
   * report succeeds whenever the merge's labels do not collide; it holds
   * exactly one row per key present in either table, and the Status of the
   * row for key k is Match exactly when the text of the left Amount for k
   * equals the text of the right Amount for k, a side lacking k reading as
   * missing.
   */
  lemma ReconcileOneVerdictPerKey(left: Table, right: Table, toText: Cell -> string)
    requires Key in left.columns && Key in right.columns
    requires Amount in left.columns && Amount in right.columns
    requires Distinct(Names(Layout(left.columns, right.columns)))
    requires UniqueKeys(left.rows) && UniqueKeys(right.rows)
    ensures Reconcile(left, right, toText).Success?
    ensures UniqueKeys(Reconcile(left, right, toText).value.rows)
    ensures forall k :: k in KeysOf(Reconcile(left, right, toText).value.rows) <==>
      k in KeysOf(left.rows) || k in KeysOf(right.rows)
    ensures forall i :: 0 <= i < |Reconcile(left, right, toText).value.rows| ==>
      var row := Reconcile(left, right, toText).value.rows[i];
      var k := KeyOf(row);
      Get(row, StatusColumn) == Text(Label(
        if toText(AmountOf(Lookup(left.rows, k))) == toText(AmountOf(Lookup(right.rows, k))) then Match else Mismatch))
  {
    var lay := Layout(left.columns, right.columns);
    AmountColumns(left.columns, right.columns);
    var joined := OuterJoin(lay, left.rows, right.rows);
    assert MergeFrames(left, right).value.rows == joined;
    MergedHasAmounts(left, right);
    OuterJoinOneRowPerKey(lay, left.rows, right.rows);
    JoinedAmounts(lay, left.rows, right.rows);
    var out := Reconcile(left, right, toText).value.rows;
    assert |out| == |joined|;
    forall i | 0 <= i < |out|
      ensures KeyOf(out[i]) == KeyOf(joined[i])
    {
      assert Key != StatusColumn;
    }
    assert KeysOf(out) == KeysOf(joined);
  }

  /** The same verdict rule read off the Status cell: Match label exactly when the two Amount texts agree. */
  lemma ReconcileMatchIff(left: Table, right: Table, toText: Cell -> string)
    requires Key in left.columns && Key in right.columns
    requires Amount in left.columns && Amount in right.columns
    requires Distinct(Names(Layout(left.columns, right.columns)))
    requires UniqueKeys(left.rows) && UniqueKeys(right.rows)
    ensures Reconcile(left, right, toText).Success?
    ensures forall row :: row in Reconcile(left, right, toText).value.rows ==>
      (Get(row, StatusColumn) == Text(MatchLabel) <==>
       toText(AmountOf(Lookup(left.rows, KeyOf(row)))) == toText(AmountOf(Lookup(right.rows, KeyOf(row)))))
  {
    ReconcileOneVerdictPerKey(left, right, toText);
    var out := Reconcile(left, right, toText).value.rows;
    forall row | row in out
      ensures Get(row, StatusColumn) == Text(MatchLabel) <==>
        toText(AmountOf(Lookup(left.rows, KeyOf(row)))) == toText(AmountOf(Lookup(right.rows, KeyOf(row))))
    {
      var i :| 0 <= i < |out| && out[i] == row;
      assert MatchLabel != MismatchLabel;
    }
  }

  /**
   * A key only the left table has is a Mismatch exactly when the text of its
   * Amount differs from the text of a missing cell; the same holds for the
   * right side.
   */
  lemma UnmatchedKeyVerdict(left: Table, right: Table, toText: Cell -> string)
    requires Key in left.columns && Key in right.columns
    requires Amount in left.columns && Amount in right.columns
    requires Distinct(Names(Layout(left.columns, right.columns)))
    requires UniqueKeys(left.rows) && UniqueKeys(right.rows)
    ensures Reconcile(left, right, toText).Success?
    ensures forall row :: row in Reconcile(left, right, toText).value.rows && KeyOf(row) !in KeysOf(right.rows) ==>
      (Get(row, StatusColumn) == Text(MismatchLabel) <==>
       toText(AmountOf(Lookup(left.rows, KeyOf(row)))) != toText(Null))
    ensures forall row :: row in Reconcile(left, right, toText).value.rows && KeyOf(row) !in KeysOf(left.rows) ==>
      (Get(row, StatusColumn) == Text(MismatchLabel) <==>
       toText(AmountOf(Lookup(right.rows, KeyOf(row)))) != toText(Null))
  {
    ReconcileOneVerdictPerKey(left, right, toText);
    var out := Reconcile(left, right, toText).value.rows;
    forall row | row in out
      ensures KeyOf(row) !in KeysOf(right.rows) ==>
        (Get(row, StatusColumn) == Text(MismatchLabel) <==> toText(AmountOf(Lookup(left.rows, KeyOf(row)))) != toText(Null))
      ensures KeyOf(row) !in KeysOf(left.rows) ==>
        (Get(row, StatusColumn) == Text(MismatchLabel) <==> toText(AmountOf(Lookup(right.rows, KeyOf(row)))) != toText(Null))
    {
      var i :| 0 <= i < |out| && out[i] == row;
      var k := KeyOf(row);
      var l, r := Lookup(left.rows, k), Lookup(right.rows, k);
      assert Get(row, StatusColumn) == Text(Label(if toText(AmountOf(l)) == toText(AmountOf(r)) then Match else Mismatch));
      LookupSpec(left.rows, k);
      LookupSpec(right.rows, k);
    }
  }

  // ---------------------------------------------------------------------
  // Python's str on the cells

  function DigitChar(d: nat): char
    requires d < 10
  {
    "0123456789"[d]
  }

  function NatText(n: nat): string
  {
    if n < 10 then [DigitChar(n)] else NatText(n / 10) + [DigitChar(n % 10)]
  }

  /** str(x): a string as itself, an integer in decimal, a missing value (NaN) as "nan". */
  function PyStr(c: Cell): string
  {
    match c
    case Text(s) => s
    case Num(n) => if n < 0 then "-" + NatText(-n) else NatText(n)
    case Null => "nan"
  }

  /** The number 5 and the string "5" have the same text, so they match. */
  lemma NumberMatchesItsText()
    ensures Classify(map[AmountA := Text("5"), AmountB := Num(5)], PyStr) == Match
    ensures Classify(map[AmountA := Num(5), AmountB := Num(6)], PyStr) == Mismatch
    ensures Classify(map[AmountA := Num(-12), AmountB := Text("-12")], PyStr) == Match
  {
    assert PyStr(Num(5)) == "5";
    assert PyStr(Num(6)) == "6";
    assert NatText(12) == "12";
  }

  /**
   * A row missing on one side reads NaN there: a Mismatch against a present
   * amount, but a Match when the other side's amount is also missing.
   */
  lemma MissingAmountVerdicts()
    ensures Classify(map[AmountA := Num(5)], PyStr) == Mismatch
    ensures Classify(map[AmountB := Text("5")], PyStr) == Mismatch
    ensures Classify(map[AmountA := Null], PyStr) == Match
  {
    assert PyStr(Num(5)) == "5";
  }

  /** The merged columns of two tables with columns ID and Amount. */
  lemma ExampleLayout()
    ensures Layout([Key, Amount], [Key, Amount])
      == [OutColumn(Key, FromKey), OutColumn(AmountA, FromLeft(Amount)), OutColumn(AmountB, FromRight(Amount))]
    ensures Names(Layout([Key, Amount], [Key, Amount])) == [Key, AmountA, AmountB]
  {
    assert Amount != Key && Amount in [Key, Amount];
    assert Amount + SuffixA == AmountA && Amount + SuffixB == AmountB;
    assert LeftOut(Key, [Key, Amount]) == OutColumn(Key, FromKey);
    assert LeftOut(Amount, [Key, Amount]) == OutColumn(AmountA, FromLeft(Amount));
    assert [Key, Amount][1..] == [Amount] && [Amount][1..] == [];
    assert RightOut([Amount], [Key, Amount]) == [OutColumn(AmountB, FromRight(Amount))];
    assert RightOut([Key, Amount], [Key, Amount]) == [OutColumn(AmountB, FromRight(Amount))];
  }

  /** A merged row of the example layout holds its key and the two sides' Amount. */
  lemma ExampleCells(k: Cell, l: Option<Row>, r: Option<Row>)
    ensures LayoutOk(Layout([Key, Amount], [Key, Amount]))
    ensures var row := Combine(Layout([Key, Amount], [Key, Amount]), k, l, r);
      KeyOf(row) == k && Get(row, AmountA) == AmountOf(l) && Get(row, AmountB) == AmountOf(r)
  {
    ExampleLayout();
    var lay := Layout([Key, Amount], [Key, Amount]);
    assert Key != AmountA && Key != AmountB && AmountA != AmountB;
    assert Distinct(Names(lay));
    CombineKey(lay, k, l, r);
    CombineAt(lay, OutColumn(AmountA, FromLeft(Amount)), k, l, r);
    CombineAt(lay, OutColumn(AmountB, FromRight(Amount)), k, l, r);
  }

  /**
   * Reconciling a successful merge that has both Amount columns labels each
   * merged row, in place and in order, from its own two amounts.
   */
  lemma ReconcileRows(left: Table, right: Table, toText: Cell -> string)
    requires MergeFrames(left, right).Success?
    requires AmountA in MergeFrames(left, right).value.columns && AmountB in MergeFrames(left, right).value.columns
    ensures Reconcile(left, right, toText).Success?
    ensures var m, out := MergeFrames(left, right).value.rows, Reconcile(left, right, toText).value.rows;
      && |out| == |m|
      && forall i :: 0 <= i < |m| ==>
           && KeyOf(out[i]) == KeyOf(m[i])
           && (Get(out[i], StatusColumn) == Text(MatchLabel) || Get(out[i], StatusColumn) == Text(MismatchLabel))
           && (Get(out[i], StatusColumn) == Text(MatchLabel) <==> toText(Get(m[i], AmountA)) == toText(Get(m[i], AmountB)))
  {
    assert Key != StatusColumn;
  }

  /** Python's str of the number 5 is "5", which is not the text of a missing cell. */
  lemma FiveText()
    ensures PyStr(Num(5)) == "5" != PyStr(Null)
  {
    assert NatText(5) == "5";
  }

  /** The outer join of a row with ID 1 and a row with ID 2: the left-only row, then the right-only row. */
  lemma DisjointKeysJoin(l0: Row, r0: Row)
    requires KeyOf(l0) == Num(1) && KeyOf(r0) == Num(2)
    ensures LayoutOk(Layout([Key, Amount], [Key, Amount]))
    ensures var lay := Layout([Key, Amount], [Key, Amount]);
      OuterJoin(lay, [l0], [r0]) == [Combine(lay, Num(1), Some(l0), None), Combine(lay, Num(2), None, Some(r0))]
  {
    ExampleCells(Num(1), Some(l0), None);
    var lay := Layout([Key, Amount], [Key, Amount]);
    var row1 := Combine(lay, Num(1), Some(l0), None);
    var row2 := Combine(lay, Num(2), None, Some(r0));
    assert [r0][1..] == [] && [l0][1..] == [];
    assert Partners([r0], Num(1)) == [];
    assert LeftJoin(lay, [l0], [r0]) == [row1];
    assert KeysOf([l0]) == [Num(1)];
    assert RightOnly(lay, [r0], [Num(1)]) == [row2];
  }

  /**
   * Two one-row tables with columns ID and Amount and keys 1 and 2 merge to
   * ID, Amount_A, Amount_B and two rows: ID 1 with the left Amount and a
   * missing right one, then ID 2 with a missing left Amount and the right one.
   */
  lemma DisjointKeysMerge(left: Table, right: Table)
    requires left.columns == [Key, Amount] && right.columns == [Key, Amount]
    requires |left.rows| == 1 && |right.rows| == 1
    requires KeyOf(left.rows[0]) == Num(1) && KeyOf(right.rows[0]) == Num(2)
    ensures MergeFrames(left, right).Success?
    ensures var m := MergeFrames(left, right).value;
      && m.columns == [Key, AmountA, AmountB] && |m.rows| == 2
      && KeyOf(m.rows[0]) == Num(1) && Get(m.rows[0], AmountA) == Get(left.rows[0], Amount) && Get(m.rows[0], AmountB) == Null
      && KeyOf(m.rows[1]) == Num(2) && Get(m.rows[1], AmountA) == Null && Get(m.rows[1], AmountB) == Get(right.rows[0], Amount)
  {
    ExampleLayout();
    var l0, r0 := left.rows[0], right.rows[0];
    assert left.rows == [l0] && right.rows == [r0];
    DisjointKeysJoin(l0, r0);
    ExampleCells(Num(1), Some(l0), None);
    ExampleCells(Num(2), None, Some(r0));
    assert Key in left.columns && Key in right.columns;
  }

  /**
   * A left table whose one row has ID 1 and amount 5 and a right table whose
   * one row has ID 2 and amount 5, both with columns ID and Amount: the
   * report has two rows, keys 1 and 2, and both are Mismatches because each
   * meets a missing cell on the other side.
   */
  lemma DisjointKeysExample(left: Table, right: Table)
    requires left.columns == [Key, Amount] && right.columns == [Key, Amount]
    requires |left.rows| == 1 && |right.rows| == 1
    requires KeyOf(left.rows[0]) == Num(1) && Get(left.rows[0], Amount) == Num(5)
    requires KeyOf(right.rows[0]) == Num(2) && Get(right.rows[0], Amount) == Num(5)
    ensures Reconcile(left, right, PyStr).Success?
    ensures var out := Reconcile(left, right, PyStr).value.rows;
      && |out| == 2
      && KeyOf(out[0]) == Num(1) && KeyOf(out[1]) == Num(2)
      && Get(out[0], StatusColumn) == Text(MismatchLabel)
      && Get(out[1], StatusColumn) == Text(MismatchLabel)
  {
    FiveText();
    DisjointKeysMerge(left, right);
    ReconcileRows(left, right, PyStr);
  }

  /** The outer join of two rows with ID 1: one row combining both. */
  lemma SameKeyJoin(l0: Row, r0: Row)
    requires KeyOf(l0) == Num(1) && KeyOf(r0) == Num(1)
    ensures LayoutOk(Layout([Key, Amount], [Key, Amount]))
    ensures var lay := Layout([Key, Amount], [Key, Amount]);
      OuterJoin(lay, [l0], [r0]) == [Combine(lay, Num(1), Some(l0), Some(r0))]
  {
    ExampleCells(Num(1), Some(l0), Some(r0));
    var lay := Layout([Key, Amount], [Key, Amount]);
    var row := Combine(lay, Num(1), Some(l0), Some(r0));
    assert [r0][1..] == [] && [l0][1..] == [];
    assert Partners([r0], Num(1)) == [r0];
    assert LeftJoin(lay, [l0], [r0]) == [row];
    assert KeysOf([l0]) == [Num(1)];
    assert RightOnly(lay, [r0], [Num(1)]) == [];
  }

  /**
   * Two one-row tables with columns ID and Amount and the same key merge to
   * ID, Amount_A, Amount_B and one row holding both sides' Amount.
   */
  lemma SameKeyMerge(left: Table, right: Table)
    requires left.columns == [Key, Amount] && right.columns == [Key, Amount]
    requires |left.rows| == 1 && |right.rows| == 1
    requires KeyOf(left.rows[0]) == Num(1) && KeyOf(right.rows[0]) == Num(1)
    ensures MergeFrames(left, right).Success?
    ensures var m := MergeFrames(left, right).value;
      && m.columns == [Key, AmountA, AmountB] && |m.rows| == 1
      && KeyOf(m.rows[0]) == Num(1)
      && Get(m.rows[0], AmountA) == Get(left.rows[0], Amount) && Get(m.rows[0], AmountB) == Get(right.rows[0], Amount)
  {
    ExampleLayout();
    var l0, r0 := left.rows[0], right.rows[0];
    assert left.rows == [l0] && right.rows == [r0];
    SameKeyJoin(l0, r0);
    ExampleCells(Num(1), Some(l0), Some(r0));
    assert Key in left.columns && Key in right.columns;
  }

  /**
   * A left table whose one row has ID 1 and the text "5" and a right table
   * whose one row has ID 1 and the number 5: the report has the one row for
   * that key, and it is a Match because both amounts read "5".
   */
  lemma SameKeyExample(left: Table, right: Table)
    requires left.columns == [Key, Amount] && right.columns == [Key, Amount]
    requires |left.rows| == 1 && |right.rows| == 1
    requires KeyOf(left.rows[0]) == Num(1) && Get(left.rows[0], Amount) == Text("5")
    requires KeyOf(right.rows[0]) == Num(1) && Get(right.rows[0], Amount) == Num(5)
    ensures Reconcile(left, right, PyStr).Success?
    ensures var out := Reconcile(left, right, PyStr).value.rows;
      && |out| == 1
      && KeyOf(out[0]) == Num(1)
      && Get(out[0], StatusColumn) == Text(MatchLabel)
  {
    FiveText();
    SameKeyMerge(left, right);
    ReconcileRows(left, right, PyStr);
  }
}
