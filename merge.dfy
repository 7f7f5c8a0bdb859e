/**
 * df1.merge(df2, on="ID", suffixes=("_A", "_B"), how="outer"): a full outer
 * join of two tables on the key column "ID". Non-key columns that both
 * tables have are renamed with "_A" (left) and "_B" (right); the others keep
 * their names. Every left row is paired with every right row that has the
 * same key, a left row without partner is kept with missing right cells,
 * and a right row whose key the left table lacks is kept with missing left
 * cells.
 */
module Merge {
  import opened Wrappers
  import opened Frames

  const Key := "ID"
  const SuffixA := "_A"
  const SuffixB := "_B"
  const DuplicateColumnsMessage := "Passing 'suffixes' which cause duplicate columns is not allowed."

  // ---------------------------------------------------------------------
  // Column layout of the merged table

  /** Where a merged column takes its cell from. */
  datatype Source = FromKey | FromLeft(col: string) | FromRight(col: string)

  datatype OutColumn = OutColumn(name: string, src: Source)

  /** A left column keeps its place; the key stays unsuffixed, a shared column gets "_A". */
  function LeftOut(c: string, rcols: seq<string>): OutColumn
  {
    if c == Key then OutColumn(Key, FromKey)
    else if c in rcols then OutColumn(c + SuffixA, FromLeft(c))
    else OutColumn(c, FromLeft(c))
  }

  /** The right columns other than the key, in order; a shared column gets "_B". */
  function RightOut(rcols: seq<string>, lcols: seq<string>): seq<OutColumn>
  {
    if rcols == [] then []
    else
      var c := rcols[0];
      (if c == Key then [] else [OutColumn(if c in lcols then c + SuffixB else c, FromRight(c))])
      + RightOut(rcols[1..], lcols)
  }

  /** The left columns, then the right columns other than the key. */
  function Layout(lcols: seq<string>, rcols: seq<string>): (lay: seq<OutColumn>)
    ensures |lay| >= |lcols|
    ensures forall i :: 0 <= i < |lcols| ==>
      lay[i].src == (if lcols[i] == Key then FromKey else FromLeft(lcols[i]))
  {
    seq(|lcols|, i requires 0 <= i < |lcols| => LeftOut(lcols[i], rcols)) + RightOut(rcols, lcols)
  }

  function Names(lay: seq<OutColumn>): seq<string>
  {
    seq(|lay|, i requires 0 <= i < |lay| => lay[i].name)
  }

  /** The merged table has unique labels and an unsuffixed key column fed by the join key. */
  predicate LayoutOk(lay: seq<OutColumn>)
  {
    Distinct(Names(lay)) && OutColumn(Key, FromKey) in lay
  }

  lemma {:induction false} RightOutSpec(rcols: seq<string>, lcols: seq<string>)
    ensures forall c :: c in rcols && c != Key ==>
      OutColumn(if c in lcols then c + SuffixB else c, FromRight(c)) in RightOut(rcols, lcols)
    ensures forall oc :: oc in RightOut(rcols, lcols) ==>
      oc.src.FromRight? && oc.src.col in rcols && oc.src.col != Key &&
      oc.name == (if oc.src.col in lcols then oc.src.col + SuffixB else oc.src.col)
  {
    if rcols != [] {
      RightOutSpec(rcols[1..], lcols);
      assert rcols == [rcols[0]] + rcols[1..];
    }
  }

  /**
   * Column naming: the key keeps its name, every non-key column present on
   * both sides is renamed with "_A" on the left and "_B" on the right, every
   * other column keeps its name, and no column comes from anywhere else.
   */
  lemma LayoutSpec(lcols: seq<string>, rcols: seq<string>)
    ensures Key in lcols ==> OutColumn(Key, FromKey) in Layout(lcols, rcols)
    ensures forall c :: c in lcols && c != Key ==>
      OutColumn(if c in rcols then c + SuffixA else c, FromLeft(c)) in Layout(lcols, rcols)
    ensures forall c :: c in rcols && c != Key ==>
      OutColumn(if c in lcols then c + SuffixB else c, FromRight(c)) in Layout(lcols, rcols)
    ensures forall oc :: oc in Layout(lcols, rcols) ==>
      || oc == OutColumn(Key, FromKey)
      || (oc.src.FromLeft? && oc.src.col in lcols && oc.src.col != Key &&
          oc.name == (if oc.src.col in rcols then oc.src.col + SuffixA else oc.src.col))
      || (oc.src.FromRight? && oc.src.col in rcols && oc.src.col != Key &&
          oc.name == (if oc.src.col in lcols then oc.src.col + SuffixB else oc.src.col))
  {
    RightOutSpec(rcols, lcols);
    var lay := Layout(lcols, rcols);
    forall c | c in lcols
      ensures LeftOut(c, rcols) in lay
    {
      var i :| 0 <= i < |lcols| && lcols[i] == c;
      assert lay[i] == LeftOut(c, rcols);
    }
  }

  // ---------------------------------------------------------------------
  // Rows of the merged table

  function KeyOf(r: Row): Cell
  {
    Get(r, Key)
  }

  function KeysOf(rs: seq<Row>): seq<Cell>
  {
    seq(|rs|, i requires 0 <= i < |rs| => KeyOf(rs[i]))
  }

  /** No key value appears twice in the rows. */
  predicate UniqueKeys(rs: seq<Row>)
  {
    Distinct(KeysOf(rs))
  }

  /** The first row with key k, if any. */
  function Lookup(rs: seq<Row>, k: Cell): Option<Row>
  {
    if rs == [] then None
    else if KeyOf(rs[0]) == k then Some(rs[0])
    else Lookup(rs[1..], k)
  }

  function Fetch(src: Source, k: Cell, l: Option<Row>, r: Option<Row>): Cell
  {
    match src
    case FromKey => k
    case FromLeft(c) => if l.Some? then Get(l.value, c) else Null
    case FromRight(c) => if r.Some? then Get(r.value, c) else Null
  }

  /** The source of the first merged column called c. */
  function SourceOf(lay: seq<OutColumn>, c: string): Source
  {
    if lay == [] then FromKey
    else if lay[0].name == c then lay[0].src
    else SourceOf(lay[1..], c)
  }

  lemma {:induction false} SourceOfAt(lay: seq<OutColumn>, i: nat)
    requires Distinct(Names(lay)) && i < |lay|
    ensures SourceOf(lay, lay[i].name) == lay[i].src
  {
    if i > 0 {
      assert Names(lay)[0] != Names(lay)[i];
      assert Names(lay[1..]) == Names(lay)[1..];
      SourceOfAt(lay[1..], i - 1);
    }
  }

  /** The merged row for key k from a left row and a right row, either possibly absent. */
  function Combine(lay: seq<OutColumn>, k: Cell, l: Option<Row>, r: Option<Row>): (row: Row)
    requires Distinct(Names(lay))
    ensures forall i :: 0 <= i < |lay| ==> lay[i].name in row && row[lay[i].name] == Fetch(lay[i].src, k, l, r)
    ensures row.Keys == set c | c in Names(lay)
  {
    var row := map c | c in Names(lay) :: Fetch(SourceOf(lay, c), k, l, r);
    forall i | 0 <= i < |lay|
      ensures lay[i].name in row && row[lay[i].name] == Fetch(lay[i].src, k, l, r)
    {
      assert Names(lay)[i] == lay[i].name;
      SourceOfAt(lay, i);
    }
    row
  }

  /** The rows of rs whose key is k, in order. */
  function Partners(rs: seq<Row>, k: Cell): seq<Row>
  {
    if rs == [] then []
    else (if KeyOf(rs[0]) == k then [rs[0]] else []) + Partners(rs[1..], k)
  }

  function Pair(lay: seq<OutColumn>, l: Row, ms: seq<Row>): seq<Row>
    requires Distinct(Names(lay))
  {
    seq(|ms|, i requires 0 <= i < |ms| => Combine(lay, KeyOf(l), Some(l), Some(ms[i])))
  }

  /** Each left row, in order, with each of its partners or, lacking any, alone. */
  function LeftJoin(lay: seq<OutColumn>, ls: seq<Row>, rs: seq<Row>): seq<Row>
    requires Distinct(Names(lay))
  {
    if ls == [] then []
    else
      var ms := Partners(rs, KeyOf(ls[0]));
      (if ms == [] then [Combine(lay, KeyOf(ls[0]), Some(ls[0]), None)] else Pair(lay, ls[0], ms))
      + LeftJoin(lay, ls[1..], rs)
  }

  /** The right rows whose key is not among the left keys, alone. */
  function RightOnly(lay: seq<OutColumn>, rs: seq<Row>, lkeys: seq<Cell>): seq<Row>
    requires Distinct(Names(lay))
  {
    if rs == [] then []
    else
      (if KeyOf(rs[0]) in lkeys then [] else [Combine(lay, KeyOf(rs[0]), None, Some(rs[0]))])
      + RightOnly(lay, rs[1..], lkeys)
  }

  /**
   * how="outer": the left join, then the right rows no left row matched.
   * Every left row yields a row.
   */
  function OuterJoin(lay: seq<OutColumn>, ls: seq<Row>, rs: seq<Row>): (rows: seq<Row>)
    requires Distinct(Names(lay))
    ensures |rows| >= |ls|
  {
    LeftJoinCoversLeft(lay, ls, rs);
    LeftJoin(lay, ls, rs) + RightOnly(lay, rs, KeysOf(ls))
  }

  /** Every row of the outer join holds exactly the merged labels. */
  lemma OuterJoinLabels(lay: seq<OutColumn>, ls: seq<Row>, rs: seq<Row>)
    requires Distinct(Names(lay))
    ensures forall row :: row in OuterJoin(lay, ls, rs) ==> row.Keys == set c | c in Names(lay)
  {
    LeftJoinLabels(lay, ls, rs);
    RightOnlyLabels(lay, rs, KeysOf(ls));
  }

  /**
   * The merge: a KeyError when either table lacks "ID", the duplicate-label
   * error whenever the suffixed labels collide, else the joined table, whose
   * labels are distinct and whose rows each hold exactly those labels.
   */
  function MergeFrames(left: Table, right: Table): (res: Result<Table, Exception>)
    ensures res == Failure(KeyError(Key)) <==> Key !in left.columns || Key !in right.columns
    ensures res.Success? ==> LayoutOk(Layout(left.columns, right.columns))
    ensures res.Success? ==> res.value.columns == Names(Layout(left.columns, right.columns))
    ensures res.Success? ==> |res.value.rows| >= |left.rows|
    ensures res.Success? ==> Valid(res.value)
  {
    if Key !in left.columns || Key !in right.columns then Failure(KeyError(Key))
    else
      var lay := Layout(left.columns, right.columns);
      LayoutSpec(left.columns, right.columns);
      if !Distinct(Names(lay)) then Failure(Error(DuplicateColumnsMessage))
      else
        OuterJoinLabels(lay, left.rows, right.rows);
        Success(Table(Names(lay), OuterJoin(lay, left.rows, right.rows)))
  }

  lemma {:induction false} LeftJoinLabels(lay: seq<OutColumn>, ls: seq<Row>, rs: seq<Row>)
    requires Distinct(Names(lay))
    ensures forall row :: row in LeftJoin(lay, ls, rs) ==> row.Keys == set c | c in Names(lay)
  {
    if ls != [] {
      LeftJoinLabels(lay, ls[1..], rs);
    }
  }

  lemma {:induction false} RightOnlyLabels(lay: seq<OutColumn>, rs: seq<Row>, lkeys: seq<Cell>)
    requires Distinct(Names(lay))
    ensures forall row :: row in RightOnly(lay, rs, lkeys) ==> row.Keys == set c | c in Names(lay)
  {
    if rs != [] {
      RightOnlyLabels(lay, rs[1..], lkeys);
    }
  }

  lemma {:induction false} LeftJoinCoversLeft(lay: seq<OutColumn>, ls: seq<Row>, rs: seq<Row>)
    requires Distinct(Names(lay))
    ensures |LeftJoin(lay, ls, rs)| >= |ls|
  {
    if ls != [] {
      LeftJoinCoversLeft(lay, ls[1..], rs);
    }
  }

  // ---------------------------------------------------------------------
  // The join with unique keys: one row per key

  /** The cells of s that are not in excl, in order. */
  function Without(s: seq<Cell>, excl: seq<Cell>): seq<Cell>
  {
    if s == [] then []
    else (if s[0] in excl then [] else [s[0]]) + Without(s[1..], excl)
  }

  lemma {:induction false} WithoutSpec(s: seq<Cell>, excl: seq<Cell>)
    ensures forall x :: x in Without(s, excl) <==> x in s && x !in excl
    ensures Distinct(s) ==> Distinct(Without(s, excl))
  {
    if s != [] {
      WithoutSpec(s[1..], excl);
      assert s == [s[0]] + s[1..];
      if Distinct(s) {
        DistinctCons(s[0], s[1..]);
        DistinctCons(s[0], Without(s[1..], excl));
      }
    }
  }

  lemma DistinctCons<T>(x: T, s: seq<T>)
    ensures Distinct([x] + s) <==> x !in s && Distinct(s)
  {
    var t := [x] + s;
    if x !in s && Distinct(s) {
      forall i, j | 0 <= i < j < |t| ensures t[i] != t[j] {
        if i > 0 {
          assert t[i] == s[i - 1] && t[j] == s[j - 1];
        } else {
          assert t[j] == s[j - 1];
        }
      }
    }
    if Distinct(t) {
      forall i, j | 0 <= i < j < |s| ensures s[i] != s[j] {
        assert s[i] == t[i + 1] && s[j] == t[j + 1];
      }
      forall j | 0 <= j < |s| ensures s[j] != x {
        assert t[0] == x && t[j + 1] == s[j];
      }
    }
  }

  lemma DistinctAppend<T>(a: seq<T>, b: seq<T>)
    requires Distinct(a) && Distinct(b)
    requires forall x :: x in a ==> x !in b
    ensures Distinct(a + b)
  {
    var t := a + b;
    forall i, j | 0 <= i < j < |t| ensures t[i] != t[j] {
      if j < |a| {
        assert t[i] == a[i] && t[j] == a[j];
      } else if i >= |a| {
        assert t[i] == b[i - |a|] && t[j] == b[j - |a|];
      } else {
        assert t[i] == a[i] && t[j] == b[j - |a|];
        assert a[i] in a && b[j - |a|] in b;
      }
    }
  }

  lemma KeysOfCons(rs: seq<Row>)
    requires rs != []
    ensures KeysOf(rs) == [KeyOf(rs[0])] + KeysOf(rs[1..])
  {
  }

  lemma KeysOfAppend(a: seq<Row>, b: seq<Row>)
    ensures KeysOf(a + b) == KeysOf(a) + KeysOf(b)
  {
  }

  /** Lookup finds a row exactly for the keys present, and the row it finds has that key. */
  lemma {:induction false} LookupSpec(rs: seq<Row>, k: Cell)
    ensures Lookup(rs, k).None? <==> k !in KeysOf(rs)
    ensures Lookup(rs, k).Some? ==> Lookup(rs, k).value in rs && KeyOf(Lookup(rs, k).value) == k
  {
    if rs != [] {
      KeysOfCons(rs);
      LookupSpec(rs[1..], k);
    }
  }

  /** With unique keys, looking up a row's key finds that very row. */
  lemma {:induction false} LookupAt(rs: seq<Row>, i: nat)
    requires UniqueKeys(rs) && i < |rs|
    ensures Lookup(rs, KeyOf(rs[i])) == Some(rs[i])
  {
    if i > 0 {
      KeysOfCons(rs);
      assert KeysOf(rs)[0] != KeysOf(rs)[i];
      DistinctCons(KeyOf(rs[0]), KeysOf(rs[1..]));
      LookupAt(rs[1..], i - 1);
    }
  }

  /** With unique keys, a key has at most one partner: the row Lookup finds. */
  lemma {:induction false} PartnersUnique(rs: seq<Row>, k: Cell)
    requires UniqueKeys(rs)
    ensures Partners(rs, k) == if Lookup(rs, k).Some? then [Lookup(rs, k).value] else []
  {
    if rs != [] {
      KeysOfCons(rs);
      DistinctCons(KeyOf(rs[0]), KeysOf(rs[1..]));
      PartnersUnique(rs[1..], k);
      if KeyOf(rs[0]) == k {
        LookupSpec(rs[1..], k);
      }
    }
  }

  /** The key column of a merged row holds the join key. */
  lemma CombineKey(lay: seq<OutColumn>, k: Cell, l: Option<Row>, r: Option<Row>)
    requires LayoutOk(lay)
    ensures KeyOf(Combine(lay, k, l, r)) == k
  {
    var i :| 0 <= i < |lay| && lay[i] == OutColumn(Key, FromKey);
  }

  lemma {:induction false} LeftJoinUnique(lay: seq<OutColumn>, ls: seq<Row>, rs: seq<Row>)
    requires Distinct(Names(lay)) && UniqueKeys(rs)
    ensures |LeftJoin(lay, ls, rs)| == |ls|
    ensures forall i :: 0 <= i < |ls| ==>
      LeftJoin(lay, ls, rs)[i] == Combine(lay, KeyOf(ls[i]), Some(ls[i]), Lookup(rs, KeyOf(ls[i])))
  {
    if ls != [] {
      LeftJoinUnique(lay, ls[1..], rs);
      LeftJoinHead(lay, ls, rs);
      forall i | 0 < i < |ls|
        ensures LeftJoin(lay, ls, rs)[i] == Combine(lay, KeyOf(ls[i]), Some(ls[i]), Lookup(rs, KeyOf(ls[i])))
      {
        assert ls[i] == ls[1..][i - 1];
      }
    }
  }

  /** With unique right keys, the first left row yields exactly one row, paired with its lookup. */
  lemma LeftJoinHead(lay: seq<OutColumn>, ls: seq<Row>, rs: seq<Row>)
    requires Distinct(Names(lay)) && UniqueKeys(rs) && ls != []
    ensures LeftJoin(lay, ls, rs)
      == [Combine(lay, KeyOf(ls[0]), Some(ls[0]), Lookup(rs, KeyOf(ls[0])))] + LeftJoin(lay, ls[1..], rs)
  {
    var k := KeyOf(ls[0]);
    PartnersUnique(rs, k);
    if Lookup(rs, k).Some? {
      assert Pair(lay, ls[0], [Lookup(rs, k).value]) == [Combine(lay, k, Some(ls[0]), Lookup(rs, k))];
    }
  }



  lemma {:induction false} RightOnlyKeys(lay: seq<OutColumn>, rs: seq<Row>, lkeys: seq<Cell>)
    requires LayoutOk(lay)
    ensures KeysOf(RightOnly(lay, rs, lkeys)) == Without(KeysOf(rs), lkeys)
  {
    if rs != [] {
      var k0 := KeyOf(rs[0]);
      KeysOfCons(rs);
      RightOnlyKeys(lay, rs[1..], lkeys);
      CombineKey(lay, k0, None, Some(rs[0]));
      var head := if k0 in lkeys then [] else [Combine(lay, k0, None, Some(rs[0]))];
      KeysOfAppend(head, RightOnly(lay, rs[1..], lkeys));
    }
  }

  lemma {:induction false} RightOnlyRows(lay: seq<OutColumn>, rs: seq<Row>, lkeys: seq<Cell>)
    requires LayoutOk(lay) && UniqueKeys(rs)
    ensures forall j :: 0 <= j < |RightOnly(lay, rs, lkeys)| ==>
      var row := RightOnly(lay, rs, lkeys)[j];
      row == Combine(lay, KeyOf(row), None, Lookup(rs, KeyOf(row)))
  {
    if rs != [] {
      var k0 := KeyOf(rs[0]);
      KeysOfCons(rs);
      DistinctCons(k0, KeysOf(rs[1..]));
      RightOnlyRows(lay, rs[1..], lkeys);
      RightOnlyKeys(lay, rs[1..], lkeys);
      WithoutSpec(KeysOf(rs[1..]), lkeys);
      CombineKey(lay, k0, None, Some(rs[0]));
      var head := if k0 in lkeys then [] else [Combine(lay, k0, None, Some(rs[0]))];
      var tail := RightOnly(lay, rs[1..], lkeys);
      forall j | 0 <= j < |tail|
        ensures tail[j] == Combine(lay, KeyOf(tail[j]), None, Lookup(rs, KeyOf(tail[j])))
      {
        assert KeysOf(tail)[j] == KeyOf(tail[j]);
      }
      assert RightOnly(lay, rs, lkeys) == head + tail;
    }
  }

  /**
   * With unique keys on each side, the outer join yields exactly one row per
   * key present in either input, no key dropped or repeated, and each row is
   * the combination of the left and the right row with that key, the side
   * lacking the key contributing missing cells.
   */
  lemma OuterJoinOneRowPerKey(lay: seq<OutColumn>, ls: seq<Row>, rs: seq<Row>)
    requires LayoutOk(lay) && UniqueKeys(ls) && UniqueKeys(rs)
    ensures UniqueKeys(OuterJoin(lay, ls, rs))
    ensures forall k :: k in KeysOf(OuterJoin(lay, ls, rs)) <==> k in KeysOf(ls) || k in KeysOf(rs)
    ensures forall i :: 0 <= i < |OuterJoin(lay, ls, rs)| ==>
      var row := OuterJoin(lay, ls, rs)[i];
      row == Combine(lay, KeyOf(row), Lookup(ls, KeyOf(row)), Lookup(rs, KeyOf(row)))
  {
    var left := LeftJoin(lay, ls, rs);
    var right := RightOnly(lay, rs, KeysOf(ls));
    LeftJoinUnique(lay, ls, rs);
    RightOnlyKeys(lay, rs, KeysOf(ls));
    RightOnlyRows(lay, rs, KeysOf(ls));
    WithoutSpec(KeysOf(rs), KeysOf(ls));
    forall i | 0 <= i < |ls|
      ensures KeyOf(left[i]) == KeyOf(ls[i]) && left[i] == Combine(lay, KeyOf(ls[i]), Lookup(ls, KeyOf(ls[i])), Lookup(rs, KeyOf(ls[i])))
    {
      CombineKey(lay, KeyOf(ls[i]), Some(ls[i]), Lookup(rs, KeyOf(ls[i])));
      LookupAt(ls, i);
    }
    assert KeysOf(left) == KeysOf(ls);
    KeysOfAppend(left, right);
    DistinctAppend(KeysOf(ls), KeysOf(right));
    forall j | 0 <= j < |right|
      ensures Lookup(ls, KeyOf(right[j])) == None
    {
      assert KeysOf(right)[j] == KeyOf(right[j]);
      LookupSpec(ls, KeyOf(right[j]));
    }
  }
}
