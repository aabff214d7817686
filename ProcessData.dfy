/**
 * The dataset builder (`data/process_data.py`): the inner join of the message rows with the
 * category rows on `id` (`load_data`), and `clean_data`, which expands the packed category string
 * `name-value;name-value;...` into one integer column per category and drops duplicate rows.
 */
module ProcessData {
  import opened Wrappers
  import opened Text
  import opened Tables

  /** A row of the messages file. */
  datatype MessageRecord = MessageRecord(id: int, message: Cell, original: Cell, genre: Cell)

  /** A row of the categories file: the packed category string of one message. */
  datatype CategoryRecord = CategoryRecord(id: int, categories: Cell)

  /** The columns of the merged table: those of the messages file, then `categories`. */
  const MergedColumns: seq<string> := ["id", "message", "original", "genre", "categories"]

  function MergedRow(m: MessageRecord, c: CategoryRecord): Row {
    [Int(m.id), m.message, m.original, m.genre, c.categories]
  }

  function MessageIds(ms: seq<MessageRecord>): (ids: seq<int>)
    ensures |ids| == |ms| && forall i :: 0 <= i < |ms| ==> ids[i] == ms[i].id
  {
    seq(|ms|, i requires 0 <= i < |ms| => ms[i].id)
  }

  function CategoryIds(cs: seq<CategoryRecord>): (ids: seq<int>)
    ensures |ids| == |cs| && forall j :: 0 <= j < |cs| ==> ids[j] == cs[j].id
  {
    seq(|cs|, j requires 0 <= j < |cs| => cs[j].id)
  }

  /** The merged rows of one message: one per category row with the same id, in file order. */
  function MatchRows(m: MessageRecord, cs: seq<CategoryRecord>): seq<Row> {
    if cs == [] then []
    else (if cs[0].id == m.id then [MergedRow(m, cs[0])] else []) + MatchRows(m, cs[1..])
  }

  /** `messages_df.merge(categories_df, how='inner', on='id')`: the rows of every message, in the
      order of the messages file. */
  function JoinRows(ms: seq<MessageRecord>, cs: seq<CategoryRecord>): seq<Row> {
    if ms == [] then [] else MatchRows(ms[0], cs) + JoinRows(ms[1..], cs)
  }

  /** `load_data` without the CSV reading: the merged table. */
  function LoadData(ms: seq<MessageRecord>, cs: seq<CategoryRecord>): (t: Table)
    ensures t.columns == MergedColumns && t.rows == JoinRows(ms, cs)
    ensures WellFormed(t)
  {
    JoinShape(ms, cs);
    Table(MergedColumns, JoinRows(ms, cs))
  }

  lemma {:induction false} JoinShape(ms: seq<MessageRecord>, cs: seq<CategoryRecord>)
    ensures forall r :: r in JoinRows(ms, cs) ==> |r| == |MergedColumns|
  {
    JoinSound(ms, cs);
  }

  lemma {:induction false} MatchSound(m: MessageRecord, cs: seq<CategoryRecord>)
    ensures forall r :: r in MatchRows(m, cs) ==>
              exists j :: 0 <= j < |cs| && cs[j].id == m.id && r == MergedRow(m, cs[j])
  {
    if cs != [] {
      MatchSound(m, cs[1..]);
      forall r | r in MatchRows(m, cs)
        ensures exists j :: 0 <= j < |cs| && cs[j].id == m.id && r == MergedRow(m, cs[j])
      {
        if r !in MatchRows(m, cs[1..]) {
          assert cs[0].id == m.id && r == MergedRow(m, cs[0]);
        } else {
          var j :| 0 <= j < |cs| - 1 && cs[1..][j].id == m.id && r == MergedRow(m, cs[1..][j]);
          assert cs[j + 1] == cs[1..][j];
        }
      }
    }
  }

  /** Every merged row pairs a message row with a category row of the same id; in particular an id
      that occurs in only one of the two inputs never reaches the merged table. */
  lemma {:induction false} JoinSound(ms: seq<MessageRecord>, cs: seq<CategoryRecord>)
    ensures forall r :: r in JoinRows(ms, cs) ==>
              exists i, j :: 0 <= i < |ms| && 0 <= j < |cs| && ms[i].id == cs[j].id && r == MergedRow(ms[i], cs[j])
    ensures forall r: Row :: r in JoinRows(ms, cs) ==> |r| > 0 && r[0].Int? && r[0].i in MessageIds(ms) && r[0].i in CategoryIds(cs)
  {
    if ms != [] {
      JoinSound(ms[1..], cs);
      MatchSound(ms[0], cs);
      forall r: Row | r in JoinRows(ms, cs)
        ensures exists i, j :: 0 <= i < |ms| && 0 <= j < |cs| && ms[i].id == cs[j].id && r == MergedRow(ms[i], cs[j])
      {
        if r in MatchRows(ms[0], cs) {
          var j :| 0 <= j < |cs| && cs[j].id == ms[0].id && r == MergedRow(ms[0], cs[j]);
        } else {
          var i, j :| 0 <= i < |ms| - 1 && 0 <= j < |cs| && ms[1..][i].id == cs[j].id && r == MergedRow(ms[1..][i], cs[j]);
          assert ms[i + 1] == ms[1..][i];
        }
      }
      forall r: Row | r in JoinRows(ms, cs)
        ensures |r| > 0 && r[0].Int? && r[0].i in MessageIds(ms) && r[0].i in CategoryIds(cs)
      {
        var i, j :| 0 <= i < |ms| && 0 <= j < |cs| && ms[i].id == cs[j].id && r == MergedRow(ms[i], cs[j]);
        assert MessageIds(ms)[i] == r[0].i && CategoryIds(cs)[j] == r[0].i;
      }
    }
  }

  lemma {:induction false} MatchComplete(m: MessageRecord, cs: seq<CategoryRecord>, j: nat)
    requires j < |cs| && cs[j].id == m.id
    ensures MergedRow(m, cs[j]) in MatchRows(m, cs)
  {
    if j > 0 {
      MatchComplete(m, cs[1..], j - 1);
    }
  }

  /** Every pair of a message row and a category row with equal ids yields a merged row. */
  lemma {:induction false} JoinComplete(ms: seq<MessageRecord>, cs: seq<CategoryRecord>, i: nat, j: nat)
    requires i < |ms| && j < |cs| && ms[i].id == cs[j].id
    ensures MergedRow(ms[i], cs[j]) in JoinRows(ms, cs)
  {
    if i == 0 {
      MatchComplete(ms[0], cs, j);
    } else {
      JoinComplete(ms[1..], cs, i - 1, j);
    }
  }

  /** The sum, over the keys, of how often each occurs among `ids`. */
  function MatchTotal(keys: seq<int>, ids: seq<int>): nat {
    if keys == [] then 0 else Count(ids, keys[0]) + MatchTotal(keys[1..], ids)
  }

  lemma {:induction false} MatchRowsSize(m: MessageRecord, cs: seq<CategoryRecord>)
    ensures |MatchRows(m, cs)| == Count(CategoryIds(cs), m.id)
  {
    if cs != [] {
      MatchRowsSize(m, cs[1..]);
      assert CategoryIds(cs)[1..] == CategoryIds(cs[1..]);
    }
  }

  /** The merged table has one row per matching pair: each message row contributes as many rows
      as there are category rows with its id. */
  lemma {:induction false} JoinSize(ms: seq<MessageRecord>, cs: seq<CategoryRecord>)
    ensures |JoinRows(ms, cs)| == MatchTotal(MessageIds(ms), CategoryIds(cs))
  {
    if ms != [] {
      JoinSize(ms[1..], cs);
      MatchRowsSize(ms[0], cs);
      assert MessageIds(ms)[1..] == MessageIds(ms[1..]);
    }
  }

  /** `ids` with every occurrence of `x` removed. */
  function RemoveAll(ids: seq<int>, x: int): (r: seq<int>)
    ensures |r| == |ids| - Count(ids, x)
    ensures forall y :: y != x ==> Count(r, y) == Count(ids, y)
  {
    if ids == [] then []
    else if ids[0] == x then RemoveAll(ids[1..], x)
    else [ids[0]] + RemoveAll(ids[1..], x)
  }

  lemma {:induction false} MatchTotalRemove(keys: seq<int>, ids: seq<int>, x: int)
    requires x !in keys
    ensures MatchTotal(keys, RemoveAll(ids, x)) == MatchTotal(keys, ids)
  {
    if keys != [] {
      MatchTotalRemove(keys[1..], ids, x);
    }
  }

  lemma {:induction false} MatchTotalBound(keys: seq<int>, ids: seq<int>)
    requires Distinct(keys)
    ensures MatchTotal(keys, ids) <= |ids|
  {
    if keys != [] {
      assert Distinct(keys[1..]);
      assert keys[0] !in keys[1..];
      MatchTotalBound(keys[1..], RemoveAll(ids, keys[0]));
      MatchTotalRemove(keys[1..], ids, keys[0]);
    }
  }

  lemma {:induction false} MatchTotalUnique(keys: seq<int>, ids: seq<int>)
    requires Distinct(ids)
    ensures MatchTotal(keys, ids) <= |keys|
  {
    if keys != [] {
      MatchTotalUnique(keys[1..], ids);
      DistinctCountAtMostOne(ids, keys[0]);
    }
  }

  /** When the ids are unique within each input, the merged table has at most as many rows as the
      smaller input. */
  lemma JoinUniqueBound(ms: seq<MessageRecord>, cs: seq<CategoryRecord>)
    requires Distinct(MessageIds(ms)) && Distinct(CategoryIds(cs))
    ensures |JoinRows(ms, cs)| <= |ms| && |JoinRows(ms, cs)| <= |cs|
  {
    JoinSize(ms, cs);
    MatchTotalBound(MessageIds(ms), CategoryIds(cs));
    MatchTotalUnique(MessageIds(ms), CategoryIds(cs));
  }

  // ---------------------------------------------------------------------------------------------
  // clean_data

  /** What is wrong with one cell of the expanded category frame. */
  datatype Fault =
    | Absent     // the row has fewer `;`-pieces than the widest row: pandas pads with None
    | Empty      // the piece is the empty string, so `value[-1]` fails
    | NotADigit  // the last character is not a digit, so `astype(int)` fails

  datatype CleanError =
    | ColumnError(error: TableError)          // no (unique) `categories` column
    | NoRows                                  // `categories.iloc[0, :]` on an empty frame
    | DuplicateCategory(column: nat)          // the first row names this category twice
    | BadValue(row: nat, column: nat, fault: Fault)

  /** The `;`-pieces of one packed category cell; a cell that is not a string has none. */
  function Pieces(c: Cell): seq<string> {
    if c.Text? then Split(c.s, ';') else []
  }

  /** The number of columns of `str.split(';', expand=True)`: the most pieces of any row, and at
      least one. */
  function Width(ps: seq<seq<string>>): (w: nat)
    ensures w >= 1
    ensures forall i :: 0 <= i < |ps| ==> |ps[i]| <= w
    ensures w == 1 || exists i :: 0 <= i < |ps| && |ps[i]| == w
  {
    if ps == [] then 1
    else
      var w := Width(ps[1..]);
      assert forall i :: 1 <= i < |ps| ==> ps[i] == ps[1..][i - 1];
      if |ps[0]| > w then |ps[0]| else w
  }

  /** The label of a column the first row does not reach, where pandas puts NaN. It holds a `-`,
      which no real name does, so it never equals a real name; two such columns share it, as two
      NaN labels do. */
  const Unnamed: string := "-"

  /** The category names: the text before the first `-` of each piece of the first row. A column
      the first row does not reach is `Unnamed`; it fails in the value step. */
  function CategoryNames(first: seq<string>, width: nat): (names: seq<string>)
    ensures |names| == width
    ensures forall j :: 0 <= j < width && j < |first| ==> names[j] == TextBeforeDash(first[j])
    ensures forall j :: 0 <= j < width ==> (names[j] == Unnamed <==> j >= |first|)
  {
    seq(width, j requires 0 <= j < width => if j < |first| then TextBeforeDash(first[j]) else Unnamed)
  }

  /** Row `k` has a non-empty `j`-th piece, so `value[-1]` succeeds. */
  predicate HasPiece(ps: seq<seq<string>>, k: nat, j: nat)
    requires k < |ps|
  {
    j < |ps[k]| && ps[k][j] != []
  }

  /** Every row of category column `j` holds a value the source accepts. */
  predicate ColumnOk(ps: seq<seq<string>>, j: nat) {
    forall k :: 0 <= k < |ps| ==> HasPiece(ps, k, j) && IsDigit(Last(ps[k][j]))
  }

  /** `[value[-1] for value in categories[column]]` over rows `i..`: the last character of the
      `j`-th piece of each row, or the first row where there is none. */
  function LastCharsFrom(ps: seq<seq<string>>, j: nat, i: nat): (r: Result<seq<char>, CleanError>)
    requires i <= |ps|
    ensures r.Success? <==> forall k :: i <= k < |ps| ==> HasPiece(ps, k, j)
    ensures r.Success? ==> |r.value| == |ps| - i
                           && forall k :: 0 <= k < |r.value| ==> HasPiece(ps, i + k, j) && r.value[k] == Last(ps[i + k][j])
    ensures r.Failure? ==> r.error.BadValue? && r.error.column == j && i <= r.error.row < |ps|
                           && !HasPiece(ps, r.error.row, j)
                           && (r.error.fault == Absent <==> j >= |ps[r.error.row]|)
                           && r.error.fault != NotADigit
                           && forall k :: i <= k < r.error.row ==> HasPiece(ps, k, j)
    decreases |ps| - i
  {
    if i == |ps| then Success([])
    else if j >= |ps[i]| then assert !HasPiece(ps, i, j); Failure(BadValue(i, j, Absent))
    else if ps[i][j] == [] then assert !HasPiece(ps, i, j); Failure(BadValue(i, j, Empty))
    else Prepend([Last(ps[i][j])], LastCharsFrom(ps, j, i + 1))
  }

  /** `categories[column].astype(int)` over rows `i..`: every character must be a digit. */
  function DigitsFrom(cs: seq<char>, j: nat, i: nat): (r: Result<seq<int>, CleanError>)
    requires i <= |cs|
    ensures r.Success? <==> forall k :: i <= k < |cs| ==> IsDigit(cs[k])
    ensures r.Success? ==> |r.value| == |cs| - i
                           && forall k :: 0 <= k < |r.value| ==> IsDigit(cs[i + k]) && r.value[k] == DigitValue(cs[i + k])
    ensures r.Failure? ==> r.error.BadValue? && r.error.column == j && r.error.fault == NotADigit
                           && i <= r.error.row < |cs|
                           && !IsDigit(cs[r.error.row])
                           && forall k :: i <= k < r.error.row ==> IsDigit(cs[k])
    decreases |cs| - i
  {
    if i == |cs| then Success([])
    else if !IsDigit(cs[i]) then assert !IsDigit(cs[i]); Failure(BadValue(i, j, NotADigit))
    else Prepend([DigitValue(cs[i])], DigitsFrom(cs, j, i + 1))
  }

  /** One turn of the `for column in categories` loop: column `j` as integers. */
  function ColumnValues(ps: seq<seq<string>>, names: seq<string>, j: nat): (r: Result<seq<int>, CleanError>)
    requires j < |names|
    ensures r.Success? ==> |r.value| == |ps|
  {
    if Count(names, names[j]) > 1 then Failure(DuplicateCategory(j))
    else
      match LastCharsFrom(ps, j, 0)
      case Failure(e) => Failure(e)
      case Success(cs) => DigitsFrom(cs, j, 0)
  }

  /** The turn for column `j` succeeds exactly when its name is not repeated and every row holds
      a value for it; it then yields the digit that ends each row's `j`-th piece. */
  lemma ColumnValuesSpec(ps: seq<seq<string>>, names: seq<string>, j: nat)
    requires j < |names|
    ensures var r := ColumnValues(ps, names, j);
            && (r.Success? <==> Count(names, names[j]) == 1 && ColumnOk(ps, j))
            && (r.Success? ==> forall k :: 0 <= k < |ps| ==> r.value[k] == DigitValue(Last(ps[k][j])))
  {
    var r := ColumnValues(ps, names, j);
    assert names[j] in names;
    if Count(names, names[j]) == 1 {
      var chars := LastCharsFrom(ps, j, 0);
      if chars.Success? {
        var cs := chars.value;
        assert forall k :: 0 <= k < |ps| ==> HasPiece(ps, k, j) && cs[k] == Last(ps[k][j]) by {
          forall k | 0 <= k < |ps| ensures HasPiece(ps, k, j) && cs[k] == Last(ps[k][j]) {
            assert 0 + k == k;
          }
        }
        var d := DigitsFrom(cs, j, 0);
        assert d.Success? ==> forall k :: 0 <= k < |cs| ==> IsDigit(cs[k]) && d.value[k] == DigitValue(cs[k]) by {
          if d.Success? {
            forall k | 0 <= k < |cs| ensures IsDigit(cs[k]) && d.value[k] == DigitValue(cs[k]) {
              assert 0 + k == k;
            }
          }
        }
        assert d.Failure? ==> !IsDigit(Last(ps[d.error.row][j]));
      } else {
        assert !HasPiece(ps, chars.error.row, j);
      }
    }
  }

  /** The whole loop from column `j` on: the integer columns, or the first failure in column
      order. */
  function ColumnsFrom(ps: seq<seq<string>>, names: seq<string>, j: nat): (r: Result<seq<seq<int>>, CleanError>)
    requires j <= |names|
    ensures r.Success? ==> |r.value| == |names| - j && forall m :: 0 <= m < |r.value| ==> |r.value[m]| == |ps|
    decreases |names| - j
  {
    if j == |names| then Success([])
    else
      match ColumnValues(ps, names, j)
      case Failure(e) => Failure(e)
      case Success(col) =>
        match ColumnsFrom(ps, names, j + 1)
        case Failure(e) => Failure(e)
        case Success(rest) =>
          var cols := [col] + rest;
          assert forall m :: 1 <= m < |cols| ==> cols[m] == rest[m - 1];
          Success(cols)
  }

  /** The loop from column `j` on succeeds exactly when every later column's turn does. */
  lemma {:induction false} ColumnsFromSucceedsIff(ps: seq<seq<string>>, names: seq<string>, j: nat)
    requires j <= |names|
    ensures ColumnsFrom(ps, names, j).Success? <==> forall m :: j <= m < |names| ==> ColumnValues(ps, names, m).Success?
    decreases |names| - j
  {
    if j < |names| {
      ColumnsFromSucceedsIff(ps, names, j + 1);
    }
  }

  /** Column `m` of the loop's result, counted from `j`, is what the turn for column `j + m`
      produces. */
  lemma {:induction false} ColumnsFromColumn(ps: seq<seq<string>>, names: seq<string>, j: nat, m: nat)
    requires j <= |names| && ColumnsFrom(ps, names, j).Success? && m < |names| - j
    ensures ColumnValues(ps, names, j + m).Success?
    ensures ColumnsFrom(ps, names, j).value[m] == ColumnValues(ps, names, j + m).value
    decreases m
  {
    var col, rest := ColumnValues(ps, names, j), ColumnsFrom(ps, names, j + 1);
    var cols := ColumnsFrom(ps, names, j).value;
    assert col.Success? && rest.Success? && cols == [col.value] + rest.value;
    if m == 0 {
      assert cols[0] == col.value;
    } else {
      ColumnsFromColumn(ps, names, j + 1, m - 1);
      assert cols[m] == rest.value[m - 1];
    }
  }

  /** `[value[-1] for value in categories[column]]` for column `j`. */
  method LastCharacters(ps: seq<seq<string>>, j: nat) returns (r: Result<seq<char>, CleanError>)
    ensures r == LastCharsFrom(ps, j, 0)
  {
    var chars: seq<char> := [];
    for i := 0 to |ps|
      invariant LastCharsFrom(ps, j, 0) == Prepend(chars, LastCharsFrom(ps, j, i))
    {
      if j >= |ps[i]| {
        return Failure(BadValue(i, j, Absent));
      }
      if ps[i][j] == [] {
        return Failure(BadValue(i, j, Empty));
      }
      PrependPrepend(chars, [Last(ps[i][j])], LastCharsFrom(ps, j, i + 1));
      chars := chars + [Last(ps[i][j])];
    }
    assert chars + [] == chars;
    return Success(chars);
  }

  /** `categories[column].astype(int)` for column `j`, whose cells are the characters `cs`. */
  method ToIntegers(cs: seq<char>, j: nat) returns (r: Result<seq<int>, CleanError>)
    ensures r == DigitsFrom(cs, j, 0)
  {
    var values: seq<int> := [];
    for i := 0 to |cs|
      invariant DigitsFrom(cs, j, 0) == Prepend(values, DigitsFrom(cs, j, i))
    {
      if !IsDigit(cs[i]) {
        return Failure(BadValue(i, j, NotADigit));
      }
      PrependPrepend(values, [DigitValue(cs[i])], DigitsFrom(cs, j, i + 1));
      values := values + [DigitValue(cs[i])];
    }
    assert values + [] == values;
    return Success(values);
  }

  /** The `for column in categories` loop: each column in turn is replaced by the last characters
      of its pieces, then converted to integers. */
  method ExpandCategories(ps: seq<seq<string>>, names: seq<string>) returns (r: Result<seq<seq<int>>, CleanError>)
    ensures r == ColumnsFrom(ps, names, 0)
  {
    var columns: seq<seq<int>> := [];
    for j := 0 to |names|
      invariant ColumnsFrom(ps, names, 0) == Prepend(columns, ColumnsFrom(ps, names, j))
    {
      if Count(names, names[j]) > 1 {
        return Failure(DuplicateCategory(j));
      }
      var chars := LastCharacters(ps, j);
      if chars.Failure? {
        return Failure(chars.error);
      }
      var values := ToIntegers(chars.value, j);
      if values.Failure? {
        return Failure(values.error);
      }
      assert ColumnValues(ps, names, j) == values;
      PrependPrepend(columns, [values.value], ColumnsFrom(ps, names, j + 1));
      columns := columns + [values.value];
    }
    assert columns + [] == columns;
    return Success(columns);
  }

  /** The packed category pieces of every row; `k` is the position of `categories`. */
  function CategoryPieces(t: Table, k: nat): (ps: seq<seq<string>>)
    requires WellFormed(t) && k < |t.columns|
    ensures |ps| == |t.rows| && forall i :: 0 <= i < |t.rows| ==> ps[i] == Pieces(t.rows[i][k])
  {
    seq(|t.rows|, i requires 0 <= i < |t.rows| => Pieces(t.rows[i][k]))
  }

  /** `pd.concat([df.drop(columns=['categories']), categories], axis=1)`: each row without its
      packed cell, followed by its integer category values. */
  function ExpandRows(t: Table, k: nat, cols: seq<seq<int>>): (rows: seq<Row>)
    requires WellFormed(t) && k < |t.columns|
    requires forall j :: 0 <= j < |cols| ==> |cols[j]| == |t.rows|
    ensures |rows| == |t.rows|
    ensures forall i :: 0 <= i < |t.rows| ==> |rows[i]| == |t.columns| - 1 + |cols|
    ensures forall i :: 0 <= i < |t.rows| ==> rows[i][..|t.columns| - 1] == RemoveAt(t.rows[i], k)
    ensures forall i, j :: 0 <= i < |t.rows| && 0 <= j < |cols| ==> rows[i][|t.columns| - 1 + j] == Int(cols[j][i])
  {
    seq(|t.rows|, i requires 0 <= i < |t.rows| =>
      RemoveAt(t.rows[i], k) + seq(|cols|, j requires 0 <= j < |cols| => Int(cols[j][i])))
  }

  /** The cleaned table: the columns without `categories`, then the category names; the expanded
      rows with duplicates dropped. */
  function Assemble(t: Table, k: nat, names: seq<string>, cols: seq<seq<int>>): (out: Table)
    requires WellFormed(t) && k < |t.columns| && |cols| == |names|
    requires forall j :: 0 <= j < |cols| ==> |cols[j]| == |t.rows|
    ensures WellFormed(out) && |out.rows| <= |t.rows| && Distinct(out.rows)
  {
    var rows := ExpandRows(t, k, cols);
    var out := Table(RemoveAt(t.columns, k) + names, Dedup(rows));
    assert WellFormed(out) by {
      forall i | 0 <= i < |out.rows| ensures |out.rows[i]| == |out.columns| {
        assert out.rows[i] in rows;
      }
    }
    out
  }

  /** `clean_data`: the table with `categories` replaced by one integer column per category,
      duplicates dropped. */
  function Clean(t: Table): (r: Result<Table, CleanError>)
    requires WellFormed(t)
    ensures r.Success? ==> WellFormed(r.value) && |r.value.rows| <= |t.rows| && Distinct(r.value.rows)
  {
    match ColumnIndex(t.columns, "categories")
    case Failure(e) => Failure(ColumnError(e))
    case Success(k) =>
      if t.rows == [] then Failure(NoRows)
      else
        var ps := CategoryPieces(t, k);
        var names := CategoryNames(ps[0], Width(ps));
        match ColumnsFrom(ps, names, 0)
        case Failure(e) => Failure(e)
        case Success(cols) => Success(Assemble(t, k, names, cols))
  }

  /** `clean_data` as the source runs it: the category loop is `ExpandCategories`. */
  method CleanData(t: Table) returns (r: Result<Table, CleanError>)
    requires WellFormed(t)
    ensures r == Clean(t)
  {
    var lookup := ColumnIndex(t.columns, "categories");
    if lookup.Failure? {
      return Failure(ColumnError(lookup.error));
    }
    var k := lookup.value;
    if |t.rows| == 0 {
      return Failure(NoRows);
    }
    var ps := CategoryPieces(t, k);
    var names := CategoryNames(ps[0], Width(ps));
    var expanded := ExpandCategories(ps, names);
    assert Clean(t) == match expanded
                       case Failure(e) => Failure(e)
                       case Success(cols) => Success(Assemble(t, k, names, cols));
    if expanded.Failure? {
      return Failure(expanded.error);
    }
    var categoryColumns := expanded.value;
    r := Success(Assemble(t, k, names, categoryColumns));
  }

  // ---------------------------------------------------------------------------------------------
  // What clean_data accepts and what it produces

  /** Every row has exactly `w` pieces, each non-empty and ending in a digit. */
  predicate PiecesOk(ps: seq<seq<string>>, w: nat) {
    forall i :: 0 <= i < |ps| ==>
      |ps[i]| == w && forall j :: 0 <= j < |ps[i]| ==> ps[i][j] != [] && IsDigit(Last(ps[i][j]))
  }

  /** Rows that pass hold no empty piece, the last one included. */
  lemma NoEmptyPieces(ps: seq<seq<string>>, w: nat, i: nat)
    requires i < |ps| && ps[i] != []
    ensures PiecesOk(ps, w) ==> ps[i][|ps[i]| - 1] != []
  {
  }

  /** Checking the columns one by one accepts exactly the rows that are all full and well formed. */
  lemma ColumnsOkIff(ps: seq<seq<string>>)
    ensures (forall m :: 0 <= m < Width(ps) ==> ColumnOk(ps, m)) <==> PiecesOk(ps, Width(ps))
  {
    var w := Width(ps);
    if PiecesOk(ps, w) {
      forall m | 0 <= m < w ensures ColumnOk(ps, m) {
        forall i | 0 <= i < |ps| ensures HasPiece(ps, i, m) && IsDigit(Last(ps[i][m])) {
          assert |ps[i]| == w;
        }
      }
    } else if forall m :: 0 <= m < w ==> ColumnOk(ps, m) {
      forall i | 0 <= i < |ps|
        ensures |ps[i]| == w && forall j :: 0 <= j < |ps[i]| ==> ps[i][j] != [] && IsDigit(Last(ps[i][j]))
      {
        assert ColumnOk(ps, w - 1) && HasPiece(ps, i, w - 1);
        forall j | 0 <= j < |ps[i]| ensures ps[i][j] != [] && IsDigit(Last(ps[i][j])) {
          assert ColumnOk(ps, j);
        }
      }
    }
  }

  /** The inputs `clean_data` turns into a table: a unique `categories` column, at least one row,
      distinct names in the first row, and in every row exactly as many pieces as the widest
      row, each non-empty and ending in a digit. Names in the other rows are not looked at, and
      any digit is accepted as a value. */
  predicate Accepted(t: Table)
    requires WellFormed(t)
  {
    match ColumnIndex(t.columns, "categories")
    case Failure(_) => false
    case Success(k) =>
      var ps := CategoryPieces(t, k);
      ps != [] && Distinct(CategoryNames(ps[0], Width(ps))) && PiecesOk(ps, Width(ps))
  }

  /** The category step succeeds exactly when the names are distinct and every row is full and
      well formed. */
  lemma ColumnsSucceedIff(ps: seq<seq<string>>, names: seq<string>)
    requires |names| == Width(ps)
    ensures ColumnsFrom(ps, names, 0).Success? <==> Distinct(names) && PiecesOk(ps, Width(ps))
  {
    DistinctIffCountOne(names);
    ColumnsOkIff(ps);
    ColumnsFromSucceedsIff(ps, names, 0);
    forall m | 0 <= m < |names| {
      ColumnValuesSpec(ps, names, m);
    }
  }

  /** `clean_data` fails on exactly the inputs it does not accept. */
  lemma CleanSucceedsIff(t: Table)
    requires WellFormed(t)
    ensures Clean(t).Success? <==> Accepted(t)
  {
    var lookup := ColumnIndex(t.columns, "categories");
    if lookup.Success? && t.rows != [] {
      var ps := CategoryPieces(t, lookup.value);
      ColumnsSucceedIff(ps, CategoryNames(ps[0], Width(ps)));
    }
  }

  /** The cleaned value of one piece: its last character as a digit. */
  function PieceValue(piece: string): Cell {
    if piece != [] && IsDigit(Last(piece)) then Int(DigitValue(Last(piece))) else Missing
  }

  /** Row `i` as `clean_data` outputs it: without its packed cell, followed by the last digit of
      each of its pieces, in piece order. */
  function CleanRow(t: Table, k: nat, i: nat): Row
    requires WellFormed(t) && k < |t.columns| && i < |t.rows|
  {
    var pieces := Pieces(t.rows[i][k]);
    RemoveAt(t.rows[i], k) + seq(|pieces|, j requires 0 <= j < |pieces| => PieceValue(pieces[j]))
  }

  /** The cleaned rows of every input row, in input order, before duplicates are dropped. */
  function CleanedRows(t: Table, k: nat): (rows: seq<Row>)
    requires WellFormed(t) && k < |t.columns|
    ensures |rows| == |t.rows| && forall i :: 0 <= i < |t.rows| ==> rows[i] == CleanRow(t, k, i)
  {
    seq(|t.rows|, i requires 0 <= i < |t.rows| => CleanRow(t, k, i))
  }

  /** An expanded row is the cleaned row when the columns hold each piece's last digit. */
  lemma ExpandedRowIsCleanRow(t: Table, k: nat, cols: seq<seq<int>>, i: nat)
    requires WellFormed(t) && k < |t.columns| && i < |t.rows|
    requires forall j :: 0 <= j < |cols| ==> |cols[j]| == |t.rows|
    requires var p := Pieces(t.rows[i][k]);
             |p| == |cols| && forall j :: 0 <= j < |p| ==> p[j] != [] && IsDigit(Last(p[j])) && cols[j][i] == DigitValue(Last(p[j]))
    ensures ExpandRows(t, k, cols)[i] == CleanRow(t, k, i)
  {
    var e := ExpandRows(t, k, cols)[i];
    var c := CleanRow(t, k, i);
    assert |e| == |c|;
    forall m | 0 <= m < |c| ensures e[m] == c[m] {
      if m >= |t.columns| - 1 {
        var j := m - (|t.columns| - 1);
        assert e[|t.columns| - 1 + j] == Int(cols[j][i]);
      } else {
        assert e[..|t.columns| - 1][m] == e[m];
      }
    }
  }

  /** A successful `clean_data` assembles the columns the category step produced. */
  lemma CleanAssembles(t: Table)
    requires WellFormed(t) && Clean(t).Success?
    ensures ColumnIndex(t.columns, "categories").Success? && t.rows != []
    ensures var k := ColumnIndex(t.columns, "categories").value;
            var ps := CategoryPieces(t, k);
            var names := CategoryNames(ps[0], Width(ps));
            && ColumnsFrom(ps, names, 0).Success?
            && Clean(t).value == Assemble(t, k, names, ColumnsFrom(ps, names, 0).value)
  {
  }

  /** After a successful category loop, row `i` has one piece per column, and each column holds
      the digit that ends the row's piece. */
  lemma RowOfColumns(ps: seq<seq<string>>, names: seq<string>, cols: seq<seq<int>>, i: nat)
    requires |names| == Width(ps) && ColumnsFrom(ps, names, 0) == Success(cols) && i < |ps|
    ensures |ps[i]| == |cols|
    ensures forall j :: 0 <= j < |cols| ==>
              ps[i][j] != [] && IsDigit(Last(ps[i][j])) && cols[j][i] == DigitValue(Last(ps[i][j]))
  {
    ColumnsFromColumn(ps, names, 0, |names| - 1);
    ColumnValuesSpec(ps, names, |names| - 1);
    assert ColumnOk(ps, |names| - 1) && HasPiece(ps, i, |names| - 1);
    forall j | 0 <= j < |cols| ensures ps[i][j] != [] && IsDigit(Last(ps[i][j])) && cols[j][i] == DigitValue(Last(ps[i][j])) {
      ColumnsFromColumn(ps, names, 0, j);
      ColumnValuesSpec(ps, names, j);
    }
  }

  /** Row `i` of the expansion is the cleaned row of input row `i`. */
  lemma ExpandedRowIsClean(t: Table, k: nat, names: seq<string>, cols: seq<seq<int>>, i: nat)
    requires WellFormed(t) && k < |t.columns| && i < |t.rows|
    requires names == CategoryNames(CategoryPieces(t, k)[0], Width(CategoryPieces(t, k)))
    requires ColumnsFrom(CategoryPieces(t, k), names, 0) == Success(cols)
    ensures |Pieces(t.rows[i][k])| == |cols| && ExpandRows(t, k, cols)[i] == CleanRow(t, k, i)
  {
    var ps := CategoryPieces(t, k);
    RowOfColumns(ps, names, cols, i);
    assert ps[i] == Pieces(t.rows[i][k]);
    ExpandedRowIsCleanRow(t, k, cols, i);
  }

  /** Each expanded row is the cleaned row of its input row. */
  lemma ExpandedRowsAreCleanRows(t: Table, k: nat, names: seq<string>, cols: seq<seq<int>>)
    requires WellFormed(t) && k < |t.columns| && t.rows != []
    requires names == CategoryNames(CategoryPieces(t, k)[0], Width(CategoryPieces(t, k)))
    requires ColumnsFrom(CategoryPieces(t, k), names, 0) == Success(cols)
    ensures forall i :: 0 <= i < |t.rows| ==> |Pieces(t.rows[i][k])| == |cols|
    ensures forall i :: 0 <= i < |t.rows| ==> ExpandRows(t, k, cols)[i] == CleanRow(t, k, i)
  {
    forall i | 0 <= i < |t.rows|
      ensures |Pieces(t.rows[i][k])| == |cols| && ExpandRows(t, k, cols)[i] == CleanRow(t, k, i)
    {
      ExpandedRowIsClean(t, k, names, cols, i);
    }
  }

  /** The rows of an assembled table are the expanded rows without duplicates. */
  lemma AssembledRows(t: Table, k: nat, names: seq<string>, cols: seq<seq<int>>)
    requires WellFormed(t) && k < |t.columns| && |cols| == |names|
    requires forall j :: 0 <= j < |cols| ==> |cols[j]| == |t.rows|
    requires forall i :: 0 <= i < |t.rows| ==> ExpandRows(t, k, cols)[i] == CleanRow(t, k, i)
    ensures var out := Assemble(t, k, names, cols);
            && out.columns == RemoveAt(t.columns, k) + names
            && (forall i :: 0 <= i < |t.rows| ==> CleanRow(t, k, i) in out.rows)
            && (forall o :: o in out.rows ==> exists i :: 0 <= i < |t.rows| && o == CleanRow(t, k, i))
  {
    var rows := ExpandRows(t, k, cols);
    DedupMembers(rows);
    assert Assemble(t, k, names, cols).rows == Dedup(rows);
    forall o | o in rows ensures exists i :: 0 <= i < |t.rows| && o == CleanRow(t, k, i) {
      var i :| 0 <= i < |rows| && rows[i] == o;
    }
  }

  /** When every row is full, the names are the text before `-` of each piece of the first row. */
  lemma NamesOfFullRows(ps: seq<seq<string>>)
    requires ps != [] && PiecesOk(ps, Width(ps))
    ensures CategoryNames(ps[0], Width(ps)) == seq(|ps[0]|, j requires 0 <= j < |ps[0]| => TextBeforeDash(ps[0][j]))
  {
    assert |ps[0]| == Width(ps);
  }

  /** The columns of a successful `clean_data`: the columns other than `categories`, then the
      category names read off the first row's pieces. */
  lemma CleanColumns(t: Table)
    requires WellFormed(t) && Clean(t).Success?
    ensures ColumnIndex(t.columns, "categories").Success? && t.rows != []
    ensures var k := ColumnIndex(t.columns, "categories").value;
            var first := Pieces(t.rows[0][k]);
            Clean(t).value.columns == RemoveAt(t.columns, k) + seq(|first|, j requires 0 <= j < |first| => TextBeforeDash(first[j]))
  {
    CleanAssembles(t);
    var k := ColumnIndex(t.columns, "categories").value;
    var ps := CategoryPieces(t, k);
    var names := CategoryNames(ps[0], Width(ps));
    ColumnsSucceedIff(ps, names);
    NamesOfFullRows(ps);
    assert ps[0] == Pieces(t.rows[0][k]);
  }

  /** The rows of a successful `clean_data`: every input row has as many pieces as the first,
      its cleaned row is in the output, and every output row is the cleaned row of some input
      row. Exactly: the output rows are the cleaned rows in input order with later duplicates
      dropped, so each kept row stands where it first occurred (`DedupKeepsFirstOrder`). */
  lemma CleanRows(t: Table)
    requires WellFormed(t) && Clean(t).Success?
    ensures ColumnIndex(t.columns, "categories").Success? && t.rows != []
    ensures var k := ColumnIndex(t.columns, "categories").value;
            var out := Clean(t).value;
            && (forall i :: 0 <= i < |t.rows| ==> |Pieces(t.rows[i][k])| == |Pieces(t.rows[0][k])|)
            && (forall i :: 0 <= i < |t.rows| ==> CleanRow(t, k, i) in out.rows)
            && (forall o :: o in out.rows ==> exists i :: 0 <= i < |t.rows| && o == CleanRow(t, k, i))
            && out.rows == Dedup(CleanedRows(t, k))
  {
    CleanAssembles(t);
    var k := ColumnIndex(t.columns, "categories").value;
    var ps := CategoryPieces(t, k);
    var names := CategoryNames(ps[0], Width(ps));
    var cols := ColumnsFrom(ps, names, 0).value;
    ExpandedRowsAreCleanRows(t, k, names, cols);
    AssembledRows(t, k, names, cols);
    assert ExpandRows(t, k, cols) == CleanedRows(t, k);
  }

  /** The category names come from the first row alone: two tables that agree on their columns
      and first row get the same output columns, whatever their other rows name. */
  lemma CleanNamesFromFirstRow(t: Table, u: Table)
    requires WellFormed(t) && WellFormed(u) && Clean(t).Success? && Clean(u).Success?
    requires t.columns == u.columns && t.rows[0] == u.rows[0]
    ensures Clean(t).value.columns == Clean(u).value.columns
  {
    CleanColumns(t);
    CleanColumns(u);
  }

  /** The output of `clean_data` holds no duplicate rows: dropping duplicates again changes
      nothing. */
  lemma CleanDeduplicated(t: Table)
    requires WellFormed(t) && Clean(t).Success?
    ensures Dedup(Clean(t).value.rows) == Clean(t).value.rows
  {
    DedupDistinct(Clean(t).value.rows);
  }

  /** A packed string with a trailing `;` (as in the docstring example
      `"related-1;request-0;offer-0;aid_related-0;"`) ends in an empty piece, so `clean_data`
      fails. */
  lemma TrailingSeparatorFails(t: Table, i: nat)
    requires WellFormed(t) && ColumnIndex(t.columns, "categories").Success? && i < |t.rows|
    requires var c := t.rows[i][ColumnIndex(t.columns, "categories").value];
             c.Text? && c.s != [] && c.s[|c.s| - 1] == ';'
    ensures Clean(t).Failure?
  {
    var k := ColumnIndex(t.columns, "categories").value;
    var ps := CategoryPieces(t, k);
    var pieces := Split(t.rows[i][k].s, ';');
    SplitTrailingSeparator(t.rows[i][k].s, ';');
    assert ps[i] == pieces && pieces[|pieces| - 1] == [];
    NoEmptyPieces(ps, Width(ps), i);
    CleanSucceedsIff(t);
  }

  /** A column the first row does not reach holds `None` in row 0, so its turn of the loop fails
      there as absent, unless another such column shares its label. */
  lemma UnnamedColumnFails(ps: seq<seq<string>>, j: nat)
    requires ps != [] && |ps[0]| <= j < Width(ps)
    requires Count(CategoryNames(ps[0], Width(ps)), Unnamed) == 1
    ensures ColumnValues(ps, CategoryNames(ps[0], Width(ps)), j) == Failure(BadValue(0, j, Absent))
  {
    var names := CategoryNames(ps[0], Width(ps));
    assert names[j] == Unnamed;
    assert !HasPiece(ps, 0, j);
  }

  /** A first row with an empty name and fewer pieces than the next row: the column named `""`
      parses, and the column the first row does not reach then fails in row 0. */
  lemma ShortFirstRowExample(t: Table)
    requires t == Table(["categories"], [[Text("-1")], [Text("a-1;b-1")]])
    ensures WellFormed(t) && Clean(t) == Failure(BadValue(0, 1, Absent))
  {
    ExampleIndex(t.columns);
    ExamplePieces(t);
    var ps := CategoryPieces(t, 0);
    ExampleWidth(ps);
    ExampleNames(ps[0]);
    ExampleColumns(ps, CategoryNames(ps[0], Width(ps)));
  }

  lemma ExamplePieces(t: Table)
    requires t == Table(["categories"], [[Text("-1")], [Text("a-1;b-1")]])
    ensures WellFormed(t)
    ensures var ps := CategoryPieces(t, 0);
            |ps| == 2 && ps[0] == ["-1"] && ps[1] == ["a-1", "b-1"]
  {
    assert WellFormed(t) by {
      assert |t.rows| == 2 && |t.rows[0]| == 1 && |t.rows[1]| == 1;
    }
    ExampleSplits(t.rows[0][0].s, t.rows[1][0].s);
  }

  lemma ExampleIndex(columns: seq<string>)
    requires columns == ["categories"]
    ensures ColumnIndex(columns, "categories") == Success(0)
  {
    assert Count(columns, "categories") == 1;
  }

  lemma ExampleSplits(one: string, two: string)
    requires one == "-1" && two == "a-1;b-1"
    ensures Split(one, ';') == ["-1"] && Split(two, ';') == ["a-1", "b-1"]
  {
    SplitSingle(one, ';');
    assert two == "a-1" + [';'] + "b-1";
    SplitCons("a-1", "b-1", ';');
    SplitSingle("b-1", ';');
  }

  lemma ExampleWidth(ps: seq<seq<string>>)
    requires |ps| == 2 && ps[0] == ["-1"] && ps[1] == ["a-1", "b-1"]
    ensures Width(ps) == 2
  {
    assert |ps[1..][0]| == 2;
    assert ps[1..][1..] == [];
  }

  lemma ExampleNames(first: seq<string>)
    requires first == ["-1"]
    ensures CategoryNames(first, 2) == ["", Unnamed]
  {
    SplitCons("", "1", '-');
    SplitSingle("1", '-');
    assert "-1" == "" + ['-'] + "1";
    assert TextBeforeDash("-1") == "";
  }

  lemma ExampleColumns(ps: seq<seq<string>>, names: seq<string>)
    requires |ps| == 2 && ps[0] == ["-1"] && ps[1] == ["a-1", "b-1"]
    requires names == ["", Unnamed]
    ensures ColumnsFrom(ps, names, 0) == Failure(BadValue(0, 1, Absent))
  {
    assert Count(names, "") == 1 && Count(names, Unnamed) == 1;
    assert ColumnOk(ps, 0);
    ColumnValuesSpec(ps, names, 0);
    assert !HasPiece(ps, 0, 1);
    assert ColumnValues(ps, names, 1) == Failure(BadValue(0, 1, Absent));
  }
}
