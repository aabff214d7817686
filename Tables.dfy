/**
 * The tabular data model shared by the three scripts: a pandas DataFrame as a list of column
 * labels and a list of rows, with the operations the scripts use on it: column lookup
 * (`df[name]`), `drop(columns=...)` and `drop_duplicates()`.
 */
module Tables {
  import opened Wrappers

  /** One DataFrame cell: an integer, a string, or a missing value (NaN / SQL NULL). */
  datatype Cell = Int(i: int) | Text(s: string) | Missing

  type Row = seq<Cell>

  datatype Table = Table(columns: seq<string>, rows: seq<Row>)

  /** Every row has one cell per column. */
  predicate WellFormed(t: Table) {
    forall i :: 0 <= i < |t.rows| ==> |t.rows[i]| == |t.columns|
  }

  datatype TableError = MissingColumn(name: string) | DuplicateColumn(name: string)

  /** The number of occurrences of `x` in `s`. */
  function Count<T(==)>(s: seq<T>, x: T): (n: nat)
    ensures n <= |s|
    ensures n > 0 <==> x in s
  {
    if s == [] then 0 else (if s[0] == x then 1 else 0) + Count(s[1..], x)
  }

  lemma {:induction false} CountAppend<T>(s: seq<T>, t: seq<T>, x: T)
    ensures Count(s + t, x) == Count(s, x) + Count(t, x)
  {
    if s != [] {
      assert (s + t)[1..] == s[1..] + t;
      CountAppend(s[1..], t, x);
    } else {
      assert s + t == t;
    }
  }

  /** The position of the first occurrence of `x` in `s`. */
  function FirstIndex<T(==)>(s: seq<T>, x: T): (k: nat)
    requires x in s
    ensures k < |s| && s[k] == x
    ensures forall i :: 0 <= i < k ==> s[i] != x
  {
    if s[0] == x then 0 else 1 + FirstIndex(s[1..], x)
  }

  /** No value occurs twice. */
  predicate Distinct<T(==)>(s: seq<T>) {
    forall i, j :: 0 <= i < j < |s| ==> s[i] != s[j]
  }

  /** In a sequence without repetitions, a value occurs at most once. */
  lemma {:induction false} DistinctCountAtMostOne<T>(s: seq<T>, x: T)
    requires Distinct(s)
    ensures Count(s, x) <= 1
  {
    if s != [] {
      assert Distinct(s[1..]);
      DistinctCountAtMostOne(s[1..], x);
      if s[0] == x {
        assert x !in s[1..];
      }
    }
  }

  /** A sequence is without repetitions exactly when each of its values occurs once. */
  lemma DistinctIffCountOne<T>(s: seq<T>)
    ensures Distinct(s) <==> forall m :: 0 <= m < |s| ==> Count(s, s[m]) == 1
  {
    if Distinct(s) {
      forall m | 0 <= m < |s| ensures Count(s, s[m]) == 1 {
        DistinctCountAtMostOne(s, s[m]);
      }
    } else {
      var i, j :| 0 <= i < j < |s| && s[i] == s[j];
      var x := s[i];
      assert s == s[..j] + s[j..];
      CountAppend(s[..j], s[j..], x);
      assert x in s[..j] && x == s[j..][0];
    }
  }

  /** The position of the column labelled `name`, as `df[name]` finds it; a label that is absent
      or repeated is an error. */
  function ColumnIndex(columns: seq<string>, name: string): (r: Result<nat, TableError>)
    ensures r.Success? <==> Count(columns, name) == 1
    ensures r.Success? ==> r.value < |columns| && columns[r.value] == name
    ensures r.Failure? ==> r.error == if name in columns then DuplicateColumn(name) else MissingColumn(name)
  {
    if name !in columns then Failure(MissingColumn(name))
    else if Count(columns, name) > 1 then Failure(DuplicateColumn(name))
    else Success(FirstIndex(columns, name))
  }

  /** The values of column `k`. */
  function Column(t: Table, k: nat): (col: seq<Cell>)
    requires WellFormed(t) && k < |t.columns|
    ensures |col| == |t.rows|
    ensures forall i :: 0 <= i < |t.rows| ==> col[i] == t.rows[i][k]
  {
    seq(|t.rows|, i requires 0 <= i < |t.rows| => t.rows[i][k])
  }

  /** `s` without its element at position `k`. */
  function RemoveAt<T>(s: seq<T>, k: nat): (r: seq<T>)
    requires k < |s|
    ensures |r| == |s| - 1
    ensures forall i :: 0 <= i < k ==> r[i] == s[i]
    ensures forall i :: k <= i < |r| ==> r[i] == s[i + 1]
  {
    s[..k] + s[k + 1..]
  }

  /** The number of columns not in `dropped`. */
  function KeptCount(columns: seq<string>, dropped: set<string>): nat {
    if columns == [] then 0 else (if columns[0] in dropped then 0 else 1) + KeptCount(columns[1..], dropped)
  }

  /** The entries of `xs` that sit under a column not in `dropped`, in order. */
  function Select<T>(columns: seq<string>, dropped: set<string>, xs: seq<T>): (r: seq<T>)
    requires |xs| == |columns|
    ensures |r| == KeptCount(columns, dropped)
    ensures forall i :: 0 <= i < |xs| && columns[i] !in dropped ==> xs[i] in r
    ensures forall y :: y in r ==> exists i :: 0 <= i < |xs| && columns[i] !in dropped && xs[i] == y
  {
    if xs == [] then []
    else
      var rest := Select(columns[1..], dropped, xs[1..]);
      var r := (if columns[0] in dropped then [] else [xs[0]]) + rest;
      assert forall y :: y in rest ==> exists i :: 1 <= i < |xs| && columns[i] !in dropped && xs[i] == y by {
        forall y | y in rest
          ensures exists i :: 1 <= i < |xs| && columns[i] !in dropped && xs[i] == y
        {
          var i :| 0 <= i < |xs| - 1 && columns[1..][i] !in dropped && xs[1..][i] == y;
          assert columns[i + 1] !in dropped && xs[i + 1] == y;
        }
      }
      assert forall i :: 1 <= i < |xs| && columns[i] !in dropped ==> xs[i] in rest by {
        forall i | 1 <= i < |xs| && columns[i] !in dropped ensures xs[i] in rest {
          assert columns[1..][i - 1] == columns[i] && xs[1..][i - 1] == xs[i];
        }
      }
      r
  }

  /** Selecting keeps the order: selecting under two runs of columns one after the other is
      selecting under each and concatenating. */
  lemma {:induction false} SelectAppend<T>(c1: seq<string>, c2: seq<string>, dropped: set<string>, x1: seq<T>, x2: seq<T>)
    requires |x1| == |c1| && |x2| == |c2|
    ensures Select(c1 + c2, dropped, x1 + x2) == Select(c1, dropped, x1) + Select(c2, dropped, x2)
  {
    if x1 == [] {
      assert c1 + c2 == c2 && x1 + x2 == x2;
    } else {
      assert (c1 + c2)[0] == c1[0] && (c1 + c2)[1..] == c1[1..] + c2;
      assert (x1 + x2)[0] == x1[0] && (x1 + x2)[1..] == x1[1..] + x2;
      SelectAppend(c1[1..], c2, dropped, x1[1..], x2);
      var head: seq<T> := if c1[0] in dropped then [] else [x1[0]];
      assert head + (Select(c1[1..], dropped, x1[1..]) + Select(c2, dropped, x2))
          == (head + Select(c1[1..], dropped, x1[1..])) + Select(c2, dropped, x2);
    }
  }

  /** A single entry is kept exactly when its column is not dropped. */
  lemma SelectOne<T>(c: string, dropped: set<string>, x: T)
    ensures Select([c], dropped, [x]) == if c in dropped then [] else [x]
  {
    assert [c][1..] == [] && [x][1..] == [];
  }

  /** The labels that survive dropping are exactly the labels not dropped. */
  lemma SelectColumns(columns: seq<string>, dropped: set<string>)
    ensures forall c :: c in Select(columns, dropped, columns) <==> c in columns && c !in dropped
  {
  }

  /** Selecting under columns none of which is dropped keeps everything. */
  lemma {:induction false} SelectNoneDropped<T>(columns: seq<string>, dropped: set<string>, xs: seq<T>)
    requires |xs| == |columns|
    requires forall i :: 0 <= i < |columns| ==> columns[i] !in dropped
    ensures Select(columns, dropped, xs) == xs
  {
    if xs != [] {
      SelectNoneDropped(columns[1..], dropped, xs[1..]);
      assert [xs[0]] + xs[1..] == xs;
    }
  }

  /** Columns at the front that are all dropped contribute nothing. */
  lemma {:induction false} SelectDroppedPrefix<T>(columns: seq<string>, dropped: set<string>, xs: seq<T>, n: nat)
    requires |xs| == |columns| && n <= |xs|
    requires forall i :: 0 <= i < n ==> columns[i] in dropped
    ensures Select(columns, dropped, xs) == Select(columns[n..], dropped, xs[n..])
  {
    if n > 0 {
      SelectDroppedPrefix(columns[1..], dropped, xs[1..], n - 1);
      assert columns[1..][n - 1..] == columns[n..] && xs[1..][n - 1..] == xs[n..];
    }
  }

  /** The first label of `names` that is not a column, if any. */
  function FirstMissing(names: seq<string>, columns: seq<string>): (r: Option<string>)
    ensures r.None? <==> forall n :: n in names ==> n in columns
    ensures r.Some? ==> r.value in names && r.value !in columns
  {
    if names == [] then None
    else if names[0] !in columns then Some(names[0])
    else FirstMissing(names[1..], columns)
  }

  /** `df.drop(columns=names)`: every listed label must be a column (otherwise pandas raises
      `KeyError`); all columns with a listed label go, the rest keep their order and values. */
  function DropColumns(t: Table, names: seq<string>): (r: Result<Table, TableError>)
    requires WellFormed(t)
    ensures r.Failure? <==> exists n :: n in names && n !in t.columns
    ensures r.Failure? ==> r.error.MissingColumn? && r.error.name in names && r.error.name !in t.columns
    ensures r.Success? ==> WellFormed(r.value) && |r.value.rows| == |t.rows|
    ensures r.Success? ==> forall c :: c in r.value.columns <==> c in t.columns && c !in names
    ensures r.Success? ==> r.value.columns == Select(t.columns, (set n | n in names), t.columns)
    ensures r.Success? ==> forall i :: 0 <= i < |t.rows| ==>
              r.value.rows[i] == Select(t.columns, (set n | n in names), t.rows[i])
  {
    match FirstMissing(names, t.columns)
    case Some(n) => Failure(MissingColumn(n))
    case None =>
      var dropped := set n | n in names;
      SelectColumns(t.columns, dropped);
      Success(Table(Select(t.columns, dropped, t.columns),
                    seq(|t.rows|, i requires 0 <= i < |t.rows| => Select(t.columns, dropped, t.rows[i]))))
  }

  /** `drop_duplicates()` (with `keep='first'`): every distinct value once, at its first occurrence
      (see `DedupKeepsFirstOrder`). Also the order in which a Python dict first sees its keys. */
  function Dedup<T(==)>(s: seq<T>): (r: seq<T>)
    ensures |r| <= |s|
    ensures forall i :: 0 <= i < |s| ==> s[i] in r
    ensures forall i :: 0 <= i < |r| ==> r[i] in s
    ensures Distinct(r)
  {
    if s == [] then []
    else
      var init := s[..|s| - 1];
      var p, x := Dedup(init), s[|s| - 1];
      assert s == init + [x];
      if x in p then p else p + [x]
  }

  /** Deduplicating keeps exactly the values that occur. */
  lemma DedupMembers<T>(s: seq<T>)
    ensures forall x :: x in Dedup(s) <==> x in s
  {
    forall x | x in Dedup(s) ensures x in s {
      var i :| 0 <= i < |Dedup(s)| && Dedup(s)[i] == x;
    }
  }

  /** The values kept are in the order of their first occurrences. */
  lemma {:induction false} DedupKeepsFirstOrder<T>(s: seq<T>)
    ensures forall i, j :: 0 <= i < j < |Dedup(s)| ==> FirstIndex(s, Dedup(s)[i]) < FirstIndex(s, Dedup(s)[j])
  {
    if s != [] {
      var init, x := s[..|s| - 1], s[|s| - 1];
      assert s == init + [x];
      var p, r := Dedup(init), Dedup(s);
      DedupKeepsFirstOrder(init);
      FirstIndexExtend(init, x);
      DedupMembers(init);
      assert r == if x in p then p else p + [x];
      forall i, j | 0 <= i < j < |r| ensures FirstIndex(s, r[i]) < FirstIndex(s, r[j]) {
        assert r[i] == p[i] && r[i] in init;
        if j < |p| {
          assert r[j] == p[j] && r[j] in init;
        } else {
          assert r[j] == x && x !in init;
        }
      }
    }
  }

  lemma FirstIndexExtend<T>(s: seq<T>, x: T)
    ensures forall y :: y in s ==> FirstIndex(s + [x], y) == FirstIndex(s, y)
    ensures x !in s ==> FirstIndex(s + [x], x) == |s|
  {
    forall y | y in s ensures FirstIndex(s + [x], y) == FirstIndex(s, y) {
      var k := FirstIndex(s, y);
      assert (s + [x])[k] == y;
    }
  }

  /** Deduplicating one more element appends it exactly when it is new. */
  lemma DedupSnoc<T>(s: seq<T>, x: T)
    ensures Dedup(s + [x]) == if x in s then Dedup(s) else Dedup(s) + [x]
  {
    assert (s + [x])[..|s|] == s;
  }

  /** A sequence without repetitions is its own deduplication. */
  lemma {:induction false} DedupDistinct<T>(s: seq<T>)
    requires Distinct(s)
    ensures Dedup(s) == s
  {
    if s != [] {
      var init := s[..|s| - 1];
      assert Distinct(init);
      DedupDistinct(init);
      assert s[|s| - 1] !in init;
      assert init + [s[|s| - 1]] == s;
    }
  }

  /** Dropping duplicates twice drops nothing more. */
  lemma DedupIdempotent<T>(s: seq<T>)
    ensures Dedup(Dedup(s)) == Dedup(s)
  {
    DedupDistinct(Dedup(s));
  }
}
