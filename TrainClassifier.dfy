/**
 * The record and string handling of the training script (`models/train_classifier.py`): the
 * training text normalizer `process_text`, the split of the stored table into features, labels
 * and category names in `load_data`, and the pairing of categories with label and prediction
 * columns in `evaluate_model`. `word_tokenize` and `WordNetLemmatizer.lemmatize` are parameters.
 */
module TrainClassifier {
  import opened Wrappers
  import opened Text
  import opened Tables

  // ---------------------------------------------------------------------------------------------
  // process_text

  /** The string handed to `word_tokenize`: punctuation replaced by spaces, lower-cased, stripped.
      It is the slice of the lower-cased substitution that starts after its leading whitespace and
      ends before its trailing whitespace. */
  function TokenizerInput(text: string): (r: string)
    ensures forall c :: c in r ==> c == ' ' || IsLowerAlnum(c)
    ensures |r| <= |text|
    ensures var lowered := Lower(Substitute(text));
            WhitespaceCut(lowered, |lowered| - |TrimStart(lowered)|, r)
  {
    var lowered := Lower(Substitute(text));
    SubstitutedChars(text);
    StripChars(lowered);
    StripSlice(lowered);
    Strip(lowered)
  }

  /** After substitution and lower-casing only spaces, lower-case letters and digits remain. */
  lemma SubstitutedChars(text: string)
    ensures forall c :: c in Lower(Substitute(text)) ==> c == ' ' || IsLowerAlnum(c)
  {
    var lowered := Lower(Substitute(text));
    forall c | c in lowered ensures c == ' ' || IsLowerAlnum(c) {
      var i :| 0 <= i < |lowered| && lowered[i] == c;
      assert IsAlnum(Substitute(text)[i]) || Substitute(text)[i] == ' ';
    }
  }

  /** `process_text`: one lemma per token of the normalized text, in token order. */
  function ProcessText(tokenize: string -> seq<string>, lemmatize: string -> string, text: string): (r: seq<string>)
    ensures var tokens := tokenize(TokenizerInput(text));
            |r| == |tokens| && forall k :: 0 <= k < |tokens| ==> r[k] == lemmatize(tokens[k])
  {
    var tokens := tokenize(TokenizerInput(text));
    seq(|tokens|, k requires 0 <= k < |tokens| => lemmatize(tokens[k]))
  }

  /** Lower-casing and stripping come before tokenizing: every token the lemmatizer sees is a
      non-empty string of lower-case ASCII letters and digits. */
  lemma LemmatizerSeesLowerAlnum(tokenize: string -> seq<string>, text: string)
    requires SoundTokens(TokenizerInput(text), tokenize(TokenizerInput(text)))
    ensures var tokens := tokenize(TokenizerInput(text));
            forall k :: 0 <= k < |tokens| ==> tokens[k] != [] && forall c :: c in tokens[k] ==> IsLowerAlnum(c)
  {
  }

  /** Text with no letter or digit (the empty text included) normalizes to the empty string. */
  lemma NoWordsEmptyInput(text: string)
    requires forall i :: 0 <= i < |text| ==> !IsAlnum(text[i])
    ensures TokenizerInput(text) == []
  {
    var lowered := Lower(Substitute(text));
    assert forall i :: 0 <= i < |lowered| ==> lowered[i] == ' ';
    StripAllSpaces(lowered);
  }

  /** ... and so yields no tokens and no lemmas. */
  lemma NoWordsNoLemmas(tokenize: string -> seq<string>, lemmatize: string -> string, text: string)
    requires forall i :: 0 <= i < |text| ==> !IsAlnum(text[i])
    requires SoundTokens("", tokenize(""))
    ensures ProcessText(tokenize, lemmatize, text) == []
  {
    NoWordsEmptyInput(text);
    SoundTokensNeedText("", tokenize(""));
  }

  // ---------------------------------------------------------------------------------------------
  // load_data: features, labels, categories

  /** The columns that are not labels. */
  const FeatureColumns: seq<string> := ["message", "original", "genre", "id"]

  /** `X`, `y` and `categories`. */
  datatype Dataset = Dataset(features: seq<Cell>, labels: Table, categories: seq<string>)

  /** The column split of `load_data`: `df['message']`, then `df.drop(columns=[...])` and its
      columns. A missing or repeated `message` label, or a missing dropped label, is a
      `KeyError`-like failure. */
  function LoadData(t: Table): (r: Result<Dataset, TableError>)
    requires WellFormed(t)
    ensures r.Success? <==> Count(t.columns, "message") == 1 && forall n :: n in FeatureColumns ==> n in t.columns
    ensures r.Failure? && Count(t.columns, "message") != 1 ==> r.error == ColumnIndex(t.columns, "message").error
    ensures r.Success? ==>
              var k := ColumnIndex(t.columns, "message").value;
              var d := r.value;
              && d.features == Column(t, k)
              && WellFormed(d.labels) && |d.labels.rows| == |t.rows|
              && d.categories == d.labels.columns
              && (forall c :: c in d.categories <==> c in t.columns && c !in FeatureColumns)
              && d.categories == Select(t.columns, (set n | n in FeatureColumns), t.columns)
              && (forall i :: 0 <= i < |t.rows| ==> d.labels.rows[i] == Select(t.columns, (set n | n in FeatureColumns), t.rows[i]))
  {
    var k :- ColumnIndex(t.columns, "message");
    var y :- DropColumns(t, FeatureColumns);
    Success(Dataset(Column(t, k), y, y.columns))
  }

  /** Columns that start with `id`, `message`, `original`, `genre` and repeat none of them hold
      `message` once and every feature column. */
  lemma FeaturesFirst(columns: seq<string>)
    requires |columns| >= 4 && columns[..4] == ["id", "message", "original", "genre"]
    requires forall j :: 4 <= j < |columns| ==> columns[j] !in FeatureColumns
    ensures Count(columns, "message") == 1
    ensures forall n :: n in FeatureColumns ==> n in columns
  {
    MessageOnceFirst(columns);
    forall n | n in FeatureColumns ensures n in columns {
      assert n in columns[..4];
    }
  }

  /** ... `message` once, because it is among the first four and not among the rest. */
  lemma MessageOnceFirst(columns: seq<string>)
    requires |columns| >= 4 && columns[..4] == ["id", "message", "original", "genre"]
    requires forall j :: 4 <= j < |columns| ==> columns[j] !in FeatureColumns
    ensures Count(columns, "message") == 1
  {
    var four, rest := columns[..4], columns[4..];
    assert columns == four + rest;
    assert "message" !in rest by {
      forall i | 0 <= i < |rest| ensures rest[i] != "message" {
        assert rest[i] == columns[i + 4];
      }
    }
    CountAppend(four, rest, "message");
    MessageOnceAmongFeatures();
  }

  /** `message` is one of the four feature columns, once. */
  lemma MessageOnceAmongFeatures()
    ensures Count(["id", "message", "original", "genre"], "message") == 1
  {
    var four: seq<string> := ["id", "message", "original", "genre"];
    assert four[1..] == ["message", "original", "genre"];
    assert "message" !in four[1..][1..];
  }

  /** Dropping the feature columns from the front keeps exactly the rest. */
  lemma SelectAfterFeatures<T>(columns: seq<string>, dropped: set<string>, xs: seq<T>)
    requires |columns| >= 4 && columns[..4] == ["id", "message", "original", "genre"]
    requires forall j :: 4 <= j < |columns| ==> columns[j] !in FeatureColumns
    requires forall n :: n in dropped <==> n in FeatureColumns
    requires |xs| == |columns|
    ensures Select(columns, dropped, xs) == xs[4..]
  {
    assert forall i :: 0 <= i < 4 ==> columns[i] in dropped by {
      assert forall i :: 0 <= i < 4 ==> columns[i] == columns[..4][i];
    }
    assert forall i :: 0 <= i < |columns[4..]| ==> columns[4..][i] !in dropped;
    SelectDroppedPrefix(columns, dropped, xs, 4);
    SelectNoneDropped(columns[4..], dropped, xs[4..]);
  }

  /** For the table the dataset builder writes (`id`, `message`, `original`, `genre`, then the
      category columns), the categories are exactly the columns after the first four, in order,
      and each label row is the tail of its table row. */
  lemma CategoriesAfterFirstFour(t: Table)
    requires WellFormed(t) && |t.columns| >= 4
    requires t.columns[..4] == ["id", "message", "original", "genre"]
    requires forall j :: 4 <= j < |t.columns| ==> t.columns[j] !in FeatureColumns
    ensures LoadData(t).Success?
    ensures LoadData(t).value.categories == t.columns[4..]
    ensures forall i :: 0 <= i < |t.rows| ==> LoadData(t).value.labels.rows[i] == t.rows[i][4..]
  {
    var dropped := set n | n in FeatureColumns;
    FeaturesFirst(t.columns);
    SelectAfterFeatures(t.columns, dropped, t.columns);
    forall i | 0 <= i < |t.rows| ensures LoadData(t).value.labels.rows[i] == t.rows[i][4..] {
      SelectAfterFeatures(t.columns, dropped, t.rows[i]);
    }
  }

  // ---------------------------------------------------------------------------------------------
  // evaluate_model: one report per category

  /** A two-dimensional prediction array: `width` columns and one row per test message. */
  datatype Matrix = Matrix(width: nat, rows: seq<seq<Cell>>)

  predicate Rectangular(m: Matrix) {
    forall i :: 0 <= i < |m.rows| ==> |m.rows[i]| == m.width
  }

  /** `preds[:, j]`. */
  function MatrixColumn(m: Matrix, j: nat): (col: seq<Cell>)
    requires Rectangular(m) && j < m.width
    ensures |col| == |m.rows| && forall i :: 0 <= i < |m.rows| ==> col[i] == m.rows[i][j]
  {
    seq(|m.rows|, i requires 0 <= i < |m.rows| => m.rows[i][j])
  }

  /** What one `classification_report` is computed from: the upper-cased category name, the true
      labels and the predicted labels of that category. */
  datatype Report = Report(title: string, truth: seq<Cell>, predicted: seq<Cell>)

  /** `y_test.iloc[:, i]` or `preds[:, i]` past the last column: an `IndexError`. */
  datatype EvalError = ColumnOutOfRange(index: nat)

  function Min(a: nat, b: nat): nat { if a < b then a else b }

  function Max(a: nat, b: nat): nat { if a < b then b else a }

  /** The reports of categories `i..`, in category order. */
  function ReportsFrom(categories: seq<string>, yTest: Table, preds: Matrix, i: nat): (r: Result<seq<Report>, EvalError>)
    requires WellFormed(yTest) && Rectangular(preds) && i <= |categories|
    ensures r.Success? <==> (|categories| <= |yTest.columns| && |categories| <= preds.width) || |categories| == i
    ensures r.Failure? ==> r.error.index == Max(i, Min(|yTest.columns|, preds.width))
    ensures r.Success? ==> |r.value| == |categories| - i
    ensures r.Success? ==> forall m :: 0 <= m < |r.value| ==>
              i + m < |yTest.columns| && i + m < preds.width
              && r.value[m] == Report(Upper(categories[i + m]), Column(yTest, i + m), MatrixColumn(preds, i + m))
    decreases |categories| - i
  {
    if i == |categories| then Success([])
    else if i >= |yTest.columns| || i >= preds.width then Failure(ColumnOutOfRange(i))
    else
      var report := Report(Upper(categories[i]), Column(yTest, i), MatrixColumn(preds, i));
      var rest :- ReportsFrom(categories, yTest, preds, i + 1);
      assert forall m :: 1 <= m < 1 + |rest| ==> ([report] + rest)[m] == rest[m - 1];
      Success([report] + rest)
  }

  /** The loop of `evaluate_model`: the i-th category is reported against the i-th label column
      and the i-th prediction column. */
  function EvaluationReports(categories: seq<string>, yTest: Table, preds: Matrix): (r: Result<seq<Report>, EvalError>)
    requires WellFormed(yTest) && Rectangular(preds)
    ensures r.Success? <==> |categories| <= |yTest.columns| && |categories| <= preds.width
    ensures r.Failure? ==> r.error.index == Min(|yTest.columns|, preds.width)
    ensures r.Success? ==> |r.value| == |categories|
    ensures r.Success? ==> forall i :: 0 <= i < |categories| ==>
              r.value[i] == Report(Upper(categories[i]), Column(yTest, i), MatrixColumn(preds, i))
  {
    var r := ReportsFrom(categories, yTest, preds, 0);
    assert r.Success? ==> forall i :: 0 <= i < |categories| ==> r.value[0 + i] == r.value[i];
    r
  }

  /** When the categories are the label columns and the model predicts one value per label, there
      is exactly one report per category, each titled with that category. */
  lemma EvaluateLoadedData(t: Table, preds: Matrix)
    requires WellFormed(t) && LoadData(t).Success? && Rectangular(preds)
    requires preds.width == |LoadData(t).value.categories|
    ensures var d := LoadData(t).value;
            var r := EvaluationReports(d.categories, d.labels, preds);
            && r.Success? && |r.value| == |d.categories|
            && forall i :: 0 <= i < |r.value| ==> r.value[i].title == Upper(d.categories[i]) && r.value[i].truth == Column(d.labels, i)
  {
  }
}
