/**
 * The logic of the dashboard (`app/run.py`): the serving text normalizer `process_text`, the
 * statistics behind the `/data` page (messages per genre, messages per category, the ten most
 * frequent words) and the category-to-label mapping of `/classify`. `word_tokenize`,
 * `WordNetLemmatizer.lemmatize`, the stopword list and the trained model's predictions are
 * parameters.
 */
module App {
  import opened Wrappers
  import opened Text
  import opened Tables
  import opened Ranking
  import TrainClassifier

  // ---------------------------------------------------------------------------------------------
  // process_text (serving)

  /** One token as the serving `process_text` cleans it: lemmatized, lower-cased, stripped. */
  function CleanToken(lemmatize: string -> string, token: string): string {
    Strip(Lower(lemmatize(token)))
  }

  /** What the serving `process_text` returns: for each token of the punctuation-free text, its
      cleaned lemma. */
  function Normalized(tokenize: string -> seq<string>, lemmatize: string -> string, text: string): (r: seq<string>)
    ensures |r| == |tokenize(Substitute(text))|
  {
    var tokens := tokenize(Substitute(text));
    seq(|tokens|, k requires 0 <= k < |tokens| => CleanToken(lemmatize, tokens[k]))
  }

  /** Every token the serving normalizer returns is free of upper-case letters and neither starts
      nor ends with whitespace, whatever the tokenizer and lemmatizer do. */
  lemma NormalizedTokens(tokenize: string -> seq<string>, lemmatize: string -> string, text: string)
    ensures var r := Normalized(tokenize, lemmatize, text);
            forall k :: 0 <= k < |r| ==>
              (forall c :: c in r[k] ==> !IsUpper(c)) && (r[k] != [] ==> !IsSpace(r[k][0]) && !IsSpace(r[k][|r[k]| - 1]))
  {
    var tokens := tokenize(Substitute(text));
    var r := Normalized(tokenize, lemmatize, text);
    forall k | 0 <= k < |r|
      ensures (forall c :: c in r[k] ==> !IsUpper(c)) && (r[k] != [] ==> !IsSpace(r[k][0]) && !IsSpace(r[k][|r[k]| - 1]))
    {
      StripChars(Lower(lemmatize(tokens[k])));
      StripSlice(Lower(lemmatize(tokens[k])));
    }
  }

  /** `process_text` as the source runs it: a loop appending one cleaned token per token. */
  method ProcessText(tokenize: string -> seq<string>, lemmatize: string -> string, text: string)
    returns (cleanTokens: seq<string>)
    ensures cleanTokens == Normalized(tokenize, lemmatize, text)
  {
    var subText := Substitute(text);
    var tokens := tokenize(subText);
    cleanTokens := [];
    for k := 0 to |tokens|
      invariant |cleanTokens| == k
      invariant forall m :: 0 <= m < k ==> cleanTokens[m] == CleanToken(lemmatize, tokens[m])
    {
      var cleanTok := Strip(Lower(lemmatize(tokens[k])));
      cleanTokens := cleanTokens + [cleanTok];
    }
  }

  /** The two normalizers apply the same steps in a different order. When tokenizing commutes with
      lower-casing and stripping on a given text (true of whitespace tokenizing), they agree on it
      exactly when lemmatizing each lower-cased token gives the lower-cased, stripped lemma of the
      token. */
  lemma NormalizersAgreeIff(tokenize: string -> seq<string>, lemmatize: string -> string, text: string)
    requires var tokens := tokenize(Substitute(text));
             tokenize(TrainClassifier.TokenizerInput(text)) == seq(|tokens|, k requires 0 <= k < |tokens| => Lower(tokens[k]))
    ensures var tokens := tokenize(Substitute(text));
            TrainClassifier.ProcessText(tokenize, lemmatize, text) == Normalized(tokenize, lemmatize, text)
            <==> forall k :: 0 <= k < |tokens| ==> lemmatize(Lower(tokens[k])) == CleanToken(lemmatize, tokens[k])
  {
    var tokens := tokenize(Substitute(text));
    var train := TrainClassifier.ProcessText(tokenize, lemmatize, text);
    var serve := Normalized(tokenize, lemmatize, text);
    assert |train| == |serve|;
    if train == serve {
      forall k | 0 <= k < |tokens| ensures lemmatize(Lower(tokens[k])) == CleanToken(lemmatize, tokens[k]) {
        assert train[k] == serve[k];
      }
    }
  }

  /** A lemmatizer that, like WordNet's, knows the lower-case plural `dogs` but leaves the
      capitalised `Dogs` alone. */
  function PluralLemmatizer(word: string): string {
    if word == "dogs" then "dog" else word
  }

  /** A tokenizer that returns its whole input as the one token. */
  function WholeText(s: string): seq<string> {
    [s]
  }

  /** The training normalizer lower-cases `"Dogs"` before the lemmatizer sees it. */
  lemma TrainedOnDogs()
    ensures TrainClassifier.ProcessText(WholeText, PluralLemmatizer, "Dogs") == ["dog"]
  {
    assert TrainClassifier.TokenizerInput("Dogs") == "dogs" by {
      DogsLowered("Dogs");
      StripUnchanged("dogs");
    }
  }

  /** Substituting and lower-casing turn `"Dogs"` into `"dogs"`. */
  lemma DogsLowered(text: string)
    requires text == "Dogs"
    ensures Lower(Substitute(text)) == "dogs"
  {
    assert Substitute(text) == text;
  }

  /** The serving normalizer lemmatizes `"Dogs"` before lower-casing it. */
  lemma ServedOnDogs()
    ensures Normalized(WholeText, PluralLemmatizer, "Dogs") == ["dogs"]
  {
    assert Substitute("Dogs") == "Dogs";
    assert PluralLemmatizer("Dogs") == "Dogs";
    assert Lower("Dogs") == "dogs";
    StripUnchanged("dogs");
    assert CleanToken(PluralLemmatizer, "Dogs") == "dogs";
  }

  /** On `"Dogs"` the training normalizer gives `["dog"]` and the serving one `["dogs"]`: the
      lemmatizer does not commute with lower-casing, so the two disagree. */
  lemma NormalizersDisagreeOnDogs()
    ensures TrainClassifier.ProcessText(WholeText, PluralLemmatizer, "Dogs")
            != Normalized(WholeText, PluralLemmatizer, "Dogs")
  {
    TrainedOnDogs();
    ServedOnDogs();
    assert "dog" != "dogs";
  }

  // ---------------------------------------------------------------------------------------------
  // The corpus

  /** The token lists joined end to end, in message order. */
  function Flatten(lists: seq<seq<string>>): seq<string> {
    if lists == [] then [] else Flatten(lists[..|lists| - 1]) + lists[|lists| - 1]
  }

  /** The sum of the lengths of the lists. */
  function TotalLength(lists: seq<seq<string>>): nat {
    if lists == [] then 0 else |lists[0]| + TotalLength(lists[1..])
  }

  /** Flattening distributes over concatenation. */
  lemma {:induction false} FlattenAppend(a: seq<seq<string>>, b: seq<seq<string>>)
    ensures Flatten(a + b) == Flatten(a) + Flatten(b)
  {
    if b == [] {
      assert a + b == a;
    } else {
      var b', last := b[..|b| - 1], b[|b| - 1];
      FlattenAppend(a, b');
      assert (a + b)[..|a + b| - 1] == a + b';
      assert (a + b)[|a + b| - 1] == last;
      calc {
        Flatten(a + b);
        Flatten(a + b') + last;
        Flatten(a) + Flatten(b') + last;
        Flatten(a) + (Flatten(b') + last);
        Flatten(a) + Flatten(b);
      }
    }
  }

  /** The corpus holds as many tokens as all the lists together. */
  lemma {:induction false} FlattenLength(lists: seq<seq<string>>)
    ensures |Flatten(lists)| == TotalLength(lists)
  {
    if lists != [] {
      FlattenLength(lists[1..]);
      FlattenAppend([lists[0]], lists[1..]);
      assert [lists[0]] + lists[1..] == lists;
      assert Flatten([lists[0]]) == lists[0] by {
        assert [lists[0]][..0] == [];
      }
    }
  }

  /** The nested append loops that build `corpus`. */
  method BuildCorpus(tokensList: seq<seq<string>>) returns (corpus: seq<string>)
    ensures corpus == Flatten(tokensList)
  {
    corpus := [];
    for i := 0 to |tokensList|
      invariant corpus == Flatten(tokensList[..i])
    {
      var lista := tokensList[i];
      for j := 0 to |lista|
        invariant corpus == Flatten(tokensList[..i]) + lista[..j]
      {
        corpus := corpus + [lista[j]];
      }
      assert tokensList[..i + 1][..i] == tokensList[..i];
      assert lista[..|lista|] == lista;
    }
    assert tokensList[..|tokensList|] == tokensList;
  }

  // ---------------------------------------------------------------------------------------------
  // Word counts

  /** The sum over `keys` of the occurrences of each key in `s`. */
  function TotalCount(keys: seq<string>, s: seq<string>): nat {
    if keys == [] then 0 else Count(s, keys[0]) + TotalCount(keys[1..], s)
  }

  /** One more element of `s` adds one to the total of every key list that holds it once. */
  lemma {:induction false} TotalCountSnoc(keys: seq<string>, s: seq<string>, x: string)
    ensures TotalCount(keys, s + [x]) == TotalCount(keys, s) + Count(keys, x)
  {
    if keys != [] {
      TotalCountSnoc(keys[1..], s, x);
      CountAppend(s, [x], keys[0]);
      assert [keys[0]] + keys[1..] == keys;
      CountAppend([keys[0]], keys[1..], x);
    }
  }

  /** One more key adds its occurrences. */
  lemma {:induction false} TotalCountExtend(keys: seq<string>, s: seq<string>, y: string)
    ensures TotalCount(keys + [y], s) == TotalCount(keys, s) + Count(s, y)
  {
    if keys != [] {
      TotalCountExtend(keys[1..], s, y);
      assert (keys + [y])[1..] == keys[1..] + [y];
    }
  }

  /** Counting every distinct word accounts for every token exactly once. */
  lemma {:induction false} CountsSumToLength(s: seq<string>)
    ensures TotalCount(Dedup(s), s) == |s|
  {
    if s != [] {
      var init, x := s[..|s| - 1], s[|s| - 1];
      assert s == init + [x];
      CountsSumToLength(init);
      DedupSnoc(init, x);
      TotalCountSnoc(Dedup(init), init, x);
      if x in init {
        DistinctCountAtMostOne(Dedup(init), x);
      } else {
        TotalCountExtend(Dedup(init), s, x);
        TotalCountSnoc(Dedup(init), init, x);
        CountAppend(init, [x], x);
      }
    }
  }

  /** The sum of the dictionary's values over `keys`. */
  function SumValues(keys: seq<string>, d: map<string, nat>): nat
    requires forall k :: k in keys ==> k in d
  {
    if keys == [] then 0 else d[keys[0]] + SumValues(keys[1..], d)
  }

  /** A dictionary holding each key's count sums like the counts. */
  lemma {:induction false} SumValuesIsTotalCount(keys: seq<string>, d: map<string, nat>, s: seq<string>)
    requires forall k :: k in keys ==> k in d && d[k] == Count(s, k)
    ensures SumValues(keys, d) == TotalCount(keys, s)
  {
    if keys != [] {
      SumValuesIsTotalCount(keys[1..], d, s);
    }
  }

  /** `d` counts the words of `seen`, and `keys` lists them in the order they were first seen. */
  ghost predicate Tallied(seen: seq<string>, keys: seq<string>, d: map<string, nat>) {
    && keys == Dedup(seen)
    && (forall w :: w in d <==> w in seen)
    && (forall w :: w in d ==> d[w] == Count(seen, w))
  }

  /** One more word adds one occurrence of it and none of any other word. */
  lemma CountSnoc(seen: seq<string>, word: string)
    ensures forall w :: Count(seen + [word], w) == Count(seen, w) + (if w == word then 1 else 0)
  {
    forall w ensures Count(seen + [word], w) == Count(seen, w) + (if w == word then 1 else 0) {
      CountAppend(seen, [word], w);
    }
  }

  lemma TallyAgain(seen: seq<string>, word: string, keys: seq<string>, d: map<string, nat>)
    requires Tallied(seen, keys, d) && word in d
    ensures Tallied(seen + [word], keys, d[word := d[word] + 1])
  {
    var seen', d' := seen + [word], d[word := d[word] + 1];
    assert keys == Dedup(seen') by {
      DedupSnoc(seen, word);
    }
    assert forall w :: w in d' <==> w in seen' by {
      forall w ensures w in d' <==> w in seen' {
        assert w in seen' <==> w in seen || w == word;
      }
    }
    RecountAgain(seen, word, d);
  }

  /** A word already counted goes up by one, and every other count stays. */
  lemma RecountAgain(seen: seq<string>, word: string, d: map<string, nat>)
    requires word in d && forall w :: w in d ==> d[w] == Count(seen, w)
    ensures var d' := d[word := d[word] + 1];
            forall w :: w in d' ==> d'[w] == Count(seen + [word], w)
  {
    forall w | w in d ensures Count(seen + [word], w) == Count(seen, w) + (if w == word then 1 else 0) {
      CountAppend(seen, [word], w);
    }
  }

  lemma TallyNew(seen: seq<string>, word: string, keys: seq<string>, d: map<string, nat>)
    requires Tallied(seen, keys, d) && word !in d
    ensures Tallied(seen + [word], keys + [word], d[word := 1])
  {
    DedupSnoc(seen, word);
    CountSnoc(seen, word);
  }

  /** The word-count loop: `d[word] = d[word] + 1` or `d[word] = 1`. `keys` is the order in which
      the dictionary first saw its keys, which `d.keys()` returns. */
  method CountWords(corpus: seq<string>) returns (keys: seq<string>, d: map<string, nat>)
    ensures keys == Dedup(corpus)
    ensures forall w :: w in d <==> w in corpus
    ensures forall w :: w in d ==> d[w] == Count(corpus, w)
    ensures SumValues(keys, d) == |corpus|
  {
    keys := [];
    d := map[];
    for i := 0 to |corpus|
      invariant Tallied(corpus[..i], keys, d)
    {
      var word := corpus[i];
      assert corpus[..i + 1] == corpus[..i] + [word];
      if word in d {
        TallyAgain(corpus[..i], word, keys, d);
        d := d[word := d[word] + 1];
      } else {
        TallyNew(corpus[..i], word, keys, d);
        d := d[word := 1];
        keys := keys + [word];
      }
    }
    assert corpus[..|corpus|] == corpus;
    SumValuesIsTotalCount(keys, d, corpus);
    CountsSumToLength(corpus);
  }

  /** The `words` frame: one entry per distinct word, in dictionary order, with its count. */
  function WordEntries(keys: seq<string>, d: map<string, nat>): (entries: seq<Entry>)
    requires forall k :: k in keys ==> k in d
    ensures |entries| == |keys|
    ensures forall i :: 0 <= i < |keys| ==> entries[i] == Entry(keys[i], d[keys[i]])
  {
    seq(|keys|, i requires 0 <= i < |keys| => Entry(keys[i], d[keys[i]]))
  }

  // ---------------------------------------------------------------------------------------------
  // Category counts

  /** A cell's contribution to a column sum; a missing value is skipped. */
  function CellValue(c: Cell): int {
    if c.Int? then c.i else 0
  }

  /** `Series.sum()` over integer cells. */
  function SumCells(cells: seq<Cell>): int {
    if cells == [] then 0 else CellValue(cells[0]) + SumCells(cells[1..])
  }

  /** On a 0/1 category column the sum is the number of messages in the category. */
  lemma {:induction false} BinarySumCountsOnes(cells: seq<Cell>)
    requires forall i :: 0 <= i < |cells| ==> cells[i] == Int(0) || cells[i] == Int(1)
    ensures SumCells(cells) == Count(cells, Int(1))
  {
    if cells != [] {
      BinarySumCountsOnes(cells[1..]);
      assert [cells[0]] + cells[1..] == cells;
      CountAppend([cells[0]], cells[1..], Int(1));
    }
  }

  /** The `cat` frame before sorting: each label column with the sum of its cells. */
  function CategoryTotals(y: Table): (entries: seq<Entry>)
    requires WellFormed(y)
    ensures |entries| == |y.columns|
    ensures forall j :: 0 <= j < |y.columns| ==> entries[j] == Entry(y.columns[j], SumCells(Column(y, j)))
  {
    seq(|y.columns|, j requires 0 <= j < |y.columns| => Entry(y.columns[j], SumCells(Column(y, j))))
  }

  /** `df.drop(columns=['id', 'message', 'original', 'genre'])`, its column sums, sorted by count,
      descending. */
  function CategoryCounts(t: Table): (r: Result<seq<Entry>, TableError>)
    requires WellFormed(t)
    ensures r.Success? <==> forall n :: n in TrainClassifier.FeatureColumns ==> n in t.columns
    ensures r.Success? ==> SortedDesc(r.value)
    ensures r.Success? ==> multiset(r.value) == multiset(CategoryTotals(DropColumns(t, ["id", "message", "original", "genre"]).value))
  {
    var y :- DropColumns(t, ["id", "message", "original", "genre"]);
    Success(SortByCount(CategoryTotals(y)))
  }

  /** Dropping the features from a table the dataset builder writes cuts the first four cells
      off its header and every row. */
  lemma DropLeadingFeatures(t: Table)
    requires WellFormed(t) && |t.columns| >= 4
    requires t.columns[..4] == ["id", "message", "original", "genre"]
    requires forall j :: 4 <= j < |t.columns| ==> t.columns[j] !in TrainClassifier.FeatureColumns
    ensures DropColumns(t, ["id", "message", "original", "genre"]).Success?
    ensures var y := DropColumns(t, ["id", "message", "original", "genre"]).value;
            && y.columns == t.columns[4..]
            && |y.rows| == |t.rows| && forall i :: 0 <= i < |t.rows| ==> y.rows[i] == t.rows[i][4..]
  {
    var dropNames := ["id", "message", "original", "genre"];
    var dropped := set n | n in dropNames;
    assert forall n :: n in dropped <==> n in TrainClassifier.FeatureColumns;
    TrainClassifier.FeaturesFirst(t.columns);
    var y := DropColumns(t, dropNames).value;
    TrainClassifier.SelectAfterFeatures(t.columns, dropped, t.columns);
    forall i | 0 <= i < |t.rows| ensures y.rows[i] == t.rows[i][4..] {
      TrainClassifier.SelectAfterFeatures(t.columns, dropped, t.rows[i]);
    }
  }

  /** The label table of a table the dataset builder writes: its columns and column cells are
      those after the first four. */
  lemma LabelsOfBuiltTable(t: Table)
    requires WellFormed(t) && |t.columns| >= 4
    requires t.columns[..4] == ["id", "message", "original", "genre"]
    requires forall j :: 4 <= j < |t.columns| ==> t.columns[j] !in TrainClassifier.FeatureColumns
    ensures DropColumns(t, ["id", "message", "original", "genre"]).Success?
    ensures var y := DropColumns(t, ["id", "message", "original", "genre"]).value;
            && y.columns == t.columns[4..]
            && forall j :: 0 <= j < |y.columns| ==> Column(y, j) == Column(t, j + 4)
  {
    DropLeadingFeatures(t);
    var y := DropColumns(t, ["id", "message", "original", "genre"]).value;
    forall j | 0 <= j < |y.columns| ensures Column(y, j) == Column(t, j + 4) {
      forall i | 0 <= i < |t.rows| ensures y.rows[i][j] == t.rows[i][j + 4] {
        assert y.rows[i] == t.rows[i][4..];
      }
    }
  }

  /** The column sums of such a table's labels are those of its columns after the first four. */
  lemma TotalsOfBuiltTable(t: Table)
    requires WellFormed(t) && |t.columns| >= 4
    requires t.columns[..4] == ["id", "message", "original", "genre"]
    requires forall j :: 4 <= j < |t.columns| ==> t.columns[j] !in TrainClassifier.FeatureColumns
    ensures DropColumns(t, ["id", "message", "original", "genre"]).Success?
    ensures var totals := CategoryTotals(DropColumns(t, ["id", "message", "original", "genre"]).value);
            forall e :: e in totals <==> exists j :: 4 <= j < |t.columns| && e == Entry(t.columns[j], SumCells(Column(t, j)))
  {
    LabelsOfBuiltTable(t);
    TotalsOfShiftedColumns(t, DropColumns(t, ["id", "message", "original", "genre"]).value);
  }

  /** A table whose columns are those of `t` after the first four has as column sums those of
      `t`'s columns after the first four. */
  lemma TotalsOfShiftedColumns(t: Table, y: Table)
    requires WellFormed(t) && WellFormed(y) && |t.columns| >= 4
    requires y.columns == t.columns[4..]
    requires forall j :: 0 <= j < |y.columns| ==> Column(y, j) == Column(t, j + 4)
    ensures forall e :: e in CategoryTotals(y) <==> exists j :: 4 <= j < |t.columns| && e == Entry(t.columns[j], SumCells(Column(t, j)))
  {
    var totals := CategoryTotals(y);
    forall e | e in totals ensures exists j :: 4 <= j < |t.columns| && e == Entry(t.columns[j], SumCells(Column(t, j))) {
      var m :| 0 <= m < |totals| && totals[m] == e;
      assert e == Entry(t.columns[m + 4], SumCells(Column(t, m + 4)));
    }
    forall j | 4 <= j < |t.columns| ensures Entry(t.columns[j], SumCells(Column(t, j))) in totals {
      assert totals[j - 4] == Entry(t.columns[j], SumCells(Column(t, j)));
    }
  }

  /** For the table the dataset builder writes, the category counts are, in some order of
      descending count, exactly the columns after the first four each with its column sum. */
  lemma CategoryCountsOfBuiltTable(t: Table)
    requires WellFormed(t) && |t.columns| >= 4
    requires t.columns[..4] == ["id", "message", "original", "genre"]
    requires forall j :: 4 <= j < |t.columns| ==> t.columns[j] !in TrainClassifier.FeatureColumns
    ensures CategoryCounts(t).Success?
    ensures forall e :: e in CategoryCounts(t).value <==>
              exists j :: 4 <= j < |t.columns| && e == Entry(t.columns[j], SumCells(Column(t, j)))
  {
    TotalsOfBuiltTable(t);
    var y := DropColumns(t, ["id", "message", "original", "genre"]).value;
    assert CategoryCounts(t).value == SortByCount(CategoryTotals(y));
  }

  // ---------------------------------------------------------------------------------------------
  // Genre counts

  /** The genres of the rows whose genre and message are both present: the rows
      `groupby('genre').count()['message']` counts. */
  function CountedGenres(genres: seq<Cell>, messages: seq<Cell>): (r: seq<Cell>)
    requires |genres| == |messages|
    ensures forall g :: g in r <==> exists i :: 0 <= i < |genres| && genres[i] == g && g != Missing && messages[i] != Missing
  {
    if genres == [] then []
    else
      var rest := CountedGenres(genres[1..], messages[1..]);
      assert forall g :: (exists i :: 1 <= i < |genres| && genres[i] == g && g != Missing && messages[i] != Missing)
                           <==> g in rest by {
        forall g | g in rest
          ensures exists i :: 1 <= i < |genres| && genres[i] == g && g != Missing && messages[i] != Missing
        {
          var i :| 0 <= i < |genres| - 1 && genres[1..][i] == g && g != Missing && messages[1..][i] != Missing;
          assert genres[i + 1] == g && messages[i + 1] != Missing;
        }
        forall g, i | 1 <= i < |genres| && genres[i] == g && g != Missing && messages[i] != Missing
          ensures g in rest
        {
          assert genres[1..][i - 1] == g && messages[1..][i - 1] != Missing;
        }
      }
      (if genres[0] != Missing && messages[0] != Missing then [genres[0]] else []) + rest
  }

  /** `df.groupby('genre').count()['message']`: for every genre present, the number of its rows
      whose message is present. Rows without a genre form no group. */
  function GenreCounts(genres: seq<Cell>, messages: seq<Cell>): (r: map<Cell, nat>)
    requires |genres| == |messages|
    ensures r.Keys == set i | 0 <= i < |genres| && genres[i] != Missing :: genres[i]
    ensures forall g :: g in r ==> r[g] == Count(CountedGenres(genres, messages), g)
  {
    map g | g in (set i | 0 <= i < |genres| && genres[i] != Missing :: genres[i]) :: Count(CountedGenres(genres, messages), g)
  }

  /** The counted genres of two runs of rows, one after the other, are those of each run in
      turn: one entry per counted row, in row order. */
  lemma {:induction false} CountedGenresAppend(g1: seq<Cell>, g2: seq<Cell>, m1: seq<Cell>, m2: seq<Cell>)
    requires |g1| == |m1| && |g2| == |m2|
    ensures CountedGenres(g1 + g2, m1 + m2) == CountedGenres(g1, m1) + CountedGenres(g2, m2)
  {
    if g1 == [] {
      assert g1 + g2 == g2 && m1 + m2 == m2;
    } else {
      assert (g1 + g2)[0] == g1[0] && (g1 + g2)[1..] == g1[1..] + g2;
      assert (m1 + m2)[0] == m1[0] && (m1 + m2)[1..] == m1[1..] + m2;
      CountedGenresAppend(g1[1..], g2, m1[1..], m2);
      var head: seq<Cell> := if g1[0] != Missing && m1[0] != Missing then [g1[0]] else [];
      assert head + (CountedGenres(g1[1..], m1[1..]) + CountedGenres(g2, m2))
          == (head + CountedGenres(g1[1..], m1[1..])) + CountedGenres(g2, m2);
    }
  }

  /** One row is counted under its genre exactly when its genre and message are both present. */
  lemma CountedGenresOne(g: Cell, m: Cell)
    ensures CountedGenres([g], [m]) == if g != Missing && m != Missing then [g] else []
  {
    assert [g][1..] == [] && [m][1..] == [];
  }

  /** The rows of genre `g` whose message is present. */
  function GenreRows(genres: seq<Cell>, messages: seq<Cell>, g: Cell): set<nat>
    requires |genres| == |messages|
  {
    set i | 0 <= i < |genres| && genres[i] == g && messages[i] != Missing
  }

  /** A genre occurs among the counted genres once per row of that genre whose message is
      present. */
  lemma {:induction false} CountedGenresCount(genres: seq<Cell>, messages: seq<Cell>, g: Cell)
    requires |genres| == |messages| && g != Missing
    ensures Count(CountedGenres(genres, messages), g) == |GenreRows(genres, messages, g)|
    decreases |genres|
  {
    if genres == [] {
      assert GenreRows(genres, messages, g) == {};
    } else {
      var n := |genres| - 1;
      CountedGenresCount(genres[..n], messages[..n], g);
      CountedGenresSnoc(genres, messages, g);
      GenreRowsSnoc(genres, messages, g);
    }
  }

  /** The last row adds one to the count of its genre when its message is present. */
  lemma CountedGenresSnoc(genres: seq<Cell>, messages: seq<Cell>, g: Cell)
    requires |genres| == |messages| && genres != [] && g != Missing
    ensures var n := |genres| - 1;
            Count(CountedGenres(genres, messages), g)
            == Count(CountedGenres(genres[..n], messages[..n]), g) + if genres[n] == g && messages[n] != Missing then 1 else 0
  {
    var n := |genres| - 1;
    var g0, m0 := genres[..n], messages[..n];
    assert genres == g0 + [genres[n]] && messages == m0 + [messages[n]];
    CountedGenresAppend(g0, [genres[n]], m0, [messages[n]]);
    CountedGenresOne(genres[n], messages[n]);
    CountAppend(CountedGenres(g0, m0), CountedGenres([genres[n]], [messages[n]]), g);
  }

  /** The last row joins the rows of its genre when its message is present. */
  lemma GenreRowsSnoc(genres: seq<Cell>, messages: seq<Cell>, g: Cell)
    requires |genres| == |messages| && genres != []
    ensures var n := |genres| - 1;
            |GenreRows(genres, messages, g)|
            == |GenreRows(genres[..n], messages[..n], g)| + if genres[n] == g && messages[n] != Missing then 1 else 0
  {
    var n := |genres| - 1;
    var rows, before := GenreRows(genres, messages, g), GenreRows(genres[..n], messages[..n], g);
    if genres[n] == g && messages[n] != Missing {
      assert |rows| == |before| + 1 by {
        SamePrefixRows(genres, messages, g);
        assert n !in before;
        assert rows == before + {n};
      }
    } else {
      assert |rows| == |before| by {
        SamePrefixRows(genres, messages, g);
        assert rows == before;
      }
    }
  }

  /** Below the last row, the rows of a genre are those of the shorter sequences. */
  lemma SamePrefixRows(genres: seq<Cell>, messages: seq<Cell>, g: Cell)
    requires |genres| == |messages| && genres != []
    ensures var n := |genres| - 1;
            forall i :: 0 <= i < n ==> (i in GenreRows(genres, messages, g) <==> i in GenreRows(genres[..n], messages[..n], g))
  {
    var n := |genres| - 1;
    forall i | 0 <= i < n
      ensures i in GenreRows(genres, messages, g) <==> i in GenreRows(genres[..n], messages[..n], g)
    {
      assert genres[..n][i] == genres[i] && messages[..n][i] == messages[i];
    }
  }

  /** `groupby('genre').count()['message']` counts, for each genre, its rows whose message is
      present. */
  lemma GenreCountsRows(genres: seq<Cell>, messages: seq<Cell>)
    requires |genres| == |messages|
    ensures var r := GenreCounts(genres, messages);
            forall g :: g in r ==> r[g] == |GenreRows(genres, messages, g)|
  {
    forall g | g in GenreCounts(genres, messages)
      ensures GenreCounts(genres, messages)[g] == |GenreRows(genres, messages, g)|
    {
      CountedGenresCount(genres, messages, g);
    }
  }

  /** Every counted message is counted in exactly one genre. */
  lemma GenreCountsTotal(genres: seq<Cell>, messages: seq<Cell>)
    requires |genres| == |messages|
    ensures var counted := CountedGenres(genres, messages);
            var groups := Dedup(counted);
            (forall g :: g in groups ==> g in GenreCounts(genres, messages))
            && GroupTotal(groups, GenreCounts(genres, messages)) == |counted|
  {
    var counted := CountedGenres(genres, messages);
    var r := GenreCounts(genres, messages);
    var groups := Dedup(counted);
    forall g | g in groups ensures g in r {
      var i :| 0 <= i < |genres| && genres[i] == g && g != Missing && messages[i] != Missing;
    }
    GroupTotalIsCellCount(groups, r, counted);
    CellCountsSumToLength(counted);
  }

  /** The sum of the group sizes over `groups`. */
  function GroupTotal(groups: seq<Cell>, r: map<Cell, nat>): nat
    requires forall g :: g in groups ==> g in r
  {
    if groups == [] then 0 else r[groups[0]] + GroupTotal(groups[1..], r)
  }

  /** The sum over `groups` of the occurrences of each group in `s`. */
  function TotalCellCount(groups: seq<Cell>, s: seq<Cell>): nat {
    if groups == [] then 0 else Count(s, groups[0]) + TotalCellCount(groups[1..], s)
  }

  lemma {:induction false} GroupTotalIsCellCount(groups: seq<Cell>, r: map<Cell, nat>, s: seq<Cell>)
    requires forall g :: g in groups ==> g in r && r[g] == Count(s, g)
    ensures GroupTotal(groups, r) == TotalCellCount(groups, s)
  {
    if groups != [] {
      GroupTotalIsCellCount(groups[1..], r, s);
    }
  }

  lemma {:induction false} TotalCellCountSnoc(groups: seq<Cell>, s: seq<Cell>, x: Cell)
    ensures TotalCellCount(groups, s + [x]) == TotalCellCount(groups, s) + Count(groups, x)
  {
    if groups != [] {
      TotalCellCountSnoc(groups[1..], s, x);
      CountAppend(s, [x], groups[0]);
      assert [groups[0]] + groups[1..] == groups;
      CountAppend([groups[0]], groups[1..], x);
    }
  }

  lemma {:induction false} TotalCellCountExtend(groups: seq<Cell>, s: seq<Cell>, y: Cell)
    ensures TotalCellCount(groups + [y], s) == TotalCellCount(groups, s) + Count(s, y)
  {
    if groups != [] {
      TotalCellCountExtend(groups[1..], s, y);
      assert (groups + [y])[1..] == groups[1..] + [y];
    }
  }

  lemma {:induction false} CellCountsSumToLength(s: seq<Cell>)
    ensures TotalCellCount(Dedup(s), s) == |s|
  {
    if s != [] {
      var init, x := s[..|s| - 1], s[|s| - 1];
      assert s == init + [x];
      CellCountsSumToLength(init);
      DedupSnoc(init, x);
      TotalCellCountSnoc(Dedup(init), init, x);
      if x in init {
        DistinctCountAtMostOne(Dedup(init), x);
      } else {
        TotalCellCountExtend(Dedup(init), s, x);
        CountAppend(init, [x], x);
      }
    }
  }

  // ---------------------------------------------------------------------------------------------
  // The /data page

  /** The statistics the `/data` page plots. The genre order (`groupby` sorts its keys) and the
      graphs themselves are not modelled. */
  datatype Dashboard = Dashboard(genreCounts: map<Cell, nat>, categoryCounts: seq<Entry>, topWords: seq<Entry>)

  datatype DataError =
    | TableFault(error: TableError)   // a missing or repeated `genre`, `message` or dropped label
    | MessageNotText(row: nat)        // `re.sub` on a message that is not a string

  /** The messages as strings, or the first row whose message is not one. */
  function MessageTexts(messages: seq<Cell>): (r: Result<seq<string>, DataError>)
    ensures r.Success? <==> forall i :: 0 <= i < |messages| ==> messages[i].Text?
    ensures r.Success? ==> |r.value| == |messages| && forall i :: 0 <= i < |messages| ==> r.value[i] == messages[i].s
    ensures r.Failure? ==> r.error.MessageNotText? && r.error.row < |messages| && !messages[r.error.row].Text?
                           && forall i :: 0 <= i < r.error.row ==> messages[i].Text?
  {
    if messages == [] then Success([])
    else if !messages[0].Text? then Failure(MessageNotText(0))
    else
      match MessageTexts(messages[1..])
      case Failure(e) =>
        assert forall i :: 1 <= i <= e.row ==> messages[i] == messages[1..][i - 1];
        Failure(MessageNotText(e.row + 1))
      case Success(rest) =>
        assert forall i :: 1 <= i < |messages| ==> messages[i] == messages[1..][i - 1];
        Success([messages[0].s] + rest)
  }

  /** `[process_text(message) for message in df['message']]`. */
  function TokenLists(tokenize: string -> seq<string>, lemmatize: string -> string, texts: seq<string>): (r: seq<seq<string>>)
    ensures |r| == |texts|
    ensures forall i :: 0 <= i < |texts| ==> r[i] == Normalized(tokenize, lemmatize, texts[i])
  {
    seq(|texts|, i requires 0 <= i < |texts| => Normalized(tokenize, lemmatize, texts[i]))
  }

  /** Each word of the corpus with its number of occurrences. */
  function WordCounts(corpus: seq<string>): (d: map<string, nat>)
    ensures forall w :: w in d <==> w in corpus
    ensures forall w :: w in d ==> d[w] == Count(corpus, w)
  {
    map w | w in corpus :: Count(corpus, w)
  }

  /** The `words` frame sorted, filtered and cut to ten: the most frequent words of the corpus
      that are not stopwords, each with its number of occurrences. */
  function TopCorpusWords(corpus: seq<string>, stopWords: set<string>): (top: seq<Entry>)
    ensures |top| <= 10 && SortedDesc(top)
    ensures forall e :: e in top ==> e.name !in stopWords && e.name in corpus && e.count == Count(corpus, e.name)
    ensures DistinctNames(top)
  {
    var entries := WordEntries(Dedup(corpus), WordCounts(corpus));
    CorpusEntries(corpus);
    assert DistinctNames(entries);
    SubDistinctNames(TopWords(entries, stopWords), entries);
    TopWords(entries, stopWords)
  }

  /** The `words` frame holds corpus words with their numbers of occurrences. */
  lemma CorpusEntries(corpus: seq<string>)
    ensures forall e :: e in WordEntries(Dedup(corpus), WordCounts(corpus)) ==> e.name in corpus && e.count == Count(corpus, e.name)
  {
    var keys := Dedup(corpus);
    var words := WordEntries(keys, WordCounts(corpus));
    forall e | e in words ensures e.name in corpus && e.count == Count(corpus, e.name) {
      var i :| 0 <= i < |words| && words[i] == e;
      assert keys[i] in corpus;
    }
  }

  /** The corpus of the `/data` page: the normalized messages, joined in message order. */
  function Corpus(tokenize: string -> seq<string>, lemmatize: string -> string, texts: seq<string>): seq<string> {
    Flatten(TokenLists(tokenize, lemmatize, texts))
  }

  /** The statistics of the `/data` page, in the order the source computes them: the genre
      counts, the category counts, then the word counts of the normalized messages. */
  function DataView(t: Table, tokenize: string -> seq<string>, lemmatize: string -> string, stopWords: set<string>)
    : (r: Result<Dashboard, DataError>)
    requires WellFormed(t)
    ensures r.Success? <==> && ColumnIndex(t.columns, "genre").Success?
                            && ColumnIndex(t.columns, "message").Success?
                            && CategoryCounts(t).Success?
                            && MessageTexts(Column(t, ColumnIndex(t.columns, "message").value)).Success?
    ensures r.Success? ==>
              var g, m := ColumnIndex(t.columns, "genre").value, ColumnIndex(t.columns, "message").value;
              var texts := MessageTexts(Column(t, m)).value;
              && r.value.genreCounts == GenreCounts(Column(t, g), Column(t, m))
              && r.value.categoryCounts == CategoryCounts(t).value
              && r.value.topWords == TopCorpusWords(Corpus(tokenize, lemmatize, texts), stopWords)
  {
    match ColumnIndex(t.columns, "genre")
    case Failure(e) => Failure(TableFault(e))
    case Success(g) =>
      match ColumnIndex(t.columns, "message")
      case Failure(e) => Failure(TableFault(e))
      case Success(m) =>
        var genres := GenreCounts(Column(t, g), Column(t, m));
        match CategoryCounts(t)
        case Failure(e) => Failure(TableFault(e))
        case Success(categories) =>
          match MessageTexts(Column(t, m))
          case Failure(e) => Failure(e)
          case Success(texts) =>
            Success(Dashboard(genres, categories, TopCorpusWords(Corpus(tokenize, lemmatize, texts), stopWords)))
  }

  /** The token lists of the messages: `[process_text(message) for message in df['message']]`,
      which stops at the first message that is not a string. */
  method TokenizeMessages(messages: seq<Cell>, tokenize: string -> seq<string>, lemmatize: string -> string)
    returns (r: Result<seq<seq<string>>, DataError>)
    ensures r.Success? <==> MessageTexts(messages).Success?
    ensures r.Success? ==> r.value == TokenLists(tokenize, lemmatize, MessageTexts(messages).value)
    ensures r.Failure? ==> r.error == MessageTexts(messages).error
  {
    var tokensList: seq<seq<string>> := [];
    for i := 0 to |messages|
      invariant |tokensList| == i
      invariant forall k :: 0 <= k < i ==> messages[k].Text? && tokensList[k] == Normalized(tokenize, lemmatize, messages[k].s)
    {
      if !messages[i].Text? {
        return Failure(MessageNotText(i));
      }
      var tokens := ProcessText(tokenize, lemmatize, messages[i].s);
      tokensList := tokensList + [tokens];
    }
    r := Success(tokensList);
  }

  /** The word statistics as the source computes them: the corpus by the nested loops, the
      counts by the dictionary loop, then sorting, filtering and cutting to ten. */
  method MostFrequentWords(tokensList: seq<seq<string>>, stopWords: set<string>) returns (top: seq<Entry>)
    ensures top == TopCorpusWords(Flatten(tokensList), stopWords)
  {
    var corpus := BuildCorpus(tokensList);
    var keys, d := CountWords(corpus);
    assert d == WordCounts(corpus);
    top := TopWords(WordEntries(keys, d), stopWords);
  }

  /** `data()` as the source runs it, up to the graphs. */
  method Data(t: Table, tokenize: string -> seq<string>, lemmatize: string -> string, stopWords: set<string>)
    returns (r: Result<Dashboard, DataError>)
    requires WellFormed(t)
    ensures r == DataView(t, tokenize, lemmatize, stopWords)
  {
    var genreLookup := ColumnIndex(t.columns, "genre");
    if genreLookup.Failure? {
      return Failure(TableFault(genreLookup.error));
    }
    var messageLookup := ColumnIndex(t.columns, "message");
    if messageLookup.Failure? {
      return Failure(TableFault(messageLookup.error));
    }
    var messages := Column(t, messageLookup.value);
    var genreCounts := GenreCounts(Column(t, genreLookup.value), messages);
    var categoryCounts := CategoryCounts(t);
    if categoryCounts.Failure? {
      return Failure(TableFault(categoryCounts.error));
    }
    var tokensList := TokenizeMessages(messages, tokenize, lemmatize);
    if tokensList.Failure? {
      return Failure(tokensList.error);
    }
    var words := MostFrequentWords(tokensList.value, stopWords);
    r := Success(Dashboard(genreCounts, categoryCounts.value, words));
  }

  // ---------------------------------------------------------------------------------------------
  // classify

  /** `dict(zip(keys, values))`: pairs up to the shorter length; a repeated key keeps its last
      value. */
  function ZipToMap<V>(keys: seq<string>, values: seq<V>): (r: map<string, V>)
    ensures forall k :: k in r <==> k in keys[..TrainClassifier.Min(|keys|, |values|)]
    decreases |keys|
  {
    var n := TrainClassifier.Min(|keys|, |values|);
    if n == 0 then map[]
    else
      var ks, vs := keys[..n - 1], values[..n - 1];
      assert TrainClassifier.Min(|ks|, |vs|) == n - 1 && ks[..n - 1] == ks;
      assert keys[..n] == ks + [keys[n - 1]];
      ZipToMap(ks, vs)[keys[n - 1] := values[n - 1]]
  }

  /** The value of a key is the value paired with its last occurrence. */
  lemma {:induction false} ZipLastWins<V>(keys: seq<string>, values: seq<V>, i: nat)
    requires i < TrainClassifier.Min(|keys|, |values|) && keys[i] !in keys[i + 1..TrainClassifier.Min(|keys|, |values|)]
    ensures keys[i] in ZipToMap(keys, values) && ZipToMap(keys, values)[keys[i]] == values[i]
    decreases |keys|
  {
    var n := TrainClassifier.Min(|keys|, |values|);
    if i < n - 1 {
      var ks, vs := keys[..n - 1], values[..n - 1];
      assert keys[n - 1] in keys[i + 1..n];
      assert ks[i + 1..n - 1] == keys[i + 1..n - 1];
      ZipLastWins(ks, vs, i);
    }
  }

  /** In a sequence without repetitions no element occurs again later. */
  lemma DistinctNoLater(keys: seq<string>, n: nat, i: nat)
    requires n <= |keys| && Distinct(keys[..n]) && i < n
    ensures keys[i] !in keys[i + 1..n]
  {
    var s := keys[..n];
    assert forall a :: 0 <= a < n ==> s[a] == keys[a];
    assert forall b :: i + 1 <= b < n ==> keys[i + 1..n][b - i - 1] == keys[b];
  }

  /** Without repeated keys, every pair is kept. */
  lemma {:induction false} ZipSize<V>(keys: seq<string>, values: seq<V>)
    requires Distinct(keys[..TrainClassifier.Min(|keys|, |values|)])
    ensures |ZipToMap(keys, values)| == TrainClassifier.Min(|keys|, |values|)
    decreases |keys|
  {
    var n := TrainClassifier.Min(|keys|, |values|);
    if n > 0 {
      var ks, vs := keys[..n - 1], values[..n - 1];
      assert ks[..n - 1] == keys[..n][..n - 1] && ks[..n - 1] == ks;
      ZipSize(ks, vs);
      var m := ZipToMap(ks, vs);
      assert keys[n - 1] !in ks by {
        var s := keys[..n];
        assert forall i :: 0 <= i < n - 1 ==> ks[i] == s[i] && s[i] != s[n - 1];
      }
      assert ZipToMap(keys, values) == m[keys[n - 1] := values[n - 1]];
    }
  }

  /** `/classify`: each category column (the columns after `id`, `message`, `original`, `genre`)
      mapped to the label the model predicted for it. */
  function Classify<V>(columns: seq<string>, labels: seq<V>): (r: map<string, V>)
    ensures |columns| <= 4 ==> r == map[]
  {
    ZipToMap(if |columns| >= 4 then columns[4..] else [], labels)
  }

  /** With distinct category names, the i-th category is mapped to the i-th label, and there are
      as many entries as the shorter of the two lists. */
  lemma ClassifyPairs<V>(columns: seq<string>, labels: seq<V>)
    requires |columns| >= 4 && Distinct(columns[4..])
    ensures var n := TrainClassifier.Min(|columns| - 4, |labels|);
            var r := Classify(columns, labels);
            && |r| == n
            && forall i :: 0 <= i < n ==> columns[4 + i] in r && r[columns[4 + i]] == labels[i]
  {
    var cats := columns[4..];
    var n := TrainClassifier.Min(|cats|, |labels|);
    assert Distinct(cats[..n]);
    ZipSize(cats, labels);
    forall i | 0 <= i < n ensures cats[i] in ZipToMap(cats, labels) && ZipToMap(cats, labels)[cats[i]] == labels[i] {
      DistinctNoLater(cats, n, i);
      ZipLastWins(cats, labels, i);
    }
  }
}
