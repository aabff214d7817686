# Disaster-response pipeline: a Dafny model of its record and text handling

The disaster-response pipeline turns raw disaster messages into a training set. It trains a
multi-label classifier on it and serves predictions and statistics from a small web app. This
project models the plain record and string logic around the pandas, NLTK and scikit-learn calls,
and proves what that logic guarantees:

- **Dataset builder** (`data/process_data.py`):
  - `load_data` is an inner join of the message rows and the category rows on `id`.
  - `clean_data` parses the packed category string `name-value;name-value;...`. The category
    names come from the first row. Each row's values are taken by position, as the last character
    of each piece read as an integer.
  - It then replaces the packed column with the new integer columns and drops duplicate rows. The
    `for column in categories` loop is a method (`ExpandCategories`) proved against the function
    `ColumnsFrom`.
- **Text normalizers** (`process_text` in `models/train_classifier.py` and in `app/run.py`):
  - `word_tokenize` and `WordNetLemmatizer.lemmatize` are function parameters.
  - The training normalizer lower-cases and strips before it tokenizes and lemmatizes.
  - The serving normalizer lemmatizes each token first, then lower-cases and strips it. The serving
    one is a method with the source's append loop.
  - Suppose tokenizing the training input gives the lower-cased tokens of the punctuation-free
    text. The model shows that the two then agree exactly when, for each of those tokens,
    lemmatizing its lower-cased form gives the same string as lemmatizing it and then lower-casing
    and stripping the result.
  - With a tokenizer that returns the whole text as one token and a lemmatizer that maps `dogs` to
    `dog`, the two disagree on `"Dogs"`.
- **Training-side table handling** (`models/train_classifier.py`):
  - The feature/label column split of `load_data`.
  - The category-by-category pairing of `evaluate_model`.
- **Dashboard statistics** (`run.py`, `data` and `classify`):
  - The corpus built by nested append loops.
  - The dictionary word-count loop.
  - The per-category column sums sorted by count.
  - The genre counts.
  - The top-ten non-stopword words.
  - The `dict(zip(...))` of category names to predicted labels.

Modules:

| module | contents |
|---|---|
| `Wrappers` | `Option`, `Result` |
| `Text` | the `[A-Za-z0-9]` class, `lower`, `upper`, `strip`, `split` |
| `Tables` | cells, tables, column lookup, `drop(columns=...)`, `drop_duplicates` |
| `ProcessData` | the dataset builder |
| `TrainClassifier` | the training-side normalizer, column split and evaluation pairing |
| `Ranking` | the descending sort, the stopword filter and the top ten |
| `App` | the serving normalizer, the `/data` statistics and `/classify` |

Details of the code that the model keeps:

- **Values are any digit.** The docstring of `clean_data` shows only the values 0 and 1. The code
  keeps the last character of each piece and converts it with `astype(int)`, so `related-2`
  becomes 2.
- **Names come from the first row only.** The code takes the names from the first row and never
  compares the names in later rows. Later rows are parsed by position, whatever names they carry.
- **Columns the first row does not reach.** When a later row has more pieces than the first,
  pandas fills the first row's missing pieces with `None`. Their names become NaN, and `value[-1]`
  fails on that `None` when the loop reaches the column. The model names such columns `Unnamed`
  (`-`, which no real name can be). A single such column j fails with `BadValue(0, j, Absent)`.
  Two or more of them share the name `Unnamed` and fail as `DuplicateCategory`.
- **The docstring example fails.** The docstring's example string `"related-1;request-0;offer-0;aid_related-0;"`
  ends in `;`. Its last piece is empty, so `value[-1]` fails on it. `TrailingSeparatorFails`
  proves that any such row makes `clean_data` fail.
- **The two normalizers lower-case at different points.** The training normalizer lower-cases
  the text before it lemmatizes. The serving normalizer lemmatizes each token first, then
  lower-cases it.

## Model

| member | source | states |
|---|---|---|
| ProcessData.LoadData | disaster-response-pipeline/data/process_data.py:25 | The merged table has the message columns followed by `categories`, and every row has one cell per column. |
| ProcessData.JoinSound | disaster-response-pipeline/data/process_data.py:25 | Every merged row pairs a message row and a category row with the same id. So an id present in only one input yields no row. |
| ProcessData.JoinComplete | disaster-response-pipeline/data/process_data.py:25 | Every pair of a message row and a category row with equal ids yields a merged row. |
| ProcessData.MatchRowsSize | disaster-response-pipeline/data/process_data.py:25 | A message row yields as many merged rows as there are category rows with its id. |
| ProcessData.JoinSize | disaster-response-pipeline/data/process_data.py:25 | The merged table has one row per matching pair, summed over the message rows. |
| ProcessData.JoinUniqueBound | disaster-response-pipeline/data/process_data.py:25 | When ids are unique within each input, the merged table has no more rows than either input. |
| Tables.ColumnIndex | disaster-response-pipeline/data/process_data.py:51 | Looking up a column label succeeds exactly when the label occurs once. Otherwise it fails as missing or as duplicated. |
| Text.Split | disaster-response-pipeline/data/process_data.py:51 | `str.split` gives at least one piece, no piece holds the separator, and joining the pieces with it gives back the string. |
| Text.SplitJoin | disaster-response-pipeline/data/process_data.py:51 | Splitting separator-free pieces joined by the separator gives back the pieces. |
| Text.SplitTrailingSeparator | disaster-response-pipeline/data/process_data.py:51 | A string ending in the separator splits into pieces whose last one is empty. |
| ProcessData.Width | disaster-response-pipeline/data/process_data.py:51 | The expanded frame is as wide as the row with the most pieces, and at least one column wide. |
| ProcessData.CategoryNames | disaster-response-pipeline/data/process_data.py:53-56 | There is one name per expanded column. The j-th name is the text before the first `-` in the first row's j-th piece. A column the first row does not reach, and only such a column, is named `Unnamed`. |
| Text.TextBeforeDash | disaster-response-pipeline/data/process_data.py:55 | The result holds no `-`, is a prefix of the piece, and is followed by a `-` whenever it is shorter than the piece. |
| ProcessData.LastCharsFrom | disaster-response-pipeline/data/process_data.py:60 | `value[-1]` over a column succeeds exactly when every row has a non-empty piece there, and then yields each piece's last character. Otherwise it fails at the first bad row, as absent (padding) or empty. |
| ProcessData.LastCharacters | disaster-response-pipeline/data/process_data.py:60 | The list comprehension as a loop computes exactly `LastCharsFrom` from row 0. |
| ProcessData.DigitsFrom | disaster-response-pipeline/data/process_data.py:63 | `astype(int)` succeeds exactly when every character is a digit, and yields their values. Otherwise it fails at the first non-digit. |
| ProcessData.ToIntegers | disaster-response-pipeline/data/process_data.py:63 | The conversion as a loop computes exactly `DigitsFrom` from row 0. |
| ProcessData.ColumnValuesSpec | disaster-response-pipeline/data/process_data.py:56-63 | One turn of the loop succeeds exactly when the column's name is not repeated and every row holds a non-empty piece ending in a digit there. Row k's value is then the digit value of its piece's last character. |
| ProcessData.ColumnsFromSucceedsIff | disaster-response-pipeline/data/process_data.py:58-63 | The loop from column j on succeeds exactly when every later column's turn does. |
| ProcessData.ColumnsFromColumn | disaster-response-pipeline/data/process_data.py:58-63 | Each column the loop produces is the result of that column's own turn, so values are parsed by position and not by name. |
| ProcessData.ExpandCategories | disaster-response-pipeline/data/process_data.py:58-63 | The imperative `for column in categories` loop computes exactly `ColumnsFrom` from column 0, failures included. |
| ProcessData.ColumnsOkIff | disaster-response-pipeline/data/process_data.py:58-63 | Checking the columns one by one accepts exactly the frames whose rows all have full width and non-empty pieces ending in a digit. |
| ProcessData.ColumnsSucceedIff | disaster-response-pipeline/data/process_data.py:56-63 | The category step succeeds exactly when the names are distinct and every row is full and well formed. |
| ProcessData.RowOfColumns | disaster-response-pipeline/data/process_data.py:58-63 | After a successful loop, every row has one piece per column, and each column holds that row's piece's last digit. |
| ProcessData.ExpandRows | disaster-response-pipeline/data/process_data.py:65-68 | Each concatenated row is the input row without its packed cell, followed by one integer cell per category column. |
| Tables.DropColumns | disaster-response-pipeline/data/process_data.py:65 | `drop(columns=...)` fails exactly when a listed label is absent. Otherwise it keeps exactly the other columns and their cells. `SelectAppend` gives their order. |
| Tables.SelectAppend | disaster-response-pipeline/data/process_data.py:65 | Selecting from two concatenated column lists gives the selection from the first followed by the selection from the second, so the kept columns stay in table order. |
| Tables.SelectOne | disaster-response-pipeline/data/process_data.py:65 | A single column is kept exactly when it is not dropped. |
| ProcessData.Assemble | disaster-response-pipeline/data/process_data.py:65-71 | The assembled table is well formed, holds no duplicate row, and has no more rows than the input. |
| ProcessData.ExpandedRowsAreCleanRows | disaster-response-pipeline/data/process_data.py:60-68 | Every expanded row is its input row without the packed cell, followed by the last digit of each of its pieces. |
| ProcessData.AssembledRows | disaster-response-pipeline/data/process_data.py:65-71 | The output columns are the input columns without `categories`, followed by the names. Every cleaned row appears in the output, and every output row is a cleaned input row. |
| Tables.Dedup | disaster-response-pipeline/data/process_data.py:71 | `drop_duplicates` keeps every value that occurs, adds none, repeats none, and never grows the sequence. |
| Tables.DedupMembers | disaster-response-pipeline/data/process_data.py:71 | The deduplicated sequence holds exactly the values of the input. |
| Tables.DedupKeepsFirstOrder | disaster-response-pipeline/data/process_data.py:71 | The kept values are in the order of their first occurrences. |
| Tables.DedupSnoc | disaster-response-pipeline/data/process_data.py:71 | One more element is appended to the deduplicated sequence exactly when it is new. |
| Tables.DedupDistinct | disaster-response-pipeline/data/process_data.py:71 | A sequence without repetitions is its own deduplication. |
| Tables.DedupIdempotent | disaster-response-pipeline/data/process_data.py:71 | Dropping duplicates twice drops nothing more. |
| ProcessData.Clean | disaster-response-pipeline/data/process_data.py:30-73 | A cleaned table is well formed, holds no duplicate rows, and has no more rows than the input. |
| ProcessData.CleanData | disaster-response-pipeline/data/process_data.py:30-73 | `clean_data` as the source runs it, with the imperative category loop, computes exactly `Clean`, failures included. |
| ProcessData.CleanAssembles | disaster-response-pipeline/data/process_data.py:50-71 | A successful clean found a unique `categories` column and at least one row, and assembled the columns the category loop produced. |
| ProcessData.CleanSucceedsIff | disaster-response-pipeline/data/process_data.py:50-63 | `clean_data` succeeds exactly on tables with a unique `categories` column and at least one row. The first row's names must be distinct. Every row must have full width with non-empty pieces ending in a digit. |
| ProcessData.NamesOfFullRows | disaster-response-pipeline/data/process_data.py:53-56 | When every row is full, the names are the text before `-` of each piece of the first row. |
| ProcessData.CleanColumns | disaster-response-pipeline/data/process_data.py:53-68 | The output columns are the input columns without `categories`, then the text before `-` of each piece of the first row, in order. |
| ProcessData.CleanRows | disaster-response-pipeline/data/process_data.py:51-71 | Every input row has as many pieces as the first. The output rows are the cleaned input rows, in input order, with every repeat of an earlier row dropped. |
| ProcessData.CleanedRows | disaster-response-pipeline/data/process_data.py:60-68 | Row i of the cleaned rows is input row i cleaned, for every input row, before duplicates are dropped. |
| ProcessData.CleanNamesFromFirstRow | disaster-response-pipeline/data/process_data.py:53-56 | Two tables with the same columns and first row get the same output columns: names in later rows are never consulted. |
| ProcessData.CleanDeduplicated | disaster-response-pipeline/data/process_data.py:71 | Deduplicating the output of `clean_data` again changes nothing. |
| ProcessData.UnnamedColumnFails | disaster-response-pipeline/data/process_data.py:53-60 | A column past the end of the first row fails its turn at row 0, where the first row has no piece. |
| ProcessData.ShortFirstRowExample | disaster-response-pipeline/data/process_data.py:51-60 | A first row `-1` followed by a row `a-1;b-1` makes `clean_data` fail at row 0 of column 1, the column the first row does not reach. |
| ProcessData.TrailingSeparatorFails | disaster-response-pipeline/data/process_data.py:33-60 | A row whose packed string ends in `;`, like the docstring example, makes `clean_data` fail. |
| Text.Substitute | disaster-response-pipeline/models/train_classifier.py:54 | The substitution keeps the length. Every character outside `[A-Za-z0-9]` becomes one space, and every other character is kept. |
| Text.Lower | disaster-response-pipeline/models/train_classifier.py:56 | `lower()` keeps the length. Each upper-case ASCII letter becomes its lower-case letter, and every other character is kept. |
| Text.LowerIdempotent | disaster-response-pipeline/models/train_classifier.py:56 | Lower-casing twice is lower-casing once. |
| Text.LowerOfUpper | disaster-response-pipeline/models/train_classifier.py:83 | Lower-casing an upper-cased string gives the lower-cased string. |
| Text.StripSlice | disaster-response-pipeline/models/train_classifier.py:56 | `strip()` gives the slice of its input that starts after the leading whitespace and neither starts nor ends with whitespace. Everything cut off is whitespace. |
| Text.CutInTwoSteps | disaster-response-pipeline/models/train_classifier.py:56 | Cutting leading whitespace, then trailing whitespace, leaves a slice of the input with whitespace only outside it. |
| Text.StripAllSpaces | disaster-response-pipeline/models/train_classifier.py:56 | A string made only of whitespace strips to the empty string. |
| Text.StripUnchanged | disaster-response-pipeline/app/run.py:27 | A string that neither starts nor ends with whitespace strips to itself. |
| Text.StripChars | disaster-response-pipeline/app/run.py:27 | Stripping adds no character. |
| TrainClassifier.TokenizerInput | disaster-response-pipeline/models/train_classifier.py:54-56 | The string given to the tokenizer holds only spaces, lower-case ASCII letters and digits, and is no longer than the input. It is the slice of the lower-cased substituted text that starts after its leading whitespace and ends before its trailing whitespace. |
| TrainClassifier.ProcessText | disaster-response-pipeline/models/train_classifier.py:50-61 | There is exactly one lemma per token of the normalized text, in token order. |
| TrainClassifier.LemmatizerSeesLowerAlnum | disaster-response-pipeline/models/train_classifier.py:54-59 | Every token handed to the lemmatizer is non-empty and made of lower-case letters and digits. |
| TrainClassifier.NoWordsEmptyInput | disaster-response-pipeline/models/train_classifier.py:54-56 | Text without a letter or digit, the empty text included, normalizes to the empty string. |
| TrainClassifier.NoWordsNoLemmas | disaster-response-pipeline/models/train_classifier.py:50-61 | Such a text yields no lemmas. |
| TrainClassifier.LoadData | disaster-response-pipeline/models/train_classifier.py:39-42 | The split succeeds exactly when `message` is a unique column and all four feature columns exist. The features are then the `message` column. The labels are every other column, with each row's cells, in table order by `Tables.SelectAppend`, and `categories` lists exactly the label columns. |
| TrainClassifier.FeaturesFirst | disaster-response-pipeline/models/train_classifier.py:39-40 | A table whose columns start with `id`, `message`, `original`, `genre` and repeat none of them has all four features and `message` once. |
| TrainClassifier.CategoriesAfterFirstFour | disaster-response-pipeline/models/train_classifier.py:39-42 | For such a table the split succeeds. The categories are the columns after the first four, and each label row is the input row after its first four cells. |
| TrainClassifier.MatrixColumn | disaster-response-pipeline/models/train_classifier.py:81 | `preds[:, j]` holds the j-th entry of every prediction row. |
| Text.Upper | disaster-response-pipeline/models/train_classifier.py:83 | `upper()` keeps the length. Each lower-case ASCII letter becomes its upper-case letter, and every other character is kept. |
| TrainClassifier.ReportsFrom | disaster-response-pipeline/models/train_classifier.py:79-83 | The reports of categories i onward each pair the category with the same-numbered true and predicted columns, in order. It fails at the first index past either frame. |
| TrainClassifier.EvaluationReports | disaster-response-pipeline/models/train_classifier.py:79-83 | There is one report per category, in category order. Report i pairs category i with true-label column i and prediction column i. It fails exactly when either frame has too few columns. |
| TrainClassifier.EvaluateLoadedData | disaster-response-pipeline/models/train_classifier.py:79-81 | With the categories and labels from `load_data` and one prediction per label, evaluation succeeds. Each category is scored against its own label column. |
| App.Normalized | disaster-response-pipeline/app/run.py:20-30 | The serving normalizer returns one cleaned token per token of the punctuation-free text. |
| App.NormalizedTokens | disaster-response-pipeline/app/run.py:25-28 | Every returned token has no upper-case letter and neither starts nor ends with whitespace. |
| App.ProcessText | disaster-response-pipeline/app/run.py:25-30 | The append loop computes exactly the lemmatized, lower-cased, stripped tokens in token order. |
| App.NormalizersAgreeIff | disaster-response-pipeline/app/run.py:20-30 | Assume that tokenizing the training input gives the lower-cased tokens of the punctuation-free text. The two normalizers then agree exactly when, for each of those tokens, lemmatizing its lower-cased form equals lemmatizing it and then lower-casing and stripping. |
| App.TrainedOnDogs | disaster-response-pipeline/models/train_classifier.py:54-59 | With a lemmatizer that maps `dogs` to `dog`, training normalizes `"Dogs"` to `["dog"]`. |
| App.ServedOnDogs | disaster-response-pipeline/app/run.py:21-28 | With the same lemmatizer, serving normalizes `"Dogs"` to `["dogs"]`. |
| App.NormalizersDisagreeOnDogs | disaster-response-pipeline/app/run.py:27 | The training and serving normalizers give different tokens for the same text. |
| App.FlattenAppend | disaster-response-pipeline/app/run.py:76-80 | Flattening distributes over concatenation. |
| App.FlattenLength | disaster-response-pipeline/app/run.py:76-80 | The corpus is as long as all token lists together. |
| App.BuildCorpus | disaster-response-pipeline/app/run.py:76-80 | The nested append loops build the concatenation of the token lists, in message order. |
| App.CountsSumToLength | disaster-response-pipeline/app/run.py:82-87 | Summing the occurrences of every distinct word accounts for every corpus token exactly once. |
| App.CountWords | disaster-response-pipeline/app/run.py:82-87 | After the counting loop, the keys of `d` are exactly the corpus words, in first-seen order. `d[w]` is the number of occurrences of `w`, and the values sum to the corpus length. |
| App.WordCounts | disaster-response-pipeline/app/run.py:82-87 | The counts map exactly the corpus words, each to its number of occurrences. |
| App.WordEntries | disaster-response-pipeline/app/run.py:89-91 | The `words` frame has one row per dictionary key, in key order, with that key's count. |
| App.CorpusEntries | disaster-response-pipeline/app/run.py:89-91 | Every row of the `words` frame is a corpus word with its number of occurrences. |
| Ranking.Insert | disaster-response-pipeline/app/run.py:93 | Inserting into a list sorted by descending count keeps it sorted and adds exactly the new entry. |
| Ranking.SortByCount | disaster-response-pipeline/app/run.py:93 | `sort_values(by='count', ascending=False)` returns a permutation of the rows, sorted by descending count. |
| Ranking.WithoutStopwords | disaster-response-pipeline/app/run.py:95 | The filter keeps exactly the rows whose word is not a stopword, and keeps them sorted. |
| Ranking.WithoutStopwordsCounts | disaster-response-pipeline/app/run.py:95 | Each row that is not a stopword is kept as often as it occurs, and no stopword row is kept. |
| Ranking.WithoutStopwordsCons | disaster-response-pipeline/app/run.py:95 | A row in front is kept in front exactly when its word is not a stopword. |
| Ranking.WithoutStopwordsAppend | disaster-response-pipeline/app/run.py:95 | Filtering a concatenation concatenates the filtered parts, so the kept rows stay in input order. |
| Ranking.TopWords | disaster-response-pipeline/app/run.py:93-95 | At most ten rows are shown. They are sorted by descending count, none is a stopword, and no row is shown more often than it occurs in the input. |
| Ranking.WithoutStopwordsSubMultiset | disaster-response-pipeline/app/run.py:95 | The filter never keeps a row more often than it occurs. |
| Ranking.SubDistinctNames | disaster-response-pipeline/app/run.py:93-95 | Rows drawn, without repeats, from rows with distinct words have distinct words too. |
| Ranking.TopWordsAreHeaviest | disaster-response-pipeline/app/run.py:93-95 | A non-stopword row that is left out is left out because ten rows are shown, each counting at least as much. |
| App.TopCorpusWords | disaster-response-pipeline/app/run.py:89-95 | The shown words are at most ten non-stopword corpus words, by descending count, each with its number of occurrences. No word is shown twice. |
| App.MostFrequentWords | disaster-response-pipeline/app/run.py:76-95 | The corpus loops, the counting loop and the top-ten selection compute the top words of the flattened corpus. |
| App.BinarySumCountsOnes | disaster-response-pipeline/app/run.py:69 | On a 0/1 column the sum is the number of messages in the category. |
| App.CategoryTotals | disaster-response-pipeline/app/run.py:69-72 | Each label column is paired with the sum of its cells, in column order. |
| App.CategoryCounts | disaster-response-pipeline/app/run.py:67-73 | The category counts exist exactly when the four feature columns exist. They are then a permutation of the label columns' sums, sorted by descending count. |
| App.DropLeadingFeatures | disaster-response-pipeline/app/run.py:67 | For a table the builder writes, dropping the features keeps the columns and cells after the first four. |
| App.LabelsOfBuiltTable | disaster-response-pipeline/app/run.py:67-68 | For such a table, label column j is input column j + 4. |
| App.TotalsOfBuiltTable | disaster-response-pipeline/app/run.py:67-72 | For such a table, the totals are exactly the columns after the first four, with their sums. |
| App.CategoryCountsOfBuiltTable | disaster-response-pipeline/app/run.py:67-73 | For such a table, the category counts hold exactly one row per column after the first four, with its sum. |
| App.CountedGenres | disaster-response-pipeline/app/run.py:64 | The counted rows are exactly those with both a genre and a message present. |
| App.CountedGenresAppend | disaster-response-pipeline/app/run.py:64 | Counting the rows of two concatenated frames keeps the genres of the first, then those of the second. |
| App.CountedGenresOne | disaster-response-pipeline/app/run.py:64 | A single row is counted, with its genre, exactly when its genre and message are both present. |
| App.CountedGenresCount | disaster-response-pipeline/app/run.py:64 | A genre occurs among the counted genres once for each row with that genre and a present message. |
| App.GenreCounts | disaster-response-pipeline/app/run.py:64 | The keys are exactly the genres present in some row, whatever its message. Each count is the number of times that genre occurs among the counted rows, so a genre whose messages are all missing counts 0. |
| App.GenreCountsRows | disaster-response-pipeline/app/run.py:64 | Each genre's count is the number of input rows with that genre whose message is present. |
| App.GenreCountsTotal | disaster-response-pipeline/app/run.py:64-65 | The genre counts add up to the number of counted rows. Every counted row is counted in exactly one genre. |
| App.MessageTexts | disaster-response-pipeline/app/run.py:75 | The messages are read as strings, or the first row whose message is not a string is reported. |
| App.TokenLists | disaster-response-pipeline/app/run.py:75 | There is one normalized token list per message, in message order. |
| App.TokenizeMessages | disaster-response-pipeline/app/run.py:75 | The comprehension as a loop returns the token lists, or fails at the first message that is not a string. |
| App.DataView | disaster-response-pipeline/app/run.py:64-95 | The `/data` statistics exist exactly when `genre`, `message` and the features exist and every message is a string. They are then the genre counts, the sorted category counts and the top corpus words. |
| App.Data | disaster-response-pipeline/app/run.py:64-95 | `data()` as the source runs it, with its loops, computes exactly `DataView`. |
| App.ZipToMap | disaster-response-pipeline/app/run.py:53 | `dict(zip(...))` has as keys exactly the keys paired before the shorter list ends. |
| App.ZipLastWins | disaster-response-pipeline/app/run.py:53 | A key maps to the value paired with its last occurrence. |
| App.ZipSize | disaster-response-pipeline/app/run.py:53 | Without repeated keys, the dictionary has as many entries as the shorter list. |
| App.Classify | disaster-response-pipeline/app/run.py:53 | A table with no column after the first four classifies to the empty mapping. |
| App.ClassifyPairs | disaster-response-pipeline/app/run.py:53 | With distinct category names, the i-th column after the first four maps to the i-th predicted label. There are as many entries as the shorter of the two lists. |

`clean_data` is deterministic because `Clean` is a function of its input. `CleanDeduplicated`
states the dedup half of that promise.

## Left out

- Reading and writing files and databases are not modelled: the CSV files, SQLite, `to_sql`, `read_sql_table` and joblib. The model starts from the rows and ends with the values.
- The scikit-learn TF-IDF vectorizer, random forest, `train_test_split`, `fit`, `predict` and `classification_report` are not modelled. They are floating-point and randomised foreign code. Predictions enter as a parameter, and a report is the triple of title, true column and predicted column.
- `word_tokenize` and `WordNetLemmatizer.lemmatize` are function parameters, and the English stopword list is a set parameter. Two kinds of lemma put a condition on the tokenizer. `TrainClassifier.LemmatizerSeesLowerAlnum` and `TrainClassifier.NoWordsNoLemmas` assume `SoundTokens`: tokens are non-empty, hold no whitespace, and are made of characters of the input. `App.NormalizersAgreeIff` assumes that tokenizing the training input gives the lower-cased tokens of the punctuation-free text. The `"Dogs"` lemmas use the concrete one-token tokenizer `App.WholeText`.
- The `nltk.download` calls, Flask routes, template rendering, the query-string lookup, plotly graphs, JSON encoding and the argument handling of both `main` functions are not modelled.
- `Text.Lower`, `Text.Upper`, `Text.IsDigit`: case mapping covers ASCII letters only, and `astype(int)` accepts ASCII digits only. Python also maps non-ASCII letters and accepts other Unicode digits and surrounding whitespace.
- Ranking.SortByCount: pandas' default sort is not stable, so only sortedness and permutation are stated. The model's order among equal counts is an insertion sort's.
- Ranking.WithoutStopwords: its own contract states which rows are kept and that sortedness is kept. How often each row is kept is stated by `WithoutStopwordsCounts`, and that order is kept by `WithoutStopwordsAppend`.
- App.GenreCounts: the genre counts are a map. The key order `groupby` gives them is not modelled.
- App.CellValue: a cell that is not an integer counts as 0 in a column sum. The label columns the builder writes are integers, and pandas' behaviour on mixed columns is not modelled.
- Tables.ColumnIndex: a repeated column label fails as `DuplicateColumn`. pandas would instead return a sub-frame and fail later, or not at all.
- Python exception classes, messages and the pandas column dtypes are not modelled. Failures are values of the `CleanError`, `TableError`, `EvalError` and `DataError` datatypes, in the order the source would meet them. A column the first row does not reach is named `Unnamed` instead of NaN.
- ProcessData.ColumnValuesSpec: a category name that the first row repeats fails as `DuplicateCategory`. In pandas, `categories[column]` would then return a sub-frame, and the loop would fail or misbehave in a way the model does not follow. Two columns the first row does not reach share the name `Unnamed` and so fail in the same way, as two NaN labels would.
- A category name equal to a kept input column gives the output two columns with that label, as `pd.concat` does. The model does not treat the clash as an error.
