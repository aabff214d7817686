/**
 * The ranking of the dashboard: a frame of (name, count) rows sorted by count, descending
 * (`sort_values(by='count', ascending=False)`), the stopword filter
 * (`query('word not in @stop_words')`) and the first ten rows (`[:10]`).
 */
module Ranking {

  /** One row of the `cat` or `words` frame. */
  datatype Entry = Entry(name: string, count: int)

  predicate SortedDesc(s: seq<Entry>) {
    forall i, j :: 0 <= i < j < |s| ==> s[i].count >= s[j].count
  }

  /** Places `e` before the first entry whose count does not exceed its own. */
  function Insert(e: Entry, s: seq<Entry>): (r: seq<Entry>)
    requires SortedDesc(s)
    ensures SortedDesc(r)
    ensures multiset(r) == multiset(s) + multiset{e}
    ensures |r| == |s| + 1 && (r[0] == e || (s != [] && r[0] == s[0]))
  {
    if s == [] || s[0].count <= e.count then
      SortedCons(e, s);
      [e] + s
    else
      SortedTail(s);
      var rest := Insert(e, s[1..]);
      InsertBelowHead(s[0], e, s[1..], rest);
      assert s == [s[0]] + s[1..];
      [s[0]] + rest
  }

  /** Putting the head back on a sorted insertion into the tail keeps it sorted and holds the
      whole sequence plus the inserted entry. */
  lemma InsertBelowHead(x: Entry, e: Entry, tail: seq<Entry>, rest: seq<Entry>)
    requires SortedDesc(rest) && multiset(rest) == multiset(tail) + multiset{e}
    requires rest != [] ==> x.count >= rest[0].count
    ensures SortedDesc([x] + rest)
    ensures multiset([x] + rest) == multiset([x] + tail) + multiset{e}
  {
    SortedCons(x, rest);
  }

  /** The tail of a sorted sequence is sorted and counts no more than its head. */
  lemma SortedTail(s: seq<Entry>)
    requires SortedDesc(s) && s != []
    ensures SortedDesc(s[1..])
    ensures |s| > 1 ==> s[0].count >= s[1].count
  {
    forall i, j | 0 <= i < j < |s| - 1 ensures s[1..][i].count >= s[1..][j].count {
      assert s[1..][i] == s[i + 1] && s[1..][j] == s[j + 1];
    }
  }

  /** A sorted sequence stays sorted under a head that counts at least as much as its first
      entry. */
  lemma SortedCons(x: Entry, s: seq<Entry>)
    requires SortedDesc(s) && (s != [] ==> x.count >= s[0].count)
    ensures SortedDesc([x] + s)
  {
    var r := [x] + s;
    forall i, j | 0 <= i < j < |r| ensures r[i].count >= r[j].count {
      assert r[j] == s[j - 1];
      if i > 0 {
        assert r[i] == s[i - 1];
      }
    }
  }

  /** `sort_values(by='count', ascending=False)`: the same rows, by descending count. The order
      among equal counts is left open (pandas' default quicksort is not stable). */
  function SortByCount(s: seq<Entry>): (r: seq<Entry>)
    ensures SortedDesc(r)
    ensures multiset(r) == multiset(s)
    ensures forall x :: x in r <==> x in s
  {
    if s == [] then []
    else
      assert s == [s[0]] + s[1..];
      var r := Insert(s[0], SortByCount(s[1..]));
      assert forall x :: x in r <==> x in multiset(r);
      assert forall x :: x in s <==> x in multiset(s);
      r
  }

  /** The entries whose name is not a stopword, in their order. */
  function WithoutStopwords(s: seq<Entry>, stopWords: set<string>): (r: seq<Entry>)
    ensures forall x :: x in r <==> x in s && x.name !in stopWords
    ensures SortedDesc(s) ==> SortedDesc(r)
  {
    if s == [] then []
    else
      var rest := WithoutStopwords(s[1..], stopWords);
      if s[0].name in stopWords then rest else [s[0]] + rest
  }

  /** Filtering keeps every row that is not a stopword as often as it occurs, and no other. */
  lemma {:induction false} WithoutStopwordsCounts(s: seq<Entry>, stopWords: set<string>)
    ensures forall x :: multiset(WithoutStopwords(s, stopWords))[x] == if x.name in stopWords then 0 else multiset(s)[x]
  {
    if s != [] {
      WithoutStopwordsCounts(s[1..], stopWords);
      assert s == [s[0]] + s[1..];
    }
  }

  /** Filtering a row placed in front keeps it exactly when its name is not a stopword. */
  lemma WithoutStopwordsCons(x: Entry, s: seq<Entry>, stopWords: set<string>)
    ensures WithoutStopwords([x] + s, stopWords) == if x.name in stopWords then WithoutStopwords(s, stopWords) else [x] + WithoutStopwords(s, stopWords)
  {
    assert ([x] + s)[0] == x && ([x] + s)[1..] == s;
  }

  /** Filtering keeps the order: filtering a concatenation is concatenating the filtered parts. */
  lemma {:induction false} WithoutStopwordsAppend(a: seq<Entry>, b: seq<Entry>, stopWords: set<string>)
    ensures WithoutStopwords(a + b, stopWords) == WithoutStopwords(a, stopWords) + WithoutStopwords(b, stopWords)
  {
    if a == [] {
      assert a + b == b;
    } else {
      var x, t := a[0], a[1..];
      assert a + b == [x] + (t + b) by {
        assert a == [x] + t;
      }
      WithoutStopwordsCons(x, t + b, stopWords);
      WithoutStopwordsAppend(t, b, stopWords);
      if x.name !in stopWords {
        var p, q := WithoutStopwords(t, stopWords), WithoutStopwords(b, stopWords);
        assert [x] + (p + q) == ([x] + p) + q;
      }
    }
  }

  /** `words.sort_values(...)`, then `query('word not in @stop_words')[:10]`. */
  function TopWords(entries: seq<Entry>, stopWords: set<string>): (r: seq<Entry>)
    ensures |r| <= 10
    ensures SortedDesc(r)
    ensures forall x :: x in r ==> x in entries && x.name !in stopWords
    ensures multiset(r) <= multiset(entries)
  {
    var sorted := SortByCount(entries);
    var kept := WithoutStopwords(sorted, stopWords);
    WithoutStopwordsSubMultiset(sorted, stopWords);
    if |kept| <= 10 then kept
    else
      PrefixSubMultiset(kept, 10);
      kept[..10]
  }

  /** Filtering adds no row and repeats none. */
  lemma {:induction false} WithoutStopwordsSubMultiset(s: seq<Entry>, stopWords: set<string>)
    ensures multiset(WithoutStopwords(s, stopWords)) <= multiset(s)
  {
    if s != [] {
      WithoutStopwordsSubMultiset(s[1..], stopWords);
      assert s == [s[0]] + s[1..];
    }
  }

  /** No two rows share a name. */
  predicate DistinctNames(s: seq<Entry>) {
    forall i, j :: 0 <= i < j < |s| ==> s[i].name != s[j].name
  }

  /** Rows drawn from rows with distinct names, none more often than it occurs there, have
      distinct names too. */
  lemma SubDistinctNames(r: seq<Entry>, s: seq<Entry>)
    requires multiset(r) <= multiset(s) && DistinctNames(s)
    ensures DistinctNames(r)
  {
    forall i, j | 0 <= i < j < |r| ensures r[i].name != r[j].name {
      var x, y := r[i], r[j];
      assert x in multiset(s) && y in multiset(s);
      SameNameSameRow(s, x, y);
      OnceEach(s, x);
      TwiceIfRepeated(r, i, j);
    }
  }

  /** In rows with distinct names, a name determines its row. */
  lemma SameNameSameRow(s: seq<Entry>, x: Entry, y: Entry)
    requires DistinctNames(s) && x in s && y in s
    ensures x.name == y.name ==> x == y
  {
    var a :| 0 <= a < |s| && s[a] == x;
    var b :| 0 <= b < |s| && s[b] == y;
    assert s[a].name == s[b].name ==> a == b;
  }

  /** Rows with distinct names hold each row at most once. */
  lemma {:induction false} OnceEach(s: seq<Entry>, e: Entry)
    requires DistinctNames(s)
    ensures multiset(s)[e] <= 1
  {
    if s != [] {
      assert s == [s[0]] + s[1..];
      assert DistinctNames(s[1..]) by {
        forall i, j | 0 <= i < j < |s| - 1 ensures s[1..][i].name != s[1..][j].name {
          assert s[1..][i] == s[i + 1] && s[1..][j] == s[j + 1];
        }
      }
      OnceEach(s[1..], e);
      assert s[0] == e ==> e !in s[1..] by {
        forall k | 0 <= k < |s| - 1 ensures s[1..][k].name != s[0].name {
          assert s[1..][k] == s[k + 1];
        }
      }
    }
  }

  /** A row at two positions occurs at least twice. */
  lemma TwiceIfRepeated(r: seq<Entry>, i: nat, j: nat)
    requires i < j < |r|
    ensures r[i] == r[j] ==> multiset(r)[r[i]] >= 2
  {
    assert r == r[..j] + r[j..];
    assert r[i] in r[..j] && r[j] == r[j..][0];
  }

  /** A prefix holds each row at most as often as the whole sequence. */
  lemma PrefixSubMultiset(s: seq<Entry>, n: nat)
    requires n <= |s|
    ensures multiset(s[..n]) <= multiset(s)
  {
    assert s == s[..n] + s[n..];
  }

  /** The ten entries shown are the heaviest: an entry that is not a stopword and is not shown
      counts no more than any entry shown, and fewer than ten are shown only when every
      non-stopword entry is. */
  lemma TopWordsAreHeaviest(entries: seq<Entry>, stopWords: set<string>)
    ensures var r := TopWords(entries, stopWords);
            forall e :: e in entries && e.name !in stopWords && e !in r ==>
              |r| == 10 && forall j :: 0 <= j < |r| ==> r[j].count >= e.count
  {
    var sorted := SortByCount(entries);
    var kept := WithoutStopwords(sorted, stopWords);
    var r := TopWords(entries, stopWords);
    forall e | e in entries && e.name !in stopWords && e !in r
      ensures |r| == 10 && forall j :: 0 <= j < |r| ==> r[j].count >= e.count
    {
      assert e in kept;
      var n :| 0 <= n < |kept| && kept[n] == e;
      assert n >= 10;
    }
  }
}
