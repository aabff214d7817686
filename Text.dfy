/**
 * Character classes and the Python string operations the pipeline relies on:
 * the regular-expression class `[A-Za-z0-9]`, `str.lower`, `str.upper`,
 * `str.strip` and `str.split` with a one-character separator.
 */
module Text {

  /** Membership in the regular-expression class `[A-Za-z0-9]`. */
  predicate IsAlnum(c: char) {
    'A' <= c <= 'Z' || 'a' <= c <= 'z' || '0' <= c <= '9'
  }

  predicate IsUpper(c: char) {
    'A' <= c <= 'Z'
  }

  predicate IsDigit(c: char) {
    '0' <= c <= '9'
  }

  /** Python's `str.isspace` for one character. */
  predicate IsSpace(c: char) {
    ('\t' <= c <= '\r') || ('\U{1C}' <= c <= ' ') || c == '\U{85}' || c == '\U{A0}'
    || c == '\U{1680}' || ('\U{2000}' <= c <= '\U{200A}') || c == '\U{2028}' || c == '\U{2029}'
    || c == '\U{202F}' || c == '\U{205F}' || c == '\U{3000}'
  }

  /** A lower-case ASCII letter or a digit: what the training normalizer hands to the lemmatizer. */
  predicate IsLowerAlnum(c: char) {
    'a' <= c <= 'z' || '0' <= c <= '9'
  }

  function DigitValue(c: char): (v: int)
    requires IsDigit(c)
    ensures 0 <= v <= 9
  {
    c as int - '0' as int
  }

  function LowerChar(c: char): (r: char)
    ensures !IsUpper(r)
    ensures IsSpace(r) <==> IsSpace(c)
    ensures IsAlnum(r) <==> IsAlnum(c)
  {
    if IsUpper(c) then (c as int + 32) as char else c
  }

  function UpperChar(c: char): (r: char)
    ensures !('a' <= r <= 'z')
  {
    if 'a' <= c <= 'z' then (c as int - 32) as char else c
  }

  /** `str.lower()`, on the ASCII letters. */
  function Lower(s: string): (r: string)
    ensures |r| == |s|
    ensures forall i :: 0 <= i < |s| ==> !IsUpper(r[i]) && (IsSpace(r[i]) <==> IsSpace(s[i]))
    ensures forall i :: 0 <= i < |s| && !IsUpper(s[i]) ==> r[i] == s[i]
    ensures forall i :: 0 <= i < |s| && IsUpper(s[i]) ==> 'a' <= r[i] <= 'z' && r[i] as int == s[i] as int + 32
  {
    seq(|s|, i requires 0 <= i < |s| => LowerChar(s[i]))
  }

  /** `str.upper()`, on the ASCII letters. */
  function Upper(s: string): (r: string)
    ensures |r| == |s|
    ensures forall i :: 0 <= i < |s| ==> !('a' <= r[i] <= 'z')
    ensures forall i :: 0 <= i < |s| && 'a' <= s[i] <= 'z' ==> 'A' <= r[i] <= 'Z' && r[i] as int == s[i] as int - 32
    ensures forall i :: 0 <= i < |s| && !('a' <= s[i] <= 'z') ==> r[i] == s[i]
  {
    seq(|s|, i requires 0 <= i < |s| => UpperChar(s[i]))
  }

  /** Lower-casing twice is lower-casing once. */
  lemma LowerIdempotent(s: string)
    ensures Lower(Lower(s)) == Lower(s)
  {
    assert forall i :: 0 <= i < |s| ==> Lower(Lower(s))[i] == Lower(s)[i];
  }

  /** Upper-casing first does not change the lower-cased result: the two mappings are inverse on
      letters. */
  lemma LowerOfUpper(s: string)
    ensures Lower(Upper(s)) == Lower(s)
  {
    assert forall i :: 0 <= i < |s| ==> Lower(Upper(s))[i] == Lower(s)[i];
  }

  /** `re.sub('[^A-Za-z0-9]', ' ', s)`: every character outside the class becomes one space. */
  function Substitute(s: string): (r: string)
    ensures |r| == |s|
    ensures forall i :: 0 <= i < |s| ==> (IsAlnum(s[i]) ==> r[i] == s[i]) && (!IsAlnum(s[i]) ==> r[i] == ' ')
  {
    seq(|s|, i requires 0 <= i < |s| => if IsAlnum(s[i]) then s[i] else ' ')
  }

  /** Removes leading whitespace. */
  function TrimStart(s: string): (r: string)
    ensures |r| <= |s|
  {
    if s != [] && IsSpace(s[0]) then TrimStart(s[1..]) else s
  }

  /** Removes trailing whitespace. */
  function TrimEnd(s: string): (r: string)
    ensures |r| <= |s|
  {
    if s != [] && IsSpace(s[|s| - 1]) then TrimEnd(s[..|s| - 1]) else s
  }

  /** `str.strip()`. */
  function Strip(s: string): string {
    TrimEnd(TrimStart(s))
  }

  /** `t` is what follows the leading whitespace of `s`. */
  predicate LeadingCut(s: string, t: string) {
    && |t| <= |s| && (forall j :: 0 <= j < |t| ==> t[j] == s[|s| - |t| + j])
    && (forall i :: 0 <= i < |s| - |t| ==> IsSpace(s[i]))
    && (t != [] ==> !IsSpace(t[0]))
  }

  /** `r` is what precedes the trailing whitespace of `t`. */
  predicate TrailingCut(t: string, r: string) {
    && |r| <= |t| && (forall j :: 0 <= j < |r| ==> r[j] == t[j])
    && (forall i :: |r| <= i < |t| ==> IsSpace(t[i]))
    && (r != [] ==> !IsSpace(r[|r| - 1]))
  }

  /** `TrimStart(s)` is the suffix of `s` after its leading whitespace. */
  lemma {:induction false} TrimStartSuffix(s: string)
    ensures LeadingCut(s, TrimStart(s))
  {
    if s != [] && IsSpace(s[0]) {
      TrimStartSuffix(s[1..]);
      LeadingCutStep(s, TrimStart(s[1..]));
    }
  }

  /** A leading space extends the cut whitespace by one. */
  lemma LeadingCutStep(s: string, t: string)
    requires s != [] && IsSpace(s[0]) && LeadingCut(s[1..], t)
    ensures LeadingCut(s, t)
  {
    forall j | 0 <= j < |t| ensures t[j] == s[|s| - |t| + j] {
      assert s[1..][|s| - 1 - |t| + j] == s[|s| - |t| + j];
    }
    forall i | 0 < i < |s| - |t| ensures IsSpace(s[i]) {
      assert s[1..][i - 1] == s[i];
    }
  }

  /** `TrimEnd(s)` is the prefix of `s` before its trailing whitespace. */
  lemma {:induction false} TrimEndPrefix(s: string)
    ensures TrailingCut(s, TrimEnd(s))
  {
    if s != [] && IsSpace(s[|s| - 1]) {
      TrimEndPrefix(s[..|s| - 1]);
      TrailingCutStep(s, TrimEnd(s[..|s| - 1]));
    }
  }

  /** A trailing space extends the cut whitespace by one. */
  lemma TrailingCutStep(s: string, r: string)
    requires s != [] && IsSpace(s[|s| - 1]) && TrailingCut(s[..|s| - 1], r)
    ensures TrailingCut(s, r)
  {
    forall j | 0 <= j < |r| ensures r[j] == s[j] {
      assert s[..|s| - 1][j] == s[j];
    }
    forall i | |r| <= i < |s| - 1 ensures IsSpace(s[i]) {
      assert s[..|s| - 1][i] == s[i];
    }
  }

  /** `r` is the slice of `s` at `a` that neither starts nor ends with whitespace, and
      everything of `s` outside it is whitespace. */
  predicate WhitespaceCut(s: string, a: nat, r: string) {
    && a + |r| <= |s| && (forall j :: 0 <= j < |r| ==> r[j] == s[a + j])
    && (r != [] ==> !IsSpace(r[0]) && !IsSpace(r[|r| - 1]))
    && (forall i :: 0 <= i < a ==> IsSpace(s[i]))
    && (forall i :: a + |r| <= i < |s| ==> IsSpace(s[i]))
  }

  /** `Strip(s)` is what remains of `s` once the whitespace before its first non-whitespace
      character and after its last one is cut off. */
  lemma StripSlice(s: string)
    ensures WhitespaceCut(s, |s| - |TrimStart(s)|, Strip(s))
  {
    TrimStartSuffix(s);
    TrimEndPrefix(TrimStart(s));
    CutInTwoSteps(s, TrimStart(s), Strip(s));
  }

  /** Cutting leading whitespace from `s`, giving `t`, then trailing whitespace from `t`, giving
      `r`, cuts `r` out of `s`. */
  lemma CutInTwoSteps(s: string, t: string, r: string)
    requires LeadingCut(s, t) && TrailingCut(t, r)
    ensures WhitespaceCut(s, |s| - |t|, r)
  {
    var a := |s| - |t|;
    forall i | a + |r| <= i < |s| ensures IsSpace(s[i]) {
      assert s[i] == t[i - a];
    }
  }

  /** A string of whitespace strips to the empty string. */
  lemma {:induction false} StripAllSpaces(s: string)
    requires forall i :: 0 <= i < |s| ==> IsSpace(s[i])
    ensures Strip(s) == []
  {
    if s != [] {
      StripAllSpaces(s[1..]);
    }
  }

  /** A string that starts and ends with a non-space is its own strip. */
  lemma StripUnchanged(s: string)
    requires s != [] ==> !IsSpace(s[0]) && !IsSpace(s[|s| - 1])
    ensures Strip(s) == s
  {
  }

  /** Every character of `Strip(s)` is a character of `s`. */
  lemma StripChars(s: string)
    ensures forall c :: c in Strip(s) ==> c in s
  {
    StripSlice(s);
    var r, a := Strip(s), |s| - |TrimStart(s)|;
    forall c | c in r ensures c in s {
      var i :| 0 <= i < |r| && r[i] == c;
      assert s[a + i] == c;
    }
  }

  /** The inverse of `Split`: the pieces glued back together with the separator. */
  function Join(pieces: seq<string>, sep: char): string
    requires |pieces| >= 1
  {
    if |pieces| == 1 then pieces[0] else pieces[0] + [sep] + Join(pieces[1..], sep)
  }

  /** `s.split(sep)`: at least one piece, no piece holds the separator, and joining the pieces
      gives back `s`. */
  function Split(s: string, sep: char): (r: seq<string>)
    ensures |r| >= 1
    ensures forall k :: 0 <= k < |r| ==> sep !in r[k]
    ensures Join(r, sep) == s
  {
    if s == [] then [[]]
    else
      var rest := Split(s[1..], sep);
      if s[0] == sep then [[]] + rest
      else
        var r := [[s[0]] + rest[0]] + rest[1..];
        assert Join(r, sep) == s by {
          if |rest| > 1 {
            assert r[1..] == rest[1..];
            assert Join(rest, sep) == rest[0] + [sep] + Join(rest[1..], sep);
          }
        }
        r
  }

  /** A separator-free piece followed by the separator splits off as one piece. */
  lemma {:induction false} SplitCons(p: string, rest: string, sep: char)
    requires sep !in p
    ensures Split(p + [sep] + rest, sep) == [p] + Split(rest, sep)
  {
    if p == [] {
      assert p + [sep] + rest == [sep] + rest;
      assert ([sep] + rest)[1..] == rest;
    } else {
      assert (p + [sep] + rest)[1..] == p[1..] + [sep] + rest;
      SplitCons(p[1..], rest, sep);
      assert [p[0]] + p[1..] == p;
    }
  }

  /** A separator-free string splits into itself. */
  lemma {:induction false} SplitSingle(p: string, sep: char)
    requires sep !in p
    ensures Split(p, sep) == [p]
  {
    if p != [] {
      SplitSingle(p[1..], sep);
      assert [p[0]] + p[1..] == p;
    }
  }

  /** Round trip: splitting joined separator-free pieces gives the pieces back. */
  lemma {:induction false} SplitJoin(pieces: seq<string>, sep: char)
    requires |pieces| >= 1
    requires forall k :: 0 <= k < |pieces| ==> sep !in pieces[k]
    ensures Split(Join(pieces, sep), sep) == pieces
  {
    if |pieces| == 1 {
      SplitSingle(pieces[0], sep);
    } else {
      SplitJoin(pieces[1..], sep);
      SplitCons(pieces[0], Join(pieces[1..], sep), sep);
      assert [pieces[0]] + pieces[1..] == pieces;
    }
  }

  /** The first piece of a join is a prefix, followed by the separator when there are more pieces. */
  lemma JoinPrefix(pieces: seq<string>, sep: char)
    requires |pieces| >= 1
    ensures |pieces[0]| <= |Join(pieces, sep)| && Join(pieces, sep)[..|pieces[0]|] == pieces[0]
    ensures |pieces| == 1 ==> Join(pieces, sep) == pieces[0]
    ensures |pieces| > 1 ==> |pieces[0]| < |Join(pieces, sep)| && Join(pieces, sep)[|pieces[0]|] == sep
  {
  }

  /** The last piece of a join is a suffix, preceded by the separator when there are more pieces. */
  lemma {:induction false} JoinSuffix(pieces: seq<string>, sep: char)
    requires |pieces| >= 1
    ensures var last, j := pieces[|pieces| - 1], Join(pieces, sep);
            |last| <= |j| && j[|j| - |last|..] == last
            && (|pieces| > 1 ==> |last| < |j| && j[|j| - |last| - 1] == sep)
  {
    if |pieces| > 1 {
      JoinSuffix(pieces[1..], sep);
      assert pieces[1..][|pieces| - 2] == pieces[|pieces| - 1];
      if |pieces| > 2 {
        var j' := Join(pieces[1..], sep);
        assert Join(pieces, sep) == pieces[0] + [sep] + j';
      }
    }
  }

  /** A string that ends with the separator splits into pieces the last of which is empty: the
      trailing `;` of `"related-1;request-0;"` gives a final piece `""`. */
  lemma SplitTrailingSeparator(s: string, sep: char)
    requires s != [] && s[|s| - 1] == sep
    ensures Split(s, sep)[|Split(s, sep)| - 1] == []
  {
    JoinSuffix(Split(s, sep), sep);
  }

  /** What the model assumes of `word_tokenize` on one input: every token is non-empty, holds no
      whitespace, and is made of characters of the input. */
  predicate SoundTokens(text: string, tokens: seq<string>) {
    forall k :: 0 <= k < |tokens| ==> tokens[k] != [] && forall c :: c in tokens[k] ==> c in text && !IsSpace(c)
  }

  /** Sound tokens of a text are drawn from its characters, so only a non-empty text has any. */
  lemma SoundTokensNeedText(text: string, tokens: seq<string>)
    requires SoundTokens(text, tokens)
    ensures tokens != [] ==> text != []
  {
    assert tokens != [] ==> tokens[0][0] in text;
  }

  /** `piece.split('-')[0]`: the text before the first `-` (the whole piece when there is none). */
  function TextBeforeDash(piece: string): (r: string)
    ensures '-' !in r
    ensures |r| <= |piece| && piece[..|r|] == r
    ensures |r| < |piece| ==> piece[|r|] == '-'
  {
    var ps := Split(piece, '-');
    JoinPrefix(ps, '-');
    ps[0]
  }

  function Last(s: string): char
    requires s != []
  {
    s[|s| - 1]
  }
}
