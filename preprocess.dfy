/** Row annotation, text clean-up and filtering done by src/preprocess.py before any
    summarisation. The table is a sequence of rows; the CSV file it is read from is
    the input sequence. */
module Preprocess {
  import opened Text
  import opened Errors

  /** A row of the input table: the two columns the pipeline reads. */
  datatype Page = Page(url: string, text: string)

  /** A row after preprocessing: the input columns, the text cleaned up, and the five
      derived columns. */
  datatype Article = Article(
    url: string,
    text: string,
    secondLevelDomain: string,
    isEnglish: bool,
    hasError: bool,
    baseUrl: bool,
    slashCount: nat)

  /** The parts of `urllib.parse.urlparse(url)` that `is_base_url` looks at. */
  datatype UrlParts = UrlParts(path: string, query: string, fragment: string)

  /** The foreign helpers: `tldextract.extract(url).domain`, the language detector
      behind `is_english`, and `urlparse`. */
  datatype Helpers = Helpers(
    tldDomain: string -> string,
    isEnglish: string -> bool,
    urlparse: string -> UrlParts)

  // ---------------------------------------------------------------- word_count

  /** `word_count(texts)`: the words of the texts joined by blanks. */
  function WordCount(texts: seq<string>): nat
  {
    |Words(Join(" ", texts))|
  }

  lemma WordCountEmpty()
    ensures WordCount([]) == 0
  {
  }

  lemma WordCountSingle(t: string)
    ensures WordCount([t]) == |Words(t)|
  {
  }

  /** The blank the join inserts keeps the last word of one text apart from the
      first word of the next, so counts add up. */
  lemma WordCountAppend(xs: seq<string>, ys: seq<string>)
    ensures WordCount(xs + ys) == WordCount(xs) + WordCount(ys)
  {
    if xs == [] {
      assert xs + ys == ys;
    } else if ys == [] {
      assert xs + ys == xs;
    } else {
      JoinAppend(" ", xs, ys);
      WordsSeparated(Join(" ", xs), ' ', Join(" ", ys));
    }
  }

  // ---------------------------------------------------------------- counter_slashes

  /** `counter_slashes(url)`. */
  function CounterSlashes(url: string): (n: nat)
    ensures n <= |url|
    ensures n == multiset(url)['/']
  {
    Count(url, '/')
  }

  lemma CounterSlashesAppend(a: string, b: string)
    ensures CounterSlashes(a + b) == CounterSlashes(a) + CounterSlashes(b)
  {
    CountAppend(a, b, '/');
  }

  // ---------------------------------------------------------------- is_base_url, extract_main_domain

  /** `is_base_url(url)`: an empty or root path, and no query or fragment. */
  function IsBaseUrl(urlparse: string -> UrlParts, url: string): bool
  {
    var parsed := urlparse(url);
    (parsed.path == "" || parsed.path == "/") && parsed.query == "" && parsed.fragment == ""
  }

  // ---------------------------------------------------------------- to_sentence_case

  function CapitalizeAll(parts: seq<string>): (r: seq<string>)
    ensures |r| == |parts|
  {
    if parts == [] then [] else [Capitalize(parts[0])] + CapitalizeAll(parts[1..])
  }

  /** `to_sentence_case(text)`: split at `". "`, capitalize every piece, join again. */
  function ToSentenceCase(text: string): string
  {
    Join(". ", CapitalizeAll(Split(text, ". ")))
  }

  /** Position `i` begins a sentence: the start of the text or right after `". "`. */
  predicate SentenceStart(t: string, i: nat)
  {
    i == 0 || (2 <= i <= |t| && t[i - 2] == '.' && t[i - 1] == ' ')
  }

  /** The character `to_sentence_case` puts at position `i`. */
  function SentenceChar(t: string, i: nat): char
    requires i < |t|
  {
    if SentenceStart(t, i) then ToUpper(t[i]) else ToLower(t[i])
  }

  lemma NoSeparatorNoStart(t: string, i: nat)
    requires 0 < i < |t|
    requires forall k: nat :: k + 2 <= i ==> !OccursAt(t, ". ", k)
    ensures !SentenceStart(t, i)
  {
    if 2 <= i {
      assert !OccursAt(t, ". ", i - 2);
    }
  }

  /** `s` holds, at every position of `t`, the character `to_sentence_case` puts there. */
  predicate Cased(t: string, s: string)
  {
    |s| == |t| && forall i :: 0 <= i < |t| ==> s[i] == SentenceChar(t, i)
  }

  lemma CasedWithoutSeparator(t: string)
    requires forall k: nat :: !OccursAt(t, ". ", k)
    ensures Cased(t, Capitalize(t))
  {
    forall i | 0 < i < |t|
      ensures !SentenceStart(t, i)
    {
      NoSeparatorNoStart(t, i);
    }
  }

  lemma CasedAroundSeparator(t: string, head: string, rest: string, r: string)
    requires t == head + ". " + rest
    requires forall k: nat :: k < |head| ==> !OccursAt(t, ". ", k)
    requires Cased(rest, r)
    ensures Cased(t, Capitalize(head) + ". " + r)
  {
    var s := Capitalize(head) + ". " + r;
    var p := |head|;
    forall i | 0 <= i < |t|
      ensures s[i] == SentenceChar(t, i)
    {
      if i < p {
        assert s[i] == Capitalize(head)[i] && t[i] == head[i];
        if i > 0 {
          NoSeparatorNoStart(t, i);
        }
      } else if i < p + 2 {
        assert t[i] == s[i];
      } else {
        var j := i - (p + 2);
        assert s[i] == r[j] && rest[j] == t[i];
        if j >= 2 {
          assert rest[j - 2] == t[i - 2] && rest[j - 1] == t[i - 1];
        }
        assert SentenceStart(rest, j) == SentenceStart(t, i);
      }
    }
  }

  /** Character by character: the first letter of the text and every letter right
      after `". "` in upper case, every other letter in lower case. */
  lemma {:induction false} SentenceCaseChars(t: string)
    ensures Cased(t, ToSentenceCase(t))
    decreases |t|
  {
    match FindFrom(t, ". ", 0)
    case None =>
      assert Split(t, ". ") == [t];
      assert CapitalizeAll([t]) == [Capitalize(t)];
      CasedWithoutSeparator(t);
    case Some(p) =>
      SplitAt(t, ". ", p);
      var rest := t[p + 2..];
      var head := t[..p];
      var pieces := Split(rest, ". ");
      assert ([head] + pieces)[1..] == pieces;
      assert CapitalizeAll([head] + pieces) == [Capitalize(head)] + CapitalizeAll(pieces);
      JoinCons(". ", Capitalize(head), CapitalizeAll(pieces));
      SentenceCaseChars(rest);
      assert t == head + ". " + rest by {
        assert t[p..p + 2] == ". ";
      }
      CasedAroundSeparator(t, head, rest, ToSentenceCase(rest));
  }

  lemma CaseKeepsMarks(c: char)
    ensures ToUpper(c) == '.' <==> c == '.'
    ensures ToLower(c) == '.' <==> c == '.'
    ensures ToUpper(c) == ' ' <==> c == ' '
    ensures ToLower(c) == ' ' <==> c == ' '
    ensures IsSpace(ToUpper(c)) <==> IsSpace(c)
    ensures IsSpace(ToLower(c)) <==> IsSpace(c)
    ensures IsSpace(c) ==> ToUpper(c) == c && ToLower(c) == c
  {
  }

  lemma CasedKeepsChar(t: string, s: string, i: nat)
    requires Cased(t, s) && i < |t|
    ensures s[i] == '.' <==> t[i] == '.'
    ensures s[i] == ' ' <==> t[i] == ' '
    ensures IsSpace(s[i]) <==> IsSpace(t[i])
    ensures IsSpace(s[i]) ==> s[i] == t[i]
  {
    CaseKeepsMarks(t[i]);
  }

  lemma CasedSeparators(t: string, s: string, i: nat)
    requires Cased(t, s)
    ensures OccursAt(s, ". ", i) <==> OccursAt(t, ". ", i)
  {
    if i + 2 <= |t| {
      CasedKeepsChar(t, s, i);
      CasedKeepsChar(t, s, i + 1);
      assert s[i..i + 2] == [s[i], s[i + 1]];
      assert t[i..i + 2] == [t[i], t[i + 1]];
    }
  }

  /** The separators stay where they were, and no new one appears. */
  lemma SentenceCaseSeparators(t: string, i: nat)
    ensures OccursAt(ToSentenceCase(t), ". ", i) <==> OccursAt(t, ". ", i)
  {
    SentenceCaseChars(t);
    CasedSeparators(t, ToSentenceCase(t), i);
  }

  lemma CasedTwice(t: string, s: string, u: string)
    requires Cased(t, s) && Cased(s, u)
    ensures u == s
  {
    forall i | 0 <= i < |t|
      ensures u[i] == s[i]
    {
      if i >= 2 {
        CasedKeepsChar(t, s, i - 2);
        CasedKeepsChar(t, s, i - 1);
      }
      assert SentenceStart(s, i) == SentenceStart(t, i);
    }
  }

  /** Applying `to_sentence_case` twice changes nothing more. */
  lemma SentenceCaseIdempotent(t: string)
    ensures ToSentenceCase(ToSentenceCase(t)) == ToSentenceCase(t)
  {
    var s := ToSentenceCase(t);
    SentenceCaseChars(t);
    SentenceCaseChars(s);
    CasedTwice(t, s, ToSentenceCase(s));
  }

  // ---------------------------------------------------------------- text clean-up (line 59)

  /** Every whitespace character is a blank and no two are adjacent. */
  predicate Collapsed(s: string)
  {
    (forall i :: 0 <= i < |s| && IsSpace(s[i]) ==> s[i] == ' ')
    && (forall i :: 0 <= i < |s| ==> NoSpacePairAt(s, i))
  }

  /** Positions `i` and `i + 1` are not both whitespace. */
  predicate NoSpacePairAt(s: string, i: nat)
  {
    i + 1 < |s| && IsSpace(s[i]) ==> !IsSpace(s[i + 1])
  }

  /** What the clean-up promises: collapsed, and no whitespace at either end. */
  predicate Normalised(s: string)
  {
    Collapsed(s) && (s == [] || (!IsSpace(s[0]) && !IsSpace(s[|s| - 1])))
  }

  /** `Series.replace('\n', ' ')`: without `regex=True` this replaces a cell whose
      whole value is a line feed, and leaves every other cell alone. */
  function ReplaceNewlineCell(t: string): string
  {
    if t == "\n" then " " else t
  }

  /** `Series.replace(r'\s+', ' ', regex=True)`: every maximal run of whitespace
      becomes one blank. */
  function CollapseWhitespace(s: string): string
    decreases |s|
  {
    if s == [] then []
    else if IsSpace(s[0]) then " " + CollapseWhitespace(LStrip(s))
    else
      var n := TokenEnd(s);
      s[..n] + CollapseWhitespace(s[n..])
  }

  lemma CollapsedPrepend(c: string)
    requires Collapsed(c) && (c == [] || !IsSpace(c[0]))
    ensures Collapsed(" " + c)
  {
    var x := " " + c;
    forall i | 0 <= i < |x|
      ensures NoSpacePairAt(x, i)
    {
      if 0 < i {
        assert NoSpacePairAt(c, i - 1);
        if i + 1 < |x| {
          assert x[i] == c[i - 1] && x[i + 1] == c[i];
        }
      }
    }
    forall i | 0 <= i < |x| && IsSpace(x[i])
      ensures x[i] == ' '
    {
      if 0 < i {
        assert x[i] == c[i - 1];
      }
    }
  }

  lemma CollapsedAfterToken(w: string, c: string)
    requires forall k :: 0 <= k < |w| ==> !IsSpace(w[k])
    requires Collapsed(c)
    ensures Collapsed(w + c)
  {
    var x := w + c;
    forall i | 0 <= i < |x|
      ensures NoSpacePairAt(x, i)
    {
      if |w| <= i {
        assert NoSpacePairAt(c, i - |w|);
        if i + 1 < |x| {
          assert x[i] == c[i - |w|] && x[i + 1] == c[i - |w| + 1];
        }
      }
    }
    forall i | 0 <= i < |x| && IsSpace(x[i])
      ensures x[i] == ' '
    {
      if |w| <= i {
        assert x[i] == c[i - |w|];
      }
    }
  }

  /** The collapsed text has single blanks as its only whitespace, is empty only for
      empty input, and starts with whitespace just when the input does. */
  lemma {:induction false} CollapseShape(s: string)
    ensures Collapsed(CollapseWhitespace(s))
    ensures CollapseWhitespace(s) == [] <==> s == []
    ensures s != [] ==> (IsSpace(CollapseWhitespace(s)[0]) <==> IsSpace(s[0]))
    decreases |s|
  {
    if s == [] {
    } else if IsSpace(s[0]) {
      var l := LStrip(s);
      CollapseShape(l);
      CollapsedPrepend(CollapseWhitespace(l));
    } else {
      var n := TokenEnd(s);
      CollapseShape(s[n..]);
      CollapsedAfterToken(s[..n], CollapseWhitespace(s[n..]));
    }
  }

  /** The clean-up of line 59: the cell replacement, the collapse, then `str.strip()`. */
  function NormaliseText(t: string): string
  {
    Strip(CollapseWhitespace(ReplaceNewlineCell(t)))
  }

  lemma CollapsedSlice(s: string, a: nat, b: nat)
    requires Collapsed(s) && a <= b <= |s|
    ensures Collapsed(s[a..b])
  {
    var x := s[a..b];
    forall i | 0 <= i < |x|
      ensures NoSpacePairAt(x, i)
    {
      assert NoSpacePairAt(s, a + i);
      if i + 1 < |x| {
        assert x[i] == s[a + i] && x[i + 1] == s[a + i + 1];
      }
    }
    forall i | 0 <= i < |x| && IsSpace(x[i])
      ensures x[i] == ' '
    {
      assert x[i] == s[a + i];
    }
  }

  /** Stripping collapsed text leaves it collapsed and clean at both ends. */
  lemma StripNormalises(c: string)
    requires Collapsed(c)
    ensures Normalised(Strip(c))
  {
    var a := |c| - |LStrip(c)|;
    var b := |c| - |LStrip(c)| + |Strip(c)|;
    StripSlice(c);
    StripEnds(c);
    CollapsedSlice(c, a, b);
    CollapsedEqual(c[a..b], Strip(c));
  }

  /** `Collapsed` carries over to an equal string; as a lemma of its own this step
      stays cheap, where an inline assertion weighs on the whole proof above. */
  lemma CollapsedEqual(x: string, y: string)
    requires Collapsed(x) && x == y
    ensures Collapsed(y)
  {
  }

  /** After line 59 the text is collapsed and has no whitespace at either end. */
  lemma NormaliseTextNormalised(t: string)
    ensures Normalised(NormaliseText(t))
  {
    CollapseShape(ReplaceNewlineCell(t));
    StripNormalises(CollapseWhitespace(ReplaceNewlineCell(t)));
  }

  lemma {:induction false} CollapseIdentity(s: string)
    requires Collapsed(s)
    ensures CollapseWhitespace(s) == s
    decreases |s|, 1
  {
    if s != [] {
      if IsSpace(s[0]) {
        CollapseIdentityAtSpace(s);
      } else {
        CollapseIdentityAtToken(s);
      }
    }
  }

  lemma {:induction false} CollapseIdentityAtSpace(s: string)
    requires Collapsed(s) && s != [] && IsSpace(s[0])
    ensures CollapseWhitespace(s) == s
    decreases |s|, 0
  {
    assert LStrip(s) == s[1..] by {
      assert NoSpacePairAt(s, 0);
    }
    CollapsedSlice(s, 1, |s|);
    SliceToEnd(s, 1);
    CollapseIdentity(s[1..]);
    CollapseAtSpace(s);
    ConsDrop(s);
  }

  lemma {:induction false} CollapseIdentityAtToken(s: string)
    requires Collapsed(s) && s != [] && !IsSpace(s[0])
    ensures CollapseWhitespace(s) == s
    decreases |s|, 0
  {
    var n := TokenEnd(s);
    CollapsedSlice(s, n, |s|);
    SliceToEnd(s, n);
    CollapseIdentity(s[n..]);
    CollapseAtToken(s);
    TakeDrop(s, n);
  }

  lemma StripIdentity(s: string)
    requires s == [] || (!IsSpace(s[0]) && !IsSpace(s[|s| - 1]))
    ensures Strip(s) == s
  {
    var l := LStrip(s);
    if |l| < |s| {
      assert IsSpace(s[0]);
    }
  }

  /** Text that is already clean is left as it is. */
  lemma NormaliseTextIdentity(s: string)
    requires Normalised(s)
    ensures NormaliseText(s) == s
  {
    assert ReplaceNewlineCell(s) == s by {
      if s == "\n" {
        assert IsSpace(s[0]);
      }
    }
    CollapseIdentity(s);
    StripIdentity(s);
  }

  /** The clean-up is idempotent. */
  lemma NormaliseTextIdempotent(t: string)
    ensures NormaliseText(NormaliseText(t)) == NormaliseText(t)
  {
    NormaliseTextNormalised(t);
    NormaliseTextIdentity(NormaliseText(t));
  }

  lemma {:induction false} CollapseWords(s: string)
    ensures Words(CollapseWhitespace(s)) == Words(s)
    decreases |s|, 1
  {
    if s != [] {
      if IsSpace(s[0]) {
        CollapseWordsAtSpace(s);
      } else {
        CollapseWordsAtToken(s);
      }
    }
  }

  lemma CollapseAtSpace(s: string)
    requires s != [] && IsSpace(s[0])
    ensures CollapseWhitespace(s) == " " + CollapseWhitespace(LStrip(s))
  {
  }

  lemma CollapseAtToken(s: string)
    requires s != [] && !IsSpace(s[0])
    ensures CollapseWhitespace(s) == s[..TokenEnd(s)] + CollapseWhitespace(s[TokenEnd(s)..])
  {
  }

  lemma WordsLeadingSpace(c: string)
    ensures Words(" " + c) == Words(c)
  {
    WordsSeparated([], ' ', c);
    assert [] + [' '] + c == " " + c;
  }

  /** The words after a token depend only on the words of what follows it. */
  lemma TokenWordsCongruent(w: string, y: string, r: string)
    requires |w| > 0 && forall k :: 0 <= k < |w| ==> !IsSpace(w[k])
    requires (y == [] || IsSpace(y[0])) && (r == [] || IsSpace(r[0]))
    requires Words(y) == Words(r)
    ensures Words(w + y) == Words(w + r)
  {
    WordsOfToken(w, y);
    WordsOfToken(w, r);
  }

  lemma {:induction false} CollapseWordsAtSpace(s: string)
    requires s != [] && IsSpace(s[0])
    ensures Words(CollapseWhitespace(s)) == Words(s)
    decreases |s|, 0
  {
    var l := LStrip(s);
    CollapseAtSpace(s);
    CollapseWords(l);
    WordsLStrip(s);
    WordsLeadingSpace(CollapseWhitespace(l));
  }

  lemma {:induction false} CollapseWordsAtToken(s: string)
    requires s != [] && !IsSpace(s[0])
    ensures Words(CollapseWhitespace(s)) == Words(s)
    decreases |s|, 0
  {
    var n := TokenEnd(s);
    CollapseWords(s[n..]);
    WordsAfterToken(s, n);
  }

  /** One step of the proof above: a token, then text whose words the collapse keeps. */
  lemma WordsAfterToken(s: string, n: nat)
    requires s != [] && !IsSpace(s[0]) && n == TokenEnd(s)
    requires Words(CollapseWhitespace(s[n..])) == Words(s[n..])
    ensures Words(CollapseWhitespace(s)) == Words(s)
  {
    var w := s[..n];
    var rest := s[n..];
    var y := CollapseWhitespace(rest);
    CollapseAtToken(s);
    assert y == [] || IsSpace(y[0]) by {
      CollapseShape(rest);
    }
    TokenWordsCongruent(w, y, rest);
    TakeDrop(s, n);
  }

  /** The clean-up changes no word of the text. */
  lemma NormaliseTextWords(t: string)
    ensures Words(NormaliseText(t)) == Words(t)
  {
    if t == "\n" {
      WordsOfSpaces(t);
      WordsOfSpaces(" ");
    }
    CollapseWords(ReplaceNewlineCell(t));
    WordsStrip(CollapseWhitespace(ReplaceNewlineCell(t)));
  }

  /** Sentence case changes letters only, so clean text stays clean. */
  lemma SentenceCaseKeepsNormalised(t: string)
    requires Normalised(t)
    ensures Normalised(ToSentenceCase(t))
  {
    var s := ToSentenceCase(t);
    SentenceCaseChars(t);
    forall i | 0 <= i < |t|
      ensures IsSpace(s[i]) <==> IsSpace(t[i])
      ensures IsSpace(s[i]) ==> s[i] == t[i]
    {
      CasedKeepsChar(t, s, i);
    }
    forall i | 0 <= i < |s|
      ensures NoSpacePairAt(s, i)
    {
      assert NoSpacePairAt(t, i);
    }
  }

  /** Sentence case changes no whitespace, so no word boundary either. */
  lemma SentenceCaseWordCount(t: string)
    ensures |Words(ToSentenceCase(t))| == |Words(t)|
  {
    var s := ToSentenceCase(t);
    SentenceCaseChars(t);
    forall i | 0 <= i < |s|
      ensures IsSpace(s[i]) <==> IsSpace(t[i])
    {
      CasedKeepsChar(t, s, i);
    }
    SameSpacesWordCount(s, t);
  }

  /** Strings with whitespace at the same positions. */
  predicate SameSpaces(s: string, u: string)
  {
    |s| == |u| && forall i :: 0 <= i < |s| ==> (IsSpace(s[i]) <==> IsSpace(u[i]))
  }

  lemma {:induction false} TokenEndSameSpaces(s: string, u: string)
    requires SameSpaces(s, u)
    ensures TokenEnd(s) == TokenEnd(u)
  {
    if s != [] && !IsSpace(s[0]) {
      assert SameSpaces(s[1..], u[1..]) by {
        forall i | 0 <= i < |s| - 1
          ensures IsSpace(s[1..][i]) <==> IsSpace(u[1..][i])
        {
          assert s[1..][i] == s[i + 1] && u[1..][i] == u[i + 1];
        }
      }
      TokenEndSameSpaces(s[1..], u[1..]);
    }
  }

  /** The number of words depends only on where the whitespace is. */
  lemma {:induction false} SameSpacesWordCount(s: string, u: string)
    requires SameSpaces(s, u)
    ensures |Words(s)| == |Words(u)|
    decreases |s|
  {
    if s != [] {
      var n := if IsSpace(s[0]) then 1 else TokenEnd(s);
      if !IsSpace(s[0]) {
        TokenEndSameSpaces(s, u);
      }
      assert SameSpaces(s[n..], u[n..]) by {
        forall i | 0 <= i < |s| - n
          ensures IsSpace(s[n..][i]) <==> IsSpace(u[n..][i])
        {
          assert s[n..][i] == s[i + n] && u[n..][i] == u[i + n];
        }
      }
      SameSpacesWordCount(s[n..], u[n..]);
    }
  }

  // ---------------------------------------------------------------- the row filter (line 62)

  /** The rows line 62 keeps: English text without an error marker. */
  predicate Kept(a: Article)
  {
    a.isEnglish && !a.hasError
  }

  /** `df[df['is_english'] & ~df['has_error']]`. */
  function FilterRows(rows: seq<Article>): seq<Article>
  {
    if rows == [] then []
    else
      var last := rows[|rows| - 1];
      FilterRows(rows[..|rows| - 1]) + (if Kept(last) then [last] else [])
  }

  /** The filter keeps every kept row as often as it occurs, and nothing else. */
  lemma {:induction false} FilterRowsCount(rows: seq<Article>)
    ensures forall a :: multiset(FilterRows(rows))[a] == if Kept(a) then multiset(rows)[a] else 0
    decreases |rows|
  {
    if rows != [] {
      var init := rows[..|rows| - 1];
      FilterRowsCount(init);
      assert rows == init + [rows[|rows| - 1]];
    }
  }

  lemma FilterRowsMembers(rows: seq<Article>)
    ensures forall a :: a in FilterRows(rows) <==> a in rows && Kept(a)
  {
    FilterRowsCount(rows);
    forall a
      ensures a in FilterRows(rows) <==> a in rows && Kept(a)
    {
      assert a in FilterRows(rows) <==> multiset(FilterRows(rows))[a] > 0;
      assert a in rows <==> multiset(rows)[a] > 0;
    }
  }

  /** Filtering keeps the order: it distributes over concatenation. */
  lemma {:induction false} FilterRowsAppend(xs: seq<Article>, ys: seq<Article>)
    ensures FilterRows(xs + ys) == FilterRows(xs) + FilterRows(ys)
    decreases |ys|
  {
    if ys == [] {
      assert xs + ys == xs;
    } else {
      var init := ys[..|ys| - 1];
      var last := ys[|ys| - 1];
      var tail := if Kept(last) then [last] else [];
      assert (xs + ys)[..|xs + ys| - 1] == xs + init;
      assert (xs + ys)[|xs + ys| - 1] == last;
      assert FilterRows(xs + ys) == FilterRows(xs + init) + tail;
      assert FilterRows(ys) == FilterRows(init) + tail;
      FilterRowsAppend(xs, init);
      assert FilterRows(xs + ys) == FilterRows(xs) + FilterRows(init) + tail;
    }
  }

  // ---------------------------------------------------------------- preprocess_and_load_data

  /** The row lines 54-60 make of one input row. The language and error columns are
      computed on the text as read, before the clean-up. */
  function Prepare(helpers: Helpers, page: Page): (a: Article)
    ensures a.url == page.url
    ensures Normalised(a.text) && |Words(a.text)| == |Words(page.text)|
    ensures Kept(a) <==> helpers.isEnglish(page.text) && !DetectError(page.text)
  {
    var cleaned := NormaliseText(page.text);
    NormaliseTextNormalised(page.text);
    NormaliseTextWords(page.text);
    SentenceCaseKeepsNormalised(cleaned);
    SentenceCaseWordCount(cleaned);
    Article(
      page.url,
      ToSentenceCase(cleaned),
      helpers.tldDomain(page.url),
      helpers.isEnglish(page.text),
      DetectError(page.text),
      IsBaseUrl(helpers.urlparse, page.url),
      CounterSlashes(page.url))
  }

  /** `Prepare` column by column, so that a caller need not unfold its body. */
  lemma PrepareColumns(helpers: Helpers, page: Page)
    ensures Prepare(helpers, page) == Article(page.url, ToSentenceCase(NormaliseText(page.text)),
      helpers.tldDomain(page.url), helpers.isEnglish(page.text), DetectError(page.text),
      IsBaseUrl(helpers.urlparse, page.url), CounterSlashes(page.url))
  { }

  /** `preprocess_and_load_data(path)` on the rows read from the file: five derived
      columns, the two text rewrites, then the filter. */
  method PreprocessAndLoadData(pages: seq<Page>, helpers: Helpers) returns (filtered: seq<Article>)
    ensures filtered == FilterRows(seq(|pages|, i requires 0 <= i < |pages| => Prepare(helpers, pages[i])))
  {
    var n := |pages|;
    var url := seq(n, i requires 0 <= i < n => pages[i].url);
    var text := seq(n, i requires 0 <= i < n => pages[i].text);
    var secondLevelDomain := seq(n, i requires 0 <= i < n => helpers.tldDomain(url[i]));
    var isEnglish := seq(n, i requires 0 <= i < n => helpers.isEnglish(text[i]));
    var hasError := seq(n, i requires 0 <= i < n => DetectError(text[i]));
    var baseUrl := seq(n, i requires 0 <= i < n => IsBaseUrl(helpers.urlparse, url[i]));
    var slashCount := seq(n, i requires 0 <= i < n => CounterSlashes(url[i]));
    text := seq(n, i requires 0 <= i < n => NormaliseText(text[i]));
    text := seq(n, i requires 0 <= i < n => ToSentenceCase(text[i]));
    var rows := seq(n, i requires 0 <= i < n =>
      Article(url[i], text[i], secondLevelDomain[i], isEnglish[i], hasError[i], baseUrl[i], slashCount[i]));
    ghost var prepared := seq(n, i requires 0 <= i < n => Prepare(helpers, pages[i]));
    forall i | 0 <= i < n
      ensures rows[i] == prepared[i]
    {
      PrepareColumns(helpers, pages[i]);
    }
    assert rows == prepared;
    filtered := FilterRows(rows);
  }
}
