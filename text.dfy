/** Python `str` operations the pipeline relies on, restricted to ASCII:
    `str.count`, `str.join`, `str.split(sep)`, `str.split()`, `str.strip()`,
    `str.upper`/`str.lower` on single characters, and `str.capitalize`. */
module Text {

  datatype Option<T> = None | Some(value: T)

  /** Facts about sequences that the loops of the pipeline use at every step. */
  lemma AppendAssoc<T>(a: seq<T>, b: seq<T>, c: seq<T>)
    ensures (a + b) + c == a + (b + c)
  {
  }

  lemma TakeDrop<T>(s: seq<T>, i: nat)
    requires i <= |s|
    ensures s[..i] + s[i..] == s
  {
  }

  lemma ConsDrop<T>(s: seq<T>)
    requires |s| > 0
    ensures [s[0]] + s[1..] == s
  {
  }

  lemma SliceToEnd<T>(s: seq<T>, i: nat)
    requires i <= |s|
    ensures s[i..|s|] == s[i..]
  {
  }

  lemma SliceOfDrop<T>(s: seq<T>, i: nat, k: nat)
    requires i + k <= |s|
    ensures s[i..][..k] == s[i..i + k]
  {
  }

  /** A prefix of a suffix is a slice. */
  lemma PrefixOfSuffix<T>(s: seq<T>, l: seq<T>, r: seq<T>, i: nat)
    requires i <= |s| && l == s[i..] && |r| <= |l| && r == l[..|r|]
    ensures i + |r| <= |s| && r == s[i..i + |r|]
  {
    SliceOfDrop(s, i, |r|);
  }

  lemma DropOfTail<T>(s: seq<T>, k: nat)
    requires 0 < |s| && k < |s|
    ensures s[1..][k..] == s[k + 1..]
  {
  }

  lemma TakeSnoc<T>(s: seq<T>, i: nat)
    requires i < |s|
    ensures s[..i + 1] == s[..i] + [s[i]]
  {
  }

  /** `p` occurs in `s` starting at index `i`. */
  predicate OccursAt(s: string, p: string, i: nat)
  {
    i + |p| <= |s| && s[i..i + |p|] == p
  }

  /** `s.startswith(p)`. */
  predicate StartsWith(s: string, p: string)
  {
    |p| <= |s| && s[..|p|] == p
  }

  /** `s.endswith(p)`. */
  predicate EndsWith(s: string, p: string)
  {
    |p| <= |s| && s[|s| - |p|..] == p
  }

  lemma StartsWithAppend(a: string, b: string, p: string)
    requires StartsWith(a, p)
    ensures StartsWith(a + b, p)
  {
    assert (a + b)[..|p|] == a[..|p|];
  }

  lemma EndsWithPrepend(a: string, b: string, p: string)
    requires EndsWith(b, p)
    ensures EndsWith(a + b, p)
  {
    assert (a + b)[|a + b| - |p|..] == b[|b| - |p|..];
  }

  /** Slicing `a + b + c` at given offsets: the middle part, the end of the first
      part, and the start of the last part. */
  lemma SliceMiddle(a: string, b: string, c: string, i: nat)
    requires i == |a|
    ensures (a + b + c)[i..i + |b|] == b
  {
    assert (a + b + c)[..i + |b|] == a + b;
  }

  lemma SliceEndOfFirst(a: string, b: string, c: string, p: string, i: nat, j: nat)
    requires EndsWith(a, p) && j == |a| && i + |p| == j
    ensures (a + b + c)[i..j] == p
  {
    assert (a + b + c)[i..j] == a[i..j];
  }

  lemma SliceStartOfLast(a: string, b: string, c: string, p: string, i: nat, j: nat)
    requires StartsWith(c, p) && i == |a| + |b| && j == i + |p|
    ensures (a + b + c)[i..j] == p
  {
    assert (a + b + c)[i..j] == c[..|p|];
  }

  /** `p` is a substring of `s` (Python's `p in s`). */
  predicate Contains(s: string, p: string)
  {
    exists i: nat :: i <= |s| && OccursAt(s, p, i)
  }

  lemma OccursAtShift(a: string, s: string, b: string, p: string, i: nat)
    requires OccursAt(s, p, i)
    ensures OccursAt(a + s + b, p, |a| + i)
  {
    assert (a + s + b)[|a| + i..|a| + i + |p|] == s[i..i + |p|];
  }

  /** Python's `str.isspace()` on one ASCII character: tab, line feed, vertical tab,
      form feed, carriage return, the four information separators and the blank. */
  predicate IsSpace(c: char)
  {
    c == ' ' || '\t' <= c <= '\r' || '\U{1c}' <= c <= '\U{1f}'
  }

  /** Python's `'0' <= c <= '9'` (the ASCII part of the regular expression class `\d`). */
  predicate IsDigit(c: char)
  {
    '0' <= c <= '9'
  }

  function ToUpper(c: char): (u: char)
    ensures 'a' <= c <= 'z' ==> 'A' <= u <= 'Z' && u as int == c as int - 32
    ensures !('a' <= c <= 'z') ==> u == c
  {
    if 'a' <= c <= 'z' then (c as int - 32) as char else c
  }

  function ToLower(c: char): (l: char)
    ensures 'A' <= c <= 'Z' ==> 'a' <= l <= 'z' && l as int == c as int + 32
    ensures !('A' <= c <= 'Z') ==> l == c
  {
    if 'A' <= c <= 'Z' then (c as int + 32) as char else c
  }

  /** `str.count(c)` for a one-character argument. */
  function Count(s: string, c: char): (n: nat)
    ensures n <= |s|
    ensures n == multiset(s)[c]
  {
    if s == [] then 0
    else
      assert s == [s[0]] + s[1..];
      (if s[0] == c then 1 else 0) + Count(s[1..], c)
  }

  lemma {:induction false} CountAppend(a: string, b: string, c: char)
    ensures Count(a + b, c) == Count(a, c) + Count(b, c)
  {
    if a != [] {
      assert (a + b)[1..] == a[1..] + b;
      CountAppend(a[1..], b, c);
    } else {
      assert a + b == b;
    }
  }

  /** `sep.join(xs)`. */
  function Join(sep: string, xs: seq<string>): string
  {
    if |xs| == 0 then ""
    else if |xs| == 1 then xs[0]
    else xs[0] + sep + Join(sep, xs[1..])
  }

  lemma {:induction false} JoinAppend(sep: string, xs: seq<string>, ys: seq<string>)
    requires xs != [] && ys != []
    ensures Join(sep, xs + ys) == Join(sep, xs) + sep + Join(sep, ys)
  {
    if |xs| == 1 {
      assert (xs + ys)[1..] == ys;
    } else {
      assert (xs + ys)[1..] == xs[1..] + ys;
      JoinAppend(sep, xs[1..], ys);
    }
  }

  /** The first occurrence of `p` in `s` at or after index `i` (Python's `str.find(p, i)`). */
  function FindFrom(s: string, p: string, i: nat): (r: Option<nat>)
    decreases |s| - i
    ensures r.Some? ==> i <= r.value && OccursAt(s, p, r.value)
    ensures r.Some? ==> forall k: nat :: i <= k < r.value ==> !OccursAt(s, p, k)
    ensures r.None? ==> forall k: nat :: i <= k ==> !OccursAt(s, p, k)
  {
    if i + |p| > |s| then None
    else if OccursAt(s, p, i) then Some(i)
    else FindFrom(s, p, i + 1)
  }

  /** `s.split(sep)` for a non-empty separator: the pieces between the occurrences of
      `sep` found left to right; there is always at least one piece. */
  function Split(s: string, sep: string): (parts: seq<string>)
    requires |sep| > 0
    decreases |s|
    ensures |parts| >= 1
  {
    match FindFrom(s, sep, 0)
    case None => [s]
    case Some(p) => [s[..p]] + Split(s[p + |sep|..], sep)
  }

  lemma SplitAt(s: string, sep: string, p: nat)
    requires |sep| > 0
    requires FindFrom(s, sep, 0) == Some(p)
    ensures p + |sep| <= |s|
    ensures Split(s, sep) == [s[..p]] + Split(s[p + |sep|..], sep)
  {
    assert OccursAt(s, sep, p);
    assert p + |sep| <= |s|;
    var parts := [s[..p]] + Split(s[p + |sep|..], sep);
    assert Split(s, sep) == parts;
  }

  lemma JoinCons(sep: string, x: string, xs: seq<string>)
    requires xs != []
    ensures Join(sep, [x] + xs) == x + sep + Join(sep, xs)
  {
    assert ([x] + xs)[1..] == xs;
  }

  /** Joining the pieces of a split with the same separator gives back the string. */
  lemma {:induction false} JoinSplit(s: string, sep: string)
    requires |sep| > 0
    ensures Join(sep, Split(s, sep)) == s
    decreases |s|
  {
    var f := FindFrom(s, sep, 0);
    if f.Some? {
      var p := f.value;
      var rest := s[p + |sep|..];
      SplitAt(s, sep, p);
      JoinSplit(rest, sep);
      JoinCons(sep, s[..p], Split(rest, sep));
      assert s[p..p + |sep|] == sep;
      assert s == s[..p] + s[p..p + |sep|] + rest;
    }
  }

  /** A prefix that ends before the first occurrence of `sep` does not contain it. */
  lemma PrefixFree(s: string, sep: string, p: nat)
    requires |sep| > 0 && p <= |s|
    requires forall k: nat :: k < p ==> !OccursAt(s, sep, k)
    ensures !Contains(s[..p], sep)
  {
    var t := s[..p];
    forall j: nat | j <= |t| ensures !OccursAt(t, sep, j) {
      if j + |sep| <= p {
        assert t[j..j + |sep|] == s[j..j + |sep|];
        assert !OccursAt(s, sep, j);
      }
    }
  }

  /** No piece of a split contains the separator. */
  lemma {:induction false} SplitPiecesFree(s: string, sep: string)
    requires |sep| > 0
    ensures forall k :: 0 <= k < |Split(s, sep)| ==> !Contains(Split(s, sep)[k], sep)
    decreases |s|
  {
    var f := FindFrom(s, sep, 0);
    if f.None? {
      assert Split(s, sep) == [s];
      PrefixFree(s, sep, |s|);
      assert s[..|s|] == s;
    } else {
      var p := f.value;
      var rest := s[p + |sep|..];
      SplitAt(s, sep, p);
      SplitPiecesFree(rest, sep);
      PrefixFree(s, sep, p);
      var tail := Split(rest, sep);
      forall k | 0 <= k < 1 + |tail| ensures !Contains(([s[..p]] + tail)[k], sep) {
        if k > 0 {
          assert ([s[..p]] + tail)[k] == tail[k - 1];
        }
      }
    }
  }

  /** For a one-character separator that no element contains, splitting the joined
      text recovers the list, provided the list is not empty (`"".split(sep) == [""]`). */
  lemma {:induction false} SplitJoin(xs: seq<string>, c: char)
    requires |xs| > 0
    requires forall k :: 0 <= k < |xs| ==> c !in xs[k]
    ensures Split(Join([c], xs), [c]) == xs
  {
    var x := xs[0];
    if |xs| == 1 {
      forall j: nat | j + 1 <= |x| ensures !OccursAt(x, [c], j) {
        assert x[j..j + 1] == [x[j]];
      }
      assert FindFrom(x, [c], 0) == None;
    } else {
      var s := Join([c], xs);
      var rest := Join([c], xs[1..]);
      assert s == x + [c] + rest;
      assert OccursAt(s, [c], |x|) by {
        assert s[|x|..|x| + 1] == [c];
      }
      forall j: nat | j < |x| ensures !OccursAt(s, [c], j) {
        assert s[j] == x[j];
      }
      assert FindFrom(s, [c], 0) == Some(|x|);
      assert s[|x| + 1..] == rest;
      assert s[..|x|] == x;
      SplitJoin(xs[1..], c);
    }
  }

  /** The length of the leading run of non-whitespace characters. */
  function TokenEnd(s: string): (n: nat)
    ensures n <= |s|
    ensures forall k :: 0 <= k < n ==> !IsSpace(s[k])
    ensures n == |s| || IsSpace(s[n])
  {
    if s == [] || IsSpace(s[0]) then 0 else 1 + TokenEnd(s[1..])
  }

  /** `s.split()` with no argument: the maximal runs of non-whitespace characters. */
  function Words(s: string): seq<string>
    decreases |s|
  {
    if s == [] then []
    else if IsSpace(s[0]) then Words(s[1..])
    else
      var n := TokenEnd(s);
      [s[..n]] + Words(s[n..])
  }

  /** Every word is non-empty and holds no whitespace. */
  lemma {:induction false} WordsShape(s: string)
    ensures forall k :: 0 <= k < |Words(s)| ==> |Words(s)[k]| > 0
    ensures forall k, j :: 0 <= k < |Words(s)| && 0 <= j < |Words(s)[k]| ==> !IsSpace(Words(s)[k][j])
    decreases |s|
  {
    if s != [] {
      if IsSpace(s[0]) {
        WordsShape(s[1..]);
      } else {
        WordsShape(s[TokenEnd(s)..]);
      }
    }
  }

  lemma {:induction false} TokenEndAppend(a: string, b: string)
    requires b == [] || IsSpace(b[0])
    ensures TokenEnd(a + b) == TokenEnd(a)
  {
    if a == [] {
      assert a + b == b;
    } else if !IsSpace(a[0]) {
      assert (a + b)[1..] == a[1..] + b;
      TokenEndAppend(a[1..], b);
    }
  }

  lemma {:induction false} WordsOfSpaces(b: string)
    requires forall k :: 0 <= k < |b| ==> IsSpace(b[k])
    ensures Words(b) == []
  {
    if b != [] {
      WordsOfSpaces(b[1..]);
    }
  }

  /** Whitespace between `a` and `b` keeps their words apart. */
  lemma {:induction false} WordsSeparated(a: string, c: char, b: string)
    requires IsSpace(c)
    ensures Words(a + [c] + b) == Words(a) + Words(b)
    decreases |a|
  {
    var s := a + [c] + b;
    if a == [] {
      assert s[1..] == b;
    } else if IsSpace(a[0]) {
      assert s[1..] == a[1..] + [c] + b;
      WordsSeparated(a[1..], c, b);
    } else {
      assert s == a + ([c] + b);
      TokenEndAppend(a, [c] + b);
      var n := TokenEnd(a);
      assert s[..n] == a[..n];
      assert s[n..] == a[n..] + [c] + b;
      WordsSeparated(a[n..], c, b);
    }
  }

  lemma {:induction false} WordsTrailingSpaces(a: string, b: string)
    requires forall k :: 0 <= k < |b| ==> IsSpace(b[k])
    ensures Words(a + b) == Words(a)
    decreases |a|
  {
    var s := a + b;
    if a == [] {
      assert s == b;
      WordsOfSpaces(b);
    } else if IsSpace(a[0]) {
      assert s[1..] == a[1..] + b;
      WordsTrailingSpaces(a[1..], b);
    } else {
      TokenEndAppend(a, b);
      var n := TokenEnd(a);
      assert s[..n] == a[..n];
      assert s[n..] == a[n..] + b;
      WordsTrailingSpaces(a[n..], b);
    }
  }

  lemma WordsOfToken(t: string, y: string)
    requires |t| > 0 && forall k :: 0 <= k < |t| ==> !IsSpace(t[k])
    requires y == [] || IsSpace(y[0])
    ensures Words(t + y) == [t] + Words(y)
  {
    TokenEndAppend(t, y);
    assert TokenEnd(t) == |t|;
    assert (t + y)[..|t|] == t;
    assert (t + y)[|t|..] == y;
  }

  /** `s.lstrip()`: drop the leading whitespace. */
  function LStrip(s: string): (r: string)
    ensures |r| <= |s| && r == s[|s| - |r|..]
    ensures forall k :: 0 <= k < |s| - |r| ==> IsSpace(s[k])
    ensures r == [] || !IsSpace(r[0])
  {
    if s != [] && IsSpace(s[0]) then
      var r := LStrip(s[1..]);
      DropOfTail(s, |s| - 1 - |r|);
      r
    else s
  }

  /** `s.rstrip()`: drop the trailing whitespace. */
  function RStrip(s: string): (r: string)
    ensures |r| <= |s| && r == s[..|r|]
    ensures forall k :: |r| <= k < |s| ==> IsSpace(s[k])
    ensures r == [] || !IsSpace(r[|r| - 1])
  {
    if s != [] && IsSpace(s[|s| - 1]) then RStrip(s[..|s| - 1]) else s
  }

  /** `s.strip()`. */
  function Strip(s: string): string
  {
    RStrip(LStrip(s))
  }

  /** `str.strip()` keeps a slice of its argument... */
  lemma StripSlice(s: string)
    ensures |s| - |LStrip(s)| + |Strip(s)| <= |s|
    ensures Strip(s) == s[|s| - |LStrip(s)|..|s| - |LStrip(s)| + |Strip(s)|]
  {
    var l := LStrip(s);
    var r := RStrip(l);
    PrefixOfSuffix(s, l, r, |s| - |l|);
  }

  /** ... with no whitespace at either end. */
  lemma StripEnds(s: string)
    ensures Strip(s) == [] || (!IsSpace(Strip(s)[0]) && !IsSpace(Strip(s)[|Strip(s)| - 1]))
  {
    var l := LStrip(s);
    var r := RStrip(l);
    if r != [] {
      assert r[0] == l[0];
    }
  }

  lemma {:induction false} WordsLStrip(s: string)
    ensures Words(LStrip(s)) == Words(s)
  {
    if s != [] && IsSpace(s[0]) {
      WordsLStrip(s[1..]);
    }
  }

  lemma WordsRStrip(l: string)
    ensures Words(RStrip(l)) == Words(l)
  {
    var r := RStrip(l);
    var tail := l[|r|..];
    assert l == r + tail;
    forall k | 0 <= k < |tail| ensures IsSpace(tail[k]) {
      assert tail[k] == l[|r| + k];
    }
    WordsTrailingSpaces(r, tail);
  }

  /** Stripping changes no word. */
  lemma WordsStrip(s: string)
    ensures Words(Strip(s)) == Words(s)
  {
    WordsLStrip(s);
    WordsRStrip(LStrip(s));
  }

  /** `s.capitalize()` on ASCII: the first character in upper case, the rest in lower case. */
  function Capitalize(s: string): (r: string)
    ensures |r| == |s|
    ensures |s| > 0 ==> r[0] == ToUpper(s[0])
    ensures forall k :: 0 < k < |s| ==> r[k] == ToLower(s[k])
  {
    if s == [] then [] else [ToUpper(s[0])] + seq(|s| - 1, k requires 0 <= k < |s| - 1 => ToLower(s[k + 1]))
  }
}
