/**
  String helpers shared by the spell checker model: ASCII character classes,
  Python's `str.split` and `str.join`, Python's ordering of strings and the
  sorted listing of a set of words that `sorted()` produces.
 */
module Strings {

  predicate IsUpper(c: char) { 'A' <= c <= 'Z' }
  predicate IsLower(c: char) { 'a' <= c <= 'z' }
  predicate IsLetter(c: char) { IsUpper(c) || IsLower(c) }
  predicate IsDigit(c: char) { '0' <= c <= '9' }
  /** The characters a regular-expression word boundary `\b` looks at: `[A-Za-z0-9_]`. */
  predicate IsWordChar(c: char) { IsLetter(c) || IsDigit(c) || c == '_' }

  predicate AllLetters(s: string) { forall i :: 0 <= i < |s| ==> IsLetter(s[i]) }

  /** The set of elements of a sequence (Python's `set(list)`). */
  function Elems<T>(s: seq<T>): set<T> { set x | x in s }

  /** All pieces glued together, as `''.join(pieces)`. */
  function Concat(pieces: seq<string>): string
  {
    if pieces == [] then [] else pieces[0] + Concat(pieces[1..])
  }

  /** `sep.join(parts)`. */
  function Join(parts: seq<string>, sep: string): string
  {
    if parts == [] then []
    else if |parts| == 1 then parts[0]
    else parts[0] + sep + Join(parts[1..], sep)
  }

  /**
    `s.split(sep)` for a one-character separator: the text between
    consecutive separators, empty pieces included, so there is always at
    least one piece and none of them holds the separator.
   */
  function Split(s: string, sep: char): (r: seq<string>)
    ensures |r| >= 1
    decreases |s|
  {
    if s == [] then [[]] else SplitStep(s[0], Split(s[1..], sep), sep)
  }

  /** One character in front of split text: a separator opens a new piece, anything else extends the first. */
  function SplitStep(c: char, rest: seq<string>, sep: char): (r: seq<string>)
    requires |rest| >= 1
    ensures |r| >= 1
  {
    if c == sep then [[]] + rest else [[c] + rest[0]] + rest[1..]
  }

  /** Joining a head in front of at least one more part. */
  lemma JoinCons(h: string, t: seq<string>, sep: string)
    requires |t| >= 1
    ensures Join([h] + t, sep) == h + sep + Join(t, sep)
  {
    assert ([h] + t)[0] == h;
    assert ([h] + t)[1..] == t;
  }

  /** `JoinSplitStep` for a separator: it opens an empty first piece. */
  lemma JoinSplitStepSeparator(rest: seq<string>, sep: char)
    requires |rest| >= 1
    ensures Join(SplitStep(sep, rest, sep), [sep]) == [sep] + Join(rest, [sep])
  {
    assert SplitStep(sep, rest, sep) == [[]] + rest;
    JoinCons([], rest, [sep]);
  }

  /** `JoinSplitStep` for another character in front of a single piece. */
  lemma JoinSplitStepSingle(c: char, rest: seq<string>, sep: char)
    requires |rest| == 1 && c != sep
    ensures Join(SplitStep(c, rest, sep), [sep]) == [c] + Join(rest, [sep])
  {
    assert SplitStep(c, rest, sep) == [[c] + rest[0]];
  }

  /** `JoinSplitStep` for another character in front of several pieces. */
  lemma JoinSplitStepLong(c: char, rest: seq<string>, sep: char)
    requires |rest| > 1 && c != sep
    ensures Join(SplitStep(c, rest, sep), [sep]) == [c] + Join(rest, [sep])
  {
    var head, tail := rest[0], rest[1..];
    var joined := Join(tail, [sep]);
    assert SplitStep(c, rest, sep) == [[c] + head] + tail;
    JoinCons([c] + head, tail, [sep]);
    assert rest == [head] + tail;
    JoinCons(head, tail, [sep]);
    assert ([c] + head) + [sep] + joined == [c] + (head + [sep] + joined);
  }

  /** Joining after a step puts the character back in front. */
  lemma JoinSplitStep(c: char, rest: seq<string>, sep: char)
    requires |rest| >= 1
    ensures Join(SplitStep(c, rest, sep), [sep]) == [c] + Join(rest, [sep])
  {
    if c == sep {
      JoinSplitStepSeparator(rest, sep);
    } else if |rest| == 1 {
      JoinSplitStepSingle(c, rest, sep);
    } else {
      JoinSplitStepLong(c, rest, sep);
    }
  }

  /** Splitting and joining again gives back the text. */
  lemma {:induction false} JoinSplit(s: string, sep: char)
    ensures Join(Split(s, sep), [sep]) == s
    decreases |s|
  {
    if s != [] {
      JoinSplit(s[1..], sep);
      JoinSplitStep(s[0], Split(s[1..], sep), sep);
      assert s == [s[0]] + s[1..];
    }
  }

  /** No piece holds the separator. */
  lemma {:induction false} SplitPiecesFree(s: string, sep: char)
    ensures forall k :: 0 <= k < |Split(s, sep)| ==> sep !in Split(s, sep)[k]
    decreases |s|
  {
    if s != [] {
      SplitPiecesFree(s[1..], sep);
    }
  }

  /** Every character of every piece comes from the text that was split. */
  lemma {:induction false} SplitPiecesFromText(s: string, sep: char, k: int, c: char)
    requires 0 <= k < |Split(s, sep)| && c in Split(s, sep)[k]
    ensures c in s
    decreases |s|
  {
    if s != [] {
      var rest := Split(s[1..], sep);
      if s[0] == sep {
        SplitPiecesFromText(s[1..], sep, k - 1, c);
      } else if k == 0 {
        if c != s[0] {
          assert c in rest[0];
          SplitPiecesFromText(s[1..], sep, 0, c);
        }
      } else {
        SplitPiecesFromText(s[1..], sep, k, c);
      }
    }
  }

  /** A text without the separator is one piece. */
  lemma {:induction false} SplitWithoutSeparator(s: string, sep: char)
    requires sep !in s
    ensures Split(s, sep) == [s]
    decreases |s|
  {
    if s != [] {
      assert sep !in s[1..];
      SplitWithoutSeparator(s[1..], sep);
      assert [s[0]] + s[1..] == s;
    }
  }

  /** Splitting a text that starts with a character, one step of `Split`. */
  lemma SplitCons(c: char, t: string, sep: char)
    ensures Split([c] + t, sep) == SplitStep(c, Split(t, sep), sep)
  {
    assert ([c] + t)[0] == c;
    assert ([c] + t)[1..] == t;
  }

  /** A step in front of pieces followed by more pieces touches only the first ones. */
  lemma SplitStepAppend(c: char, ra: seq<string>, rb: seq<string>, sep: char)
    requires |ra| >= 1
    ensures SplitStep(c, ra + rb, sep) == SplitStep(c, ra, sep) + rb
  {
    if c != sep {
      assert (ra + rb)[0] == ra[0];
      assert (ra + rb)[1..] == ra[1..] + rb;
    }
  }

  /** A separator between two texts separates their pieces. */
  lemma {:induction false} SplitAround(a: string, b: string, sep: char)
    ensures Split(a + [sep] + b, sep) == Split(a, sep) + Split(b, sep)
    decreases |a|
  {
    if a == [] {
      assert a + [sep] + b == [sep] + b;
      SplitCons(sep, b, sep);
    } else {
      var c, t := a[0], a[1..];
      SplitAround(t, b, sep);
      assert a + [sep] + b == [c] + (t + [sep] + b);
      SplitCons(c, t + [sep] + b, sep);
      assert a == [c] + t;
      SplitCons(c, t, sep);
      SplitStepAppend(c, Split(t, sep), Split(b, sep), sep);
    }
  }

  /** Joining pieces free of the separator and splitting again gives back the pieces. */
  lemma {:induction false} SplitJoin(parts: seq<string>, sep: char)
    requires |parts| >= 1
    requires forall k :: 0 <= k < |parts| ==> sep !in parts[k]
    ensures Split(Join(parts, [sep]), sep) == parts
    decreases |parts|
  {
    SplitWithoutSeparator(parts[0], sep);
    if |parts| > 1 {
      SplitJoin(parts[1..], sep);
      assert Join(parts, [sep]) == parts[0] + [sep] + Join(parts[1..], [sep]);
      SplitAround(parts[0], Join(parts[1..], [sep]), sep);
      assert parts == [parts[0]] + parts[1..];
    }
  }

  // ---------------------------------------------------------------------
  // Python's ordering of strings: by code point, a proper prefix first.

  predicate LexLess(a: string, b: string)
    decreases |a|
  {
    if a == [] then b != []
    else if b == [] then false
    else a[0] < b[0] || (a[0] == b[0] && LexLess(a[1..], b[1..]))
  }

  lemma {:induction false} LexLessIrreflexive(a: string)
    ensures !LexLess(a, a)
    decreases |a|
  {
    if a != [] { LexLessIrreflexive(a[1..]); }
  }

  lemma {:induction false} LexLessTransitive(a: string, b: string, c: string)
    requires LexLess(a, b) && LexLess(b, c)
    ensures LexLess(a, c)
    decreases |a|
  {
    if a != [] && b != [] && c != [] && a[0] == b[0] == c[0] {
      LexLessTransitive(a[1..], b[1..], c[1..]);
    }
  }

  lemma {:induction false} LexLessTotal(a: string, b: string)
    requires a != b
    ensures LexLess(a, b) || LexLess(b, a)
    decreases |a|
  {
    if a != [] && b != [] && a[0] == b[0] {
      assert a == [a[0]] + a[1..] && b == [b[0]] + b[1..];
      LexLessTotal(a[1..], b[1..]);
    }
  }

  /** Strictly ascending, hence also free of duplicates. */
  predicate StrictlySorted(s: seq<string>)
  {
    forall i, j :: 0 <= i < j < |s| ==> LexLess(s[i], s[j])
  }

  /** The elements of a list with a head put in front. */
  lemma ElemsCons(h: string, t: seq<string>)
    ensures Elems([h] + t) == {h} + Elems(t)
  {
  }

  /** A head below every element of a sorted list keeps it sorted. */
  lemma SortedCons(h: string, t: seq<string>)
    requires StrictlySorted(t)
    requires forall y :: y in t ==> LexLess(h, y)
    ensures StrictlySorted([h] + t)
  {
    var r := [h] + t;
    forall i, j | 0 <= i < j < |r| ensures LexLess(r[i], r[j]) {
      assert r[j] == t[j - 1];
      if i > 0 {
        assert r[i] == t[i - 1];
      }
    }
  }

  /** The tail of a sorted list is sorted and above its head. */
  lemma SortedTail(s: seq<string>)
    requires StrictlySorted(s) && s != []
    ensures StrictlySorted(s[1..])
    ensures forall y :: y in s[1..] ==> LexLess(s[0], y)
  {
    forall y | y in s[1..] ensures LexLess(s[0], y) {
      var j :| 0 <= j < |s[1..]| && s[1..][j] == y;
      assert s[j + 1] == y;
    }
  }

  /** Puts a word into its place in a strictly sorted list (no-op if present). */
  function Insert(x: string, s: seq<string>): (r: seq<string>)
    requires StrictlySorted(s)
    ensures StrictlySorted(r)
    ensures Elems(r) == Elems(s) + {x}
    decreases |s|
  {
    if s == [] then [x]
    else if LexLess(x, s[0]) then
      forall y | y in s ensures LexLess(x, y) {
        var j :| 0 <= j < |s| && s[j] == y;
        if j > 0 { LexLessTransitive(x, s[0], s[j]); }
      }
      SortedCons(x, s);
      ElemsCons(x, s);
      [x] + s
    else if x == s[0] then
      assert x in Elems(s);
      s
    else
      LexLessTotal(x, s[0]);
      SortedTail(s);
      var tail := Insert(x, s[1..]);
      assert s == [s[0]] + s[1..];
      ElemsCons(s[0], s[1..]);
      ElemsCons(s[0], tail);
      forall y | y in tail ensures LexLess(s[0], y) {
        assert y in Elems(tail);
      }
      SortedCons(s[0], tail);
      [s[0]] + tail
  }

  /** The ascending listing of a finite set of words: what `sorted(words)` returns. */
  ghost function SortedOf(words: set<string>): (r: seq<string>)
    ensures StrictlySorted(r)
    ensures Elems(r) == words
    decreases words
  {
    if words == {} then []
    else
      var x :| x in words;
      Insert(x, SortedOf(words - {x}))
  }

  lemma ElemsOfNonEmpty(s: seq<string>)
    ensures |s| > 0 ==> s[0] in Elems(s)
  {
  }

  /** A strictly sorted list is determined by its elements. */
  lemma {:induction false} SortedUnique(a: seq<string>, b: seq<string>)
    requires StrictlySorted(a) && StrictlySorted(b)
    requires Elems(a) == Elems(b)
    ensures a == b
    decreases |a|
  {
    if a == [] {
      ElemsOfNonEmpty(b);
    } else {
      assert a[0] in Elems(b);
      assert b != [];
      assert b[0] in Elems(a);
      if a[0] != b[0] {
        var i :| 0 <= i < |a| && a[i] == b[0];
        var j :| 0 <= j < |b| && b[j] == a[0];
        assert LexLess(a[0], b[0]);
        assert LexLess(b[0], a[0]);
        LexLessTransitive(a[0], b[0], a[0]);
        LexLessIrreflexive(a[0]);
        assert false;
      }
      forall y | y in Elems(a[1..]) ensures y in Elems(b[1..]) {
        var i :| 1 <= i < |a| && a[i] == y;
        assert y in Elems(a);
        var j :| 0 <= j < |b| && b[j] == y;
        if j == 0 { LexLessIrreflexive(y); }
      }
      forall y | y in Elems(b[1..]) ensures y in Elems(a[1..]) {
        var j :| 1 <= j < |b| && b[j] == y;
        assert y in Elems(b);
        var i :| 0 <= i < |a| && a[i] == y;
        if i == 0 { LexLessIrreflexive(y); }
      }
      SortedUnique(a[1..], b[1..]);
      assert a == [a[0]] + a[1..] && b == [b[0]] + b[1..];
    }
  }

  /** `sorted(words)`: inserts the words one at a time into an ascending list. */
  method SortedWords(words: set<string>) returns (r: seq<string>)
    ensures StrictlySorted(r)
    ensures Elems(r) == words
    ensures r == SortedOf(words)
  {
    r := [];
    var rest := words;
    while rest != {}
      invariant StrictlySorted(r)
      invariant Elems(r) + rest == words
      decreases rest
    {
      var x :| x in rest;
      r := Insert(x, r);
      rest := rest - {x};
    }
    SortedUnique(r, SortedOf(words));
  }
}
