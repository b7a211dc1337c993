/**
  The tokenizer `get_words`: blanks everything that is not an ASCII letter,
  splits on spaces, cuts every token at its CamelCase boundaries and keeps
  the pieces that look like words (two letters or more, not an acronym).
 */
module Tokenizer {
  import opened Strings

  /** `re.sub('[^A-Za-z]', ' ', value)`: every non-letter becomes a space. */
  function Blank(value: string): (blanked: string)
  {
    seq(|value|, i requires 0 <= i < |value| => if IsLetter(value[i]) then value[i] else ' ')
  }

  /** `value_str.split(' ')` on the blanked value, empty tokens included. */
  function Tokens(value: string): (tokens: seq<string>)
  {
    Split(Blank(value), ' ')
  }

  /**
    The cut positions `m.start() + 1` of `re.finditer('[^A-Z][A-Z0-9]', w)`,
    scanning from position i: matches do not overlap, so after a match at i
    the scan resumes at i + 2.
   */
  function CamelCuts(w: string, i: nat): (r: seq<nat>)
    ensures forall k :: 0 <= k < |r| ==> i < r[k] < |w|
    ensures forall k, l :: 0 <= k < l < |r| ==> r[k] < r[l]
    decreases |w| - i
  {
    if i + 1 >= |w| then []
    else if !IsUpper(w[i]) && (IsUpper(w[i + 1]) || IsDigit(w[i + 1])) then [i + 1] + CamelCuts(w, i + 2)
    else CamelCuts(w, i + 1)
  }

  /** `split_pos`: 0, then the cuts, then `len(w)`. */
  function SplitPositions(w: string): (pos: seq<nat>)
  {
    [0] + CamelCuts(w, 0) + [|w|]
  }

  /** Positions inside w, in non-decreasing order. */
  predicate ValidPositions(w: string, pos: seq<nat>)
  {
    && (forall k :: 0 <= k < |pos| ==> pos[k] <= |w|)
    && (forall k, l :: 0 <= k <= l < |pos| ==> pos[k] <= pos[l])
  }

  predicate StrictlyIncreasing(pos: seq<nat>)
  {
    forall k, l :: 0 <= k < l < |pos| ==> pos[k] < pos[l]
  }

  lemma SplitPositionsValid(w: string)
    ensures ValidPositions(w, SplitPositions(w))
    ensures w != [] ==> StrictlyIncreasing(SplitPositions(w))
  {
    var cuts := CamelCuts(w, 0);
    var pos := SplitPositions(w);
    forall k | 0 < k < |pos| - 1
      ensures pos[k] == cuts[k - 1] && 0 < pos[k] < |w|
    {
    }
    forall k, l | 0 <= k < l < |pos|
      ensures pos[k] < pos[l] || (k == 0 && l == |pos| - 1 && w == [])
    {
      if 0 < k && l < |pos| - 1 {
        assert cuts[k - 1] < cuts[l - 1];
      }
    }
  }

  /** `[w[start:end] for start, end in zip(pos, pos[1:])]`. */
  function Slices(w: string, pos: seq<nat>): seq<string>
    requires ValidPositions(w, pos)
  {
    if |pos| < 2 then [] else [w[pos[0]..pos[1]]] + Slices(w, pos[1..])
  }

  /** The CamelCase pieces of one token. */
  function CamelPieces(w: string): seq<string>
  {
    SplitPositionsValid(w);
    Slices(w, SplitPositions(w))
  }

  /** The pieces of all non-empty tokens, left to right (tokens that are empty are skipped). */
  function CamelSplitAll(tokens: seq<string>): seq<string>
  {
    if tokens == [] then []
    else
      var t := tokens[|tokens| - 1];
      CamelSplitAll(tokens[..|tokens| - 1]) + (if t == [] then [] else CamelPieces(t))
  }

  /** Long enough to check, and not an acronym (its first two letters are not both capitals). */
  predicate IsTextWord(w: string)
  {
    |w| >= 2 && !(IsUpper(w[0]) && IsUpper(w[1]))
  }

  /** The words that pass `IsTextWord`, in order, duplicates kept. */
  function KeepTextWords(words: seq<string>): seq<string>
  {
    if words == [] then []
    else
      var w := words[|words| - 1];
      KeepTextWords(words[..|words| - 1]) + (if IsTextWord(w) then [w] else [])
  }

  /** The words `get_words(value)` returns. */
  function Words(value: string): (words: seq<string>)
  {
    KeepTextWords(CamelSplitAll(Tokens(value)))
  }

  /** `get_words`. */
  method GetWords(value: string) returns (textWords: seq<string>)
    ensures textWords == Words(value)
    ensures forall k :: 0 <= k < |textWords| ==> AllLetters(textWords[k]) && IsTextWord(textWords[k])
  {
    var valueStr := Blank(value);
    var tokens := Split(valueStr, ' ');
    var words: seq<string> := [];
    for i := 0 to |tokens|
      invariant words == CamelSplitAll(tokens[..i])
    {
      var w := tokens[i];
      assert tokens[..i + 1][..i] == tokens[..i];
      if w != [] {
        var splitPos := SplitPositions(w);
        SplitPositionsValid(w);
        words := words + Slices(w, splitPos);
      }
    }
    assert tokens[..|tokens|] == tokens;

    // Keep the pieces that pass IsTextWord.
    textWords := [];
    for j := 0 to |words|
      invariant textWords == KeepTextWords(words[..j])
    {
      var w := words[j];
      assert words[..j + 1][..j] == words[..j];
      if |w| >= 2 && !(IsUpper(w[0]) && IsUpper(w[1])) {
        textWords := textWords + [w];
      }
    }
    assert words[..|words|] == words;
    WordsAreText(value);
  }

  // ---------------------------------------------------------------------
  // CamelCase pieces.

  /** A lowercase-to-capital step at x: a capital whose predecessor is not a capital. */
  predicate StepAt(w: string, x: int)
  {
    0 < x < |w| && !IsUpper(w[x - 1]) && IsUpper(w[x])
  }

  /** The scan at i finds a match: the cut at i + 1, then the cuts from i + 2 on. */
  lemma CutAt(w: string, i: nat, x: int)
    requires AllLetters(w) && i + 1 < |w| && !IsUpper(w[i]) && IsUpper(w[i + 1])
    requires x in CamelCuts(w, i + 2) <==> i + 2 < x && StepAt(w, x)
    ensures x in CamelCuts(w, i) <==> i < x && StepAt(w, x)
  {
    assert CamelCuts(w, i) == [i + 1] + CamelCuts(w, i + 2);
    // No step at i + 2: it would follow the capital at i + 1.
    assert !StepAt(w, i + 2);
  }

  /** The scan at i finds no match: the cuts are those from i + 1 on. */
  lemma NoCutAt(w: string, i: nat, x: int)
    requires AllLetters(w) && i + 1 < |w| && !(!IsUpper(w[i]) && IsUpper(w[i + 1]))
    requires x in CamelCuts(w, i + 1) <==> i + 1 < x && StepAt(w, x)
    ensures x in CamelCuts(w, i) <==> i < x && StepAt(w, x)
  {
    assert IsLetter(w[i + 1]);
    assert CamelCuts(w, i) == CamelCuts(w, i + 1);
  }

  /**
    On a token of letters only, the digit alternative of the pattern never
    fires and a cut falls exactly at each lowercase-to-capital step.
   */
  lemma {:induction false} CamelCutsExact(w: string, i: nat, x: int)
    requires AllLetters(w)
    ensures x in CamelCuts(w, i) <==> i < x && StepAt(w, x)
    decreases |w| - i
  {
    if i + 1 < |w| {
      if !IsUpper(w[i]) && IsUpper(w[i + 1]) {
        CamelCutsExact(w, i + 2, x);
        CutAt(w, i, x);
      } else {
        CamelCutsExact(w, i + 1, x);
        NoCutAt(w, i, x);
      }
    }
  }

  /** The cut positions of a letter-only token: its ends and every lowercase-to-capital step. */
  lemma SplitPositionsExact(w: string, x: int)
    requires w != [] && AllLetters(w)
    ensures var pos := SplitPositions(w);
      x in pos[1..|pos| - 1] <==> 0 < x < |w| && !IsUpper(w[x - 1]) && IsUpper(w[x])
    ensures SplitPositions(w)[0] == 0 && SplitPositions(w)[|SplitPositions(w)| - 1] == |w|
  {
    var pos := SplitPositions(w);
    assert pos[1..|pos| - 1] == CamelCuts(w, 0);
    CamelCutsExact(w, 0, x);
  }

  /** The slices between consecutive positions glue back to the text they span. */
  lemma {:induction false} SlicesConcat(w: string, pos: seq<nat>)
    requires ValidPositions(w, pos) && |pos| >= 1
    ensures Concat(Slices(w, pos)) == w[pos[0]..pos[|pos| - 1]]
    decreases |pos|
  {
    if |pos| >= 2 {
      SlicesConcat(w, pos[1..]);
      assert w[pos[0]..pos[|pos| - 1]] == w[pos[0]..pos[1]] + w[pos[1]..pos[|pos| - 1]];
    }
  }

  /** Slices between strictly increasing positions are non-empty. */
  lemma {:induction false} SlicesNonEmpty(w: string, pos: seq<nat>, k: int)
    requires ValidPositions(w, pos) && StrictlyIncreasing(pos)
    requires 0 <= k < |Slices(w, pos)|
    ensures Slices(w, pos)[k] != []
    decreases |pos|
  {
    if k > 0 { SlicesNonEmpty(w, pos[1..], k - 1); }
  }

  /** Slices of a letter-only text are letter-only. */
  lemma {:induction false} SlicesLetters(w: string, pos: seq<nat>, k: int)
    requires ValidPositions(w, pos) && AllLetters(w)
    requires 0 <= k < |Slices(w, pos)|
    ensures AllLetters(Slices(w, pos)[k])
    decreases |pos|
  {
    if k > 0 { SlicesLetters(w, pos[1..], k - 1); }
  }

  /**
    The CamelCase pieces of a non-empty letter-only token are non-empty,
    letter-only and glue back to the token.
   */
  lemma CamelPiecesPartition(w: string)
    requires w != [] && AllLetters(w)
    ensures Concat(CamelPieces(w)) == w
    ensures forall k :: 0 <= k < |CamelPieces(w)| ==> CamelPieces(w)[k] != [] && AllLetters(CamelPieces(w)[k])
  {
    var pos := SplitPositions(w);
    SplitPositionsValid(w);
    SlicesConcat(w, pos);
    assert w[0..|w|] == w;
    forall k | 0 <= k < |CamelPieces(w)|
      ensures CamelPieces(w)[k] != [] && AllLetters(CamelPieces(w)[k])
    {
      SlicesNonEmpty(w, pos, k);
      SlicesLetters(w, pos, k);
    }
  }

  /** The k-th slice spans positions k and k + 1. */
  lemma {:induction false} SlicesAt(w: string, pos: seq<nat>, k: int)
    requires ValidPositions(w, pos) && |pos| >= 1
    ensures |Slices(w, pos)| == |pos| - 1
    ensures 0 <= k < |pos| - 1 ==> Slices(w, pos)[k] == w[pos[k]..pos[k + 1]]
    decreases |pos|
  {
    if |pos| >= 2 { SlicesAt(w, pos[1..], k - 1); }
  }

  /** Piece k begins with a capital and the piece before it ends with a non-capital. */
  predicate StartsAtCapital(p: seq<string>, k: int)
    requires 0 < k < |p|
  {
    p[k] != [] && p[k - 1] != [] && IsUpper(p[k][0]) && !IsUpper(p[k - 1][|p[k - 1]| - 1])
  }

  /** No lowercase-to-capital step inside the piece. */
  predicate NoInnerStep(piece: string)
  {
    forall j :: 0 < j < |piece| ==> IsUpper(piece[j - 1]) || !IsUpper(piece[j])
  }

  /** A piece after the first starts where the token steps from a non-capital to a capital. */
  lemma PieceStart(w: string, k: int)
    requires w != [] && AllLetters(w)
    requires 0 < k < |CamelPieces(w)|
    ensures StartsAtCapital(CamelPieces(w), k)
  {
    var pos := SplitPositions(w);
    SplitPositionsValid(w);
    SlicesAt(w, pos, k);
    SlicesAt(w, pos, k - 1);
    assert pos[k] in pos[1..|pos| - 1];
    SplitPositionsExact(w, pos[k]);
  }

  /** Inside a piece there is no step from a non-capital to a capital. */
  lemma PieceInner(w: string, k: int)
    requires w != [] && AllLetters(w)
    requires 0 <= k < |CamelPieces(w)|
    ensures NoInnerStep(CamelPieces(w)[k])
  {
    var pos := SplitPositions(w);
    var piece := CamelPieces(w)[k];
    SplitPositionsValid(w);
    SlicesAt(w, pos, k);
    forall j | 0 < j < |piece| ensures IsUpper(piece[j - 1]) || !IsUpper(piece[j]) {
      var x := pos[k] + j;
      assert piece[j - 1] == w[x - 1] && piece[j] == w[x];
      assert x !in pos[1..|pos| - 1] by {
        forall m | 1 <= m < |pos| - 1 ensures pos[m] != x {
          if m <= k { assert pos[m] <= pos[k]; } else { assert pos[k + 1] <= pos[m]; }
        }
      }
      SplitPositionsExact(w, x);
    }
  }

  /**
    Where the pieces of a letter-only token start: every piece after the
    first begins with a capital that follows a non-capital, and no piece has
    a lowercase-to-capital step inside it.
   */
  lemma CamelPieceBoundaries(w: string)
    requires w != [] && AllLetters(w)
    ensures forall k :: 0 < k < |CamelPieces(w)| ==> StartsAtCapital(CamelPieces(w), k)
    ensures forall k :: 0 <= k < |CamelPieces(w)| ==> NoInnerStep(CamelPieces(w)[k])
  {
    forall k | 0 < k < |CamelPieces(w)| ensures StartsAtCapital(CamelPieces(w), k) {
      PieceStart(w, k);
    }
    forall k | 0 <= k < |CamelPieces(w)| ensures NoInnerStep(CamelPieces(w)[k]) {
      PieceInner(w, k);
    }
  }

  lemma ExampleBlank()
    ensures Tokens("geoStateId") == ["geoStateId"]
  {
    assert Blank("geoStateId") == "geoStateId";
    SplitWithoutSeparator("geoStateId", ' ');
  }

  lemma ExampleCuts()
    ensures SplitPositions("geoStateId") == [0, 3, 8, 10]
  {
    var w := "geoStateId";
    assert CamelCuts(w, 9) == [];
    assert CamelCuts(w, 7) == [8] + CamelCuts(w, 9);
    assert CamelCuts(w, 4) == CamelCuts(w, 7);
    assert CamelCuts(w, 2) == [3] + CamelCuts(w, 4);
    assert CamelCuts(w, 0) == CamelCuts(w, 2);
  }

  lemma ExampleSlices()
    ensures CamelPieces("geoStateId") == ["geo", "State", "Id"]
  {
    var w := "geoStateId";
    var pos := SplitPositions(w);
    ExampleCuts();
    SplitPositionsValid(w);
    var pieces := CamelPieces(w);
    SlicesAt(w, pos, 0);
    SlicesAt(w, pos, 1);
    SlicesAt(w, pos, 2);
    assert pieces[0] == "geo" by {
      assert pos[0] == 0 && pos[1] == 3;
    }
    assert pieces[1] == "State" by {
      assert pos[1] == 3 && pos[2] == 8;
    }
    assert pieces[2] == "Id" by {
      assert pos[2] == 8 && pos[3] == 10;
    }
  }

  lemma ExampleKeep()
    ensures KeepTextWords(["geo", "State", "Id"]) == ["geo", "State", "Id"]
  {
    var ws := ["geo", "State", "Id"];
    assert KeepTextWords(ws[..1]) == ["geo"] by {
      assert ws[..1][..0] == [];
      assert IsTextWord("geo");
    }
    assert KeepTextWords(ws[..2]) == ["geo", "State"] by {
      assert ws[..2][..1] == ws[..1];
      assert IsTextWord("State");
    }
    assert ws[..2] == ws[..|ws| - 1];
    assert IsTextWord("Id");
  }

  /** `get_words('geoStateId')` cuts before both capitals. */
  lemma WordsOfCamelCase()
    ensures Words("geoStateId") == ["geo", "State", "Id"]
  {
    var w := "geoStateId";
    assert Tokens(w) == [w] by {
      ExampleBlank();
    }
    assert CamelSplitAll([w]) == ["geo", "State", "Id"] by {
      ExampleSlices();
      assert [w][..0] == [];
    }
    ExampleKeep();
  }

  // ---------------------------------------------------------------------
  // Properties of the words returned.

  /** Tokens hold letters only. */
  lemma TokensAreLetters(value: string, k: int)
    requires 0 <= k < |Tokens(value)|
    ensures AllLetters(Tokens(value)[k])
  {
    var t := Tokens(value)[k];
    SplitPiecesFree(Blank(value), ' ');
    forall i | 0 <= i < |t| ensures IsLetter(t[i]) {
      assert t[i] in t;
      SplitPiecesFromText(Blank(value), ' ', k, t[i]);
      assert ' ' !in t;
    }
  }

  /** Every piece of letter-only tokens is letter-only. */
  lemma {:induction false} CamelSplitAllLetters(tokens: seq<string>, k: int)
    requires forall j :: 0 <= j < |tokens| ==> AllLetters(tokens[j])
    requires 0 <= k < |CamelSplitAll(tokens)|
    ensures AllLetters(CamelSplitAll(tokens)[k])
    decreases |tokens|
  {
    var init := tokens[..|tokens| - 1];
    var t := tokens[|tokens| - 1];
    if k < |CamelSplitAll(init)| {
      CamelSplitAllLetters(init, k);
    } else {
      CamelPiecesPartition(t);
    }
  }

  /** A word survives the filter exactly when it is present and passes `IsTextWord`. */
  lemma {:induction false} KeepTextWordsMembers(words: seq<string>, w: string)
    ensures w in KeepTextWords(words) <==> w in words && IsTextWord(w)
    decreases |words|
  {
    if words != [] {
      var init := words[..|words| - 1];
      KeepTextWordsMembers(init, w);
      assert words == init + [words[|words| - 1]];
    }
  }

  /** Every word `get_words` returns is made of ASCII letters, has two or more, and is no acronym. */
  lemma WordsAreText(value: string)
    ensures forall k :: 0 <= k < |Words(value)| ==>
      AllLetters(Words(value)[k]) && |Words(value)[k]| >= 2 && !(IsUpper(Words(value)[k][0]) && IsUpper(Words(value)[k][1]))
  {
    var tokens := Tokens(value);
    var pieces := CamelSplitAll(tokens);
    forall j | 0 <= j < |tokens| ensures AllLetters(tokens[j]) {
      TokensAreLetters(value, j);
    }
    forall k | 0 <= k < |Words(value)|
      ensures AllLetters(Words(value)[k]) && IsTextWord(Words(value)[k])
    {
      var w := Words(value)[k];
      KeepTextWordsMembers(pieces, w);
      var j :| 0 <= j < |pieces| && pieces[j] == w;
      CamelSplitAllLetters(tokens, j);
    }
  }

  /** A word whose first two characters are capitals is never returned. */
  lemma AcronymsDropped(value: string, w: string)
    requires |w| >= 2 && IsUpper(w[0]) && IsUpper(w[1])
    ensures w !in Words(value)
  {
    KeepTextWordsMembers(CamelSplitAll(Tokens(value)), w);
  }

  lemma {:induction false} CamelSplitAllAppend(a: seq<string>, b: seq<string>)
    ensures CamelSplitAll(a + b) == CamelSplitAll(a) + CamelSplitAll(b)
    decreases |b|
  {
    if b != [] {
      var b' := b[..|b| - 1];
      CamelSplitAllAppend(a, b');
      assert (a + b)[..|a + b| - 1] == a + b';
      assert (a + b)[|a + b| - 1] == b[|b| - 1];
    } else {
      assert a + b == a;
    }
  }

  lemma {:induction false} KeepTextWordsAppend(a: seq<string>, b: seq<string>)
    ensures KeepTextWords(a + b) == KeepTextWords(a) + KeepTextWords(b)
    decreases |b|
  {
    if b != [] {
      var b' := b[..|b| - 1];
      KeepTextWordsAppend(a, b');
      assert (a + b)[..|a + b| - 1] == a + b';
      assert (a + b)[|a + b| - 1] == b[|b| - 1];
    } else {
      assert a + b == a;
    }
  }

  /**
    Text around a non-letter yields the words of the left part followed by
    the words of the right part: order and duplicates are kept.
   */
  lemma WordsAround(a: string, c: char, b: string)
    requires !IsLetter(c)
    ensures Words(a + [c] + b) == Words(a) + Words(b)
  {
    assert Blank(a + [c] + b) == Blank(a) + [' '] + Blank(b);
    SplitAround(Blank(a), Blank(b), ' ');
    CamelSplitAllAppend(Tokens(a), Tokens(b));
    KeepTextWordsAppend(CamelSplitAll(Tokens(a)), CamelSplitAll(Tokens(b)));
  }
}
