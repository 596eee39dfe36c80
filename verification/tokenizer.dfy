/** The tokenizer of src/lib.rs: splits a text into maximal runs of characters
    of one kind, where a punctuation run is further limited to one repeated
    character. */
module Tokenizer {
  import opened Text
  import opened Utils

  /** The classifier `tokenize` uses: completion mode on, punctuation kept. */
  const Classifier: CharClassifier := CharClassifier.New().ForCompletion(true)

  /** True when `tokenize` closes the pending token between `prev` and `ch`:
      the kinds differ, or both are punctuation and the characters differ. */
  predicate Boundary(u: UnicodeTables, prev: char, ch: char)
  {
    var kind := Classifier.Kind(u, ch);
    kind != Classifier.Kind(u, prev) || (kind == Punctuation && ch != prev)
  }

  /** A boundary never falls between two equal characters, and it does not
      depend on which of the two characters comes first. */
  lemma BoundarySymmetric(u: UnicodeTables, a: char, b: char)
    ensures !Boundary(u, a, a)
    ensures Boundary(u, a, b) <==> Boundary(u, b, a)
  {
  }

  /** No boundary falls between two neighbouring characters of `t`. */
  predicate Cohesive(u: UnicodeTables, t: string)
  {
    forall j :: 0 < j < |t| ==> !Boundary(u, t[j - 1], t[j])
  }

  /** What a tokenization of `s` is, independently of how it is computed: the
      tokens tile `s`; there is at least one; the empty text has exactly one,
      empty, token and otherwise no token is empty; no token contains a
      boundary; and a boundary separates every two neighbouring tokens. */
  ghost predicate IsTokenization(u: UnicodeTables, s: string, toks: seq<string>)
  {
    && |toks| >= 1
    && Concat(toks) == s
    && (|s| == 0 ==> toks == [[]])
    && (|s| > 0 ==> NonEmpty(toks))
    && AllCohesive(u, toks)
    && (|s| > 0 ==> Separated(u, toks))
  }

  ghost predicate NonEmpty(toks: seq<string>)
  {
    forall i :: 0 <= i < |toks| ==> |toks[i]| > 0
  }

  ghost predicate AllCohesive(u: UnicodeTables, toks: seq<string>)
  {
    forall i :: 0 <= i < |toks| ==> Cohesive(u, toks[i])
  }

  /** Neighbouring tokens are separated by a boundary. */
  ghost predicate Separated(u: UnicodeTables, toks: seq<string>)
    requires NonEmpty(toks)
  {
    forall i :: 0 < i < |toks| ==> Boundary(u, toks[i - 1][|toks[i - 1]| - 1], toks[i][0])
  }

  /** The tokens of `s`, defined by extending the tokenization of all but the
      last character: the last character opens a new token after a boundary
      and joins the pending token otherwise. */
  function Tokenize(u: UnicodeTables, s: string): (toks: seq<string>)
    ensures |toks| >= 1
    ensures |s| == 0 <==> toks == [[]]
    ensures |s| > 0 ==> |toks[|toks| - 1]| > 0
    decreases |s|
  {
    if |s| == 0 then [[]]
    else if |s| == 1 then [s]
    else
      var t := Tokenize(u, s[..|s| - 1]);
      var c := s[|s| - 1];
      if Boundary(u, s[|s| - 2], c) then t + [[c]]
      else t[..|t| - 1] + [t[|t| - 1] + [c]]
  }

  /** How `Tokenize` extends by one character. */
  lemma TokenizeSnoc(u: UnicodeTables, s: string, c: char)
    ensures Tokenize(u, s + [c]) ==
      var t := Tokenize(u, s);
      if |s| == 0 then [[c]]
      else if Boundary(u, s[|s| - 1], c) then t + [[c]]
      else t[..|t| - 1] + [t[|t| - 1] + [c]]
  {
    var s' := s + [c];
    assert s'[..|s'| - 1] == s;
    if |s| > 0 {
      assert s'[|s'| - 2] == s[|s| - 1];
    }
  }

  /** A character after a boundary opens a new token. */
  lemma ExtendAtBoundary(u: UnicodeTables, p: string, t: seq<string>, c: char)
    requires |p| > 0 && IsTokenization(u, p, t)
    requires Boundary(u, p[|p| - 1], c)
    ensures IsTokenization(u, p + [c], t + [[c]])
  {
    var t' := t + [[c]];
    assert t'[..|t|] == t;
    assert Concat(t') == p + [c];
    ConcatLast(t);
    assert forall i :: 0 <= i < |t| ==> t'[i] == t[i];
  }

  /** A character with no boundary before it joins the pending token. */
  lemma ExtendWithin(u: UnicodeTables, p: string, t: seq<string>, c: char)
    requires |p| > 0 && IsTokenization(u, p, t)
    requires !Boundary(u, p[|p| - 1], c)
    ensures IsTokenization(u, p + [c], t[..|t| - 1] + [t[|t| - 1] + [c]])
  {
    var k := |t| - 1;
    var t' := t[..k] + [t[k] + [c]];
    assert t'[..k] == t[..k];
    assert Concat(t) == Concat(t[..k]) + t[k];
    assert Concat(t') == Concat(t[..k]) + (t[k] + [c]);
    ConcatLast(t);
    assert Cohesive(u, t[k] + [c]) by {
      forall j | 0 < j < |t[k] + [c]|
        ensures !Boundary(u, (t[k] + [c])[j - 1], (t[k] + [c])[j])
      {
        if j < |t[k]| {
          assert (t[k] + [c])[j - 1] == t[k][j - 1] && (t[k] + [c])[j] == t[k][j];
        }
      }
    }
    assert forall i :: 0 <= i < k ==> t'[i] == t[i];
    assert t'[k][0] == t[k][0];
  }

  /** `Tokenize` meets the independent definition. */
  lemma {:induction false} TokenizeCorrect(u: UnicodeTables, s: string)
    ensures IsTokenization(u, s, Tokenize(u, s))
    decreases |s|
  {
    if |s| == 1 {
      assert Concat([s]) == Concat([]) + s;
    } else if |s| > 1 {
      var p := s[..|s| - 1];
      var c := s[|s| - 1];
      assert p + [c] == s;
      TokenizeCorrect(u, p);
      CorrectSnoc(u, p, c);
    }
  }

  lemma CorrectSnoc(u: UnicodeTables, p: string, c: char)
    requires |p| > 0 && IsTokenization(u, p, Tokenize(u, p))
    ensures IsTokenization(u, p + [c], Tokenize(u, p + [c]))
  {
    TokenizeSnoc(u, p, c);
    if Boundary(u, p[|p| - 1], c) {
      ExtendAtBoundary(u, p, Tokenize(u, p), c);
    } else {
      ExtendWithin(u, p, Tokenize(u, p), c);
    }
  }

  /** Every character of a token has the kind of its first character, and a
      punctuation token repeats a single character. */
  lemma {:induction false} CohesiveUniform(u: UnicodeTables, t: string, j: nat)
    requires Cohesive(u, t) && j < |t|
    ensures Classifier.Kind(u, t[j]) == Classifier.Kind(u, t[0])
    ensures Classifier.Kind(u, t[0]) == Punctuation ==> t[j] == t[0]
  {
    if j > 0 {
      CohesiveUniform(u, t, j - 1);
    }
  }

  /** Every character of a token `Tokenize` returns has the kind of the
      token's first character, and a punctuation token repeats one character. */
  lemma TokensUniform(u: UnicodeTables, s: string, i: nat, j: nat)
    requires i < |Tokenize(u, s)| && j < |Tokenize(u, s)[i]|
    ensures Classifier.Kind(u, Tokenize(u, s)[i][j]) == Classifier.Kind(u, Tokenize(u, s)[i][0])
    ensures Classifier.Kind(u, Tokenize(u, s)[i][0]) == Punctuation ==> Tokenize(u, s)[i][j] == Tokenize(u, s)[i][0]
  {
    TokenizeCorrect(u, s);
    CohesiveUniform(u, Tokenize(u, s)[i], j);
  }

  /** A tokenization of a text is unique, so `IsTokenization` fully specifies
      `Tokenize`. */
  lemma {:induction false} TokenizationUnique(u: UnicodeTables, s: string, toks: seq<string>)
    requires IsTokenization(u, s, toks)
    ensures toks == Tokenize(u, s)
    decreases |s|
  {
    if |s| == 1 {
      SingleCharTokenization(u, s, toks);
    } else if |s| > 1 {
      var p := s[..|s| - 1];
      var c := s[|s| - 1];
      assert p + [c] == s;
      TokenizeSnoc(u, p, c);
      if |toks[|toks| - 1]| == 1 {
        DropLastToken(u, s, toks);
        TokenizationUnique(u, p, toks[..|toks| - 1]);
      } else {
        var front := ShortenLastToken(u, s, toks);
        TokenizationUnique(u, p, front);
      }
    }
  }

  lemma SingleCharTokenization(u: UnicodeTables, s: string, toks: seq<string>)
    requires |s| == 1 && IsTokenization(u, s, toks)
    ensures toks == [s]
  {
    NonEmptyConcatLength(toks);
    assert toks[..0] == [];
    assert Concat(toks) == Concat(toks[..0]) + toks[0];
    assert toks[0] == s;
  }

  /** In a tokenization whose last token is a single character, that character
      follows a boundary and the other tokens tokenize the rest of the text. */
  lemma DropLastToken(u: UnicodeTables, s: string, toks: seq<string>)
    requires |s| > 1 && IsTokenization(u, s, toks) && |toks[|toks| - 1]| == 1
    ensures IsTokenization(u, s[..|s| - 1], toks[..|toks| - 1])
    ensures Boundary(u, s[|s| - 2], s[|s| - 1])
    ensures toks == toks[..|toks| - 1] + [[s[|s| - 1]]]
  {
    var n := |s|;
    var k := |toks| - 1;
    var front := toks[..k];
    assert toks == front + [toks[k]];
    assert Concat(toks) == Concat(front) + toks[k];
    assert s[..n - 1] + [s[n - 1]] == s;
    assert k > 0;
    assert Concat(front) == s[..n - 1];
    ConcatLast(front);
    assert forall i :: 0 <= i < k ==> front[i] == toks[i];
  }

  /** In a tokenization whose last token has two or more characters, there is
      no boundary before the last character, and removing it leaves a
      tokenization of the rest of the text. */
  lemma ShortenLastToken(u: UnicodeTables, s: string, toks: seq<string>) returns (front: seq<string>)
    requires |s| > 1 && IsTokenization(u, s, toks) && |toks[|toks| - 1]| > 1
    ensures IsTokenization(u, s[..|s| - 1], front)
    ensures !Boundary(u, s[|s| - 2], s[|s| - 1])
    ensures toks == front[..|front| - 1] + [front[|front| - 1] + [s[|s| - 1]]]
  {
    var k := |toks| - 1;
    var last := toks[k];
    var shorter := last[..|last| - 1];
    front := toks[..k] + [shorter];
    assert front[..k] == toks[..k];
    ShortenedConcat(s, toks);
    SplitLastToken(toks);
    CohesivePrefix(u, last, |last| - 1);
    assert forall i :: 0 <= i < k ==> front[i] == toks[i];
    assert front[k][0] == toks[k][0];
    assert !Boundary(u, last[|last| - 2], last[|last| - 1]);
  }

  /** Dropping the last character of a text drops it from the last part. */
  lemma ShortenedConcat(s: string, toks: seq<string>)
    requires |toks| > 0 && Concat(toks) == s && |toks[|toks| - 1]| > 1
    ensures
      var k := |toks| - 1;
      var shorter := toks[k][..|toks[k]| - 1];
      && toks[k] == shorter + [s[|s| - 1]]
      && Concat(toks[..k] + [shorter]) == s[..|s| - 1]
  {
    var k := |toks| - 1;
    var last := toks[k];
    var shorter := last[..|last| - 1];
    var front := toks[..k] + [shorter];
    var c0 := Concat(toks[..k]);
    assert front[..k] == toks[..k];
    assert Concat(front) == c0 + shorter;
    SnocSplit(last);
    SnocAssoc(c0, shorter, last[|last| - 1]);
    SnocParts(c0 + shorter, last[|last| - 1]);
  }

  lemma SnocSplit(t: string)
    requires |t| > 0
    ensures t == t[..|t| - 1] + [t[|t| - 1]]
  {
  }

  lemma SnocAssoc(a: string, b: string, c: char)
    ensures a + (b + [c]) == (a + b) + [c]
  {
  }

  lemma SnocParts(a: string, c: char)
    ensures (a + [c])[..|a|] == a && (a + [c])[|a|] == c && |a + [c]| == |a| + 1
  {
  }

  lemma SplitLastToken(toks: seq<string>)
    requires |toks| > 0
    ensures toks == toks[..|toks| - 1] + [toks[|toks| - 1]]
  {
  }

  /** A prefix of a cohesive token is cohesive. */
  lemma CohesivePrefix(u: UnicodeTables, t: string, j: nat)
    requires Cohesive(u, t) && j <= |t|
    ensures Cohesive(u, t[..j])
  {
    forall i | 0 < i < j
      ensures !Boundary(u, t[..j][i - 1], t[..j][i])
    {
      assert t[..j][i - 1] == t[i - 1] && t[..j][i] == t[i];
    }
  }

  /** The last character of a concatenation whose last part is non-empty is
      the last character of that part. */
  lemma ConcatLast(parts: seq<string>)
    requires |parts| > 0 && |parts[|parts| - 1]| > 0
    ensures |Concat(parts)| > 0
    ensures Concat(parts)[|Concat(parts)| - 1] == parts[|parts| - 1][|parts[|parts| - 1]| - 1]
  {
  }

  /** Concatenating non-empty parts gives at least one character per part. */
  lemma {:induction false} NonEmptyConcatLength(parts: seq<string>)
    requires NonEmpty(parts)
    ensures |Concat(parts)| >= |parts|
  {
    if |parts| > 0 {
      NonEmptyConcatLength(parts[..|parts| - 1]);
    }
  }

  /** One iteration of the loop of `TokenizeText`, on the pending token
      `text[start..end]`. */
  lemma PendingStep(u: UnicodeTables, text: string, tokens: seq<string>, start: nat, end: nat)
    requires start <= end < |text|
    requires end == 0 ==> tokens == [] && start == 0
    requires tokens + [text[start..end]] == Tokenize(u, text[..end])
    ensures end > 0 && Boundary(u, text[end - 1], text[end]) ==>
      tokens + [text[start..end]] + [text[end..end + 1]] == Tokenize(u, text[..end + 1])
    ensures !(end > 0 && Boundary(u, text[end - 1], text[end])) ==>
      tokens + [text[start..end + 1]] == Tokenize(u, text[..end + 1])
  {
    if end > 0 && Boundary(u, text[end - 1], text[end]) {
      PendingClose(u, text, tokens, start, end);
    } else {
      PendingExtend(u, text, tokens, start, end);
    }
  }

  lemma PendingClose(u: UnicodeTables, text: string, tokens: seq<string>, start: nat, end: nat)
    requires start <= end < |text| && end > 0
    requires tokens + [text[start..end]] == Tokenize(u, text[..end])
    requires Boundary(u, text[end - 1], text[end])
    ensures tokens + [text[start..end]] + [text[end..end + 1]] == Tokenize(u, text[..end + 1])
  {
    var ch := text[end];
    assert text[..end + 1] == text[..end] + [ch];
    assert text[..end][end - 1] == text[end - 1];
    TokenizeSnoc(u, text[..end], ch);
    assert text[end..end + 1] == [ch];
  }

  lemma PendingExtend(u: UnicodeTables, text: string, tokens: seq<string>, start: nat, end: nat)
    requires start <= end < |text|
    requires end == 0 ==> tokens == [] && start == 0
    requires tokens + [text[start..end]] == Tokenize(u, text[..end])
    requires !(end > 0 && Boundary(u, text[end - 1], text[end]))
    ensures tokens + [text[start..end + 1]] == Tokenize(u, text[..end + 1])
  {
    if end == 0 {
      assert text[..1] == text[0..1];
    } else {
      PendingJoin(u, text, tokens, start, end);
    }
  }

  lemma PendingJoin(u: UnicodeTables, text: string, tokens: seq<string>, start: nat, end: nat)
    requires start <= end < |text| && end > 0
    requires tokens + [text[start..end]] == Tokenize(u, text[..end])
    requires !Boundary(u, text[end - 1], text[end])
    ensures tokens + [text[start..end + 1]] == Tokenize(u, text[..end + 1])
  {
    var ch := text[end];
    assert text[..end + 1] == text[..end] + [ch];
    assert text[..end][end - 1] == text[end - 1];
    TokenizeSnoc(u, text[..end], ch);
    ExtendPending(tokens, text[start..end], ch);
    assert text[start..end + 1] == text[start..end] + [ch];
  }

  lemma ExtendPending(tokens: seq<string>, pending: string, ch: char)
    ensures var t := tokens + [pending];
      t[..|t| - 1] + [t[|t| - 1] + [ch]] == tokens + [pending + [ch]]
  {
    var t := tokens + [pending];
    assert t[..|t| - 1] == tokens;
  }

  /** `tokenize` as the source writes it: one pass over the characters with a
      pending token start and the previous character, seeded with the first
      character so that the first iteration never closes a token; the pending
      token is pushed unconditionally after the loop. Slice bounds are kept as
      character indices where the source keeps byte offsets. */
  method TokenizeText(u: UnicodeTables, text: string) returns (tokens: seq<string>)
    ensures tokens == Tokenize(u, text)
    ensures IsTokenization(u, text, tokens)
  {
    var prevCh: Option<char> := if |text| > 0 then Some(text[0]) else None;
    tokens := [];
    var start := 0;
    var end := 0;
    while end < |text|
      invariant 0 <= start <= end <= |text|
      invariant end > 0 ==> prevCh == Some(text[end - 1])
      invariant end == 0 && |text| > 0 ==> prevCh == Some(text[0])
      invariant end == 0 ==> tokens == [] && start == 0
      invariant tokens + [text[start..end]] == Tokenize(u, text[..end])
    {
      var ch := text[end];
      PendingStep(u, text, tokens, start, end);
      var prevKind: Option<CharKind> := match prevCh case Some(p) => Some(Classifier.Kind(u, p)) case None => None;
      var kind := Classifier.Kind(u, ch);
      var closes := Some(kind) != prevKind || (kind == Punctuation && Some(ch) != prevCh);
      ClosesAtBoundary(u, text, end, prevCh, prevKind, closes);
      if closes {
        tokens := tokens + [text[start..end]];
        start := end;
      }
      end := end + 1;
      prevCh := Some(ch);
    }
    tokens := tokens + [text[start..end]];
    LoopDone(u, text, tokens, end);
  }

  /** The loop's test on `prev_ch` and its kind closes the pending token
      exactly at a boundary; the seeded first character never closes one. */
  lemma ClosesAtBoundary(u: UnicodeTables, text: string, end: nat, prevCh: Option<char>, prevKind: Option<CharKind>, closes: bool)
    requires end < |text|
    requires end > 0 ==> prevCh == Some(text[end - 1])
    requires end == 0 ==> prevCh == Some(text[0])
    requires prevKind == match prevCh case Some(p) => Some(Classifier.Kind(u, p)) case None => None
    requires closes == (Some(Classifier.Kind(u, text[end])) != prevKind || (Classifier.Kind(u, text[end]) == Punctuation && Some(text[end]) != prevCh))
    ensures closes == (end > 0 && Boundary(u, text[end - 1], text[end]))
  {
  }

  lemma LoopDone(u: UnicodeTables, text: string, tokens: seq<string>, end: nat)
    requires end == |text| && tokens == Tokenize(u, text[..end])
    ensures tokens == Tokenize(u, text)
    ensures IsTokenization(u, text, tokens)
  {
    assert text[..end] == text;
    TokenizeCorrect(u, text);
  }
}
