/** Worked cases of the tokenizer and of the edit builder on ASCII text. */
module Scenarios {
  import opened Text
  import opened Utils
  import opened Tokenizer
  import opened EditScript
  import opened EditBuilder
  import opened WordDiff

  /** The classifications Rust's `char::is_whitespace` and
      `char::is_alphanumeric` give the characters the cases below use. The
      cases hold for every table that agrees with Rust on these characters. */
  predicate RustOnAscii(u: UnicodeTables)
  {
    && u.isWhitespace(' ')
    && !u.isWhitespace('a') && !u.isWhitespace('b') && !u.isWhitespace('c') && !u.isWhitespace('x')
    && !u.isWhitespace('_') && !u.isWhitespace('+') && !u.isWhitespace('=') && !u.isWhitespace('(')
    && u.isAlphanumeric('a') && u.isAlphanumeric('b') && u.isAlphanumeric('c') && u.isAlphanumeric('x')
    && !u.isAlphanumeric('+') && !u.isAlphanumeric('=') && !u.isAlphanumeric('(')
  }

  /** Rust's two predicates on ASCII: the whitespace characters are tab, line
      feed, vertical tab, form feed, carriage return and space; the
      alphanumerics are the letters and the digits. */
  const Ascii: UnicodeTables := UnicodeTables(
    c => (9 <= c as int <= 13) || c == ' ',
    c => ('a' <= c <= 'z') || ('A' <= c <= 'Z') || ('0' <= c <= '9'))

  /** The ASCII table agrees with Rust on the characters the cases use. */
  lemma AsciiAgrees()
    ensures RustOnAscii(Ascii)
  {
  }

  /** The kinds of the characters the cases use. */
  lemma AsciiKinds(u: UnicodeTables)
    requires RustOnAscii(u)
    ensures Classifier.Kind(u, 'a') == Word && Classifier.Kind(u, 'b') == Word
    ensures Classifier.Kind(u, 'c') == Word && Classifier.Kind(u, 'x') == Word
    ensures Classifier.Kind(u, '_') == Word
    ensures Classifier.Kind(u, ' ') == Whitespace
    ensures Classifier.Kind(u, '+') == Punctuation && Classifier.Kind(u, '=') == Punctuation
    ensures Classifier.Kind(u, '(') == Punctuation
  {
  }

  /** How a two-character text splits. */
  lemma TwoChars(u: UnicodeTables, a: char, b: char)
    ensures Tokenize(u, [a, b]) == if Boundary(u, a, b) then [[a], [b]] else [[a, b]]
  {
    TokenizeSnoc(u, [a], b);
    assert [a] + [b] == [a, b];
  }

  /** A character after a boundary opens a new token. */
  lemma Opens(u: UnicodeTables, s: string, c: char, toks: seq<string>)
    requires |s| > 0 && Tokenize(u, s) == toks && Boundary(u, s[|s| - 1], c)
    ensures Tokenize(u, s + [c]) == toks + [[c]]
  {
    TokenizeSnoc(u, s, c);
  }

  /** A character with no boundary before it extends the last token. */
  lemma Extends(u: UnicodeTables, s: string, c: char, toks: seq<string>, last: string)
    requires |s| > 0 && Tokenize(u, s) == toks + [last] && !Boundary(u, s[|s| - 1], c)
    ensures Tokenize(u, s + [c]) == toks + [last + [c]]
  {
    TokenizeSnoc(u, s, c);
    assert (toks + [last])[..|toks|] == toks;
  }

  /** Three characters with a boundary between each neighbouring pair. */
  lemma ThreeTokens(u: UnicodeTables, a: char, b: char, c: char)
    requires Boundary(u, a, b) && Boundary(u, b, c)
    ensures Tokenize(u, [a, b, c]) == [[a], [b], [c]]
  {
    TwoChars(u, a, b);
    Opens(u, [a, b], c, [[a], [b]]);
    assert [a, b] + [c] == [a, b, c];
    assert [[a], [b]] + [[c]] == [[a], [b], [c]];
  }

  /** Three characters with a boundary after the first only. */
  lemma OneThenTwo(u: UnicodeTables, a: char, b: char, c: char)
    requires Boundary(u, a, b) && !Boundary(u, b, c)
    ensures Tokenize(u, [a, b, c]) == [[a], [b, c]]
  {
    TwoChars(u, a, b);
    Extends(u, [a, b], c, [[a]], [b]);
    assert [a, b] + [c] == [a, b, c] && [[a]] + [[b]] == [[a], [b]] && [b] + [c] == [b, c];
  }

  /** Three characters with a boundary before the last only. */
  lemma TwoThenOne(u: UnicodeTables, a: char, b: char, c: char)
    requires !Boundary(u, a, b) && Boundary(u, b, c)
    ensures Tokenize(u, [a, b, c]) == [[a, b], [c]]
  {
    var s := [a, b];
    var t := [s];
    TwoChars(u, a, b);
    assert Tokenize(u, s) == t;
    assert s[|s| - 1] == b;
    Opens(u, s, c, t);
    assert s + [c] == [a, b, c];
    assert t + [[c]] == [[a, b], [c]];
  }

  /** Three characters with no boundary between them. */
  lemma OneToken(u: UnicodeTables, a: char, b: char, c: char)
    requires !Boundary(u, a, b) && !Boundary(u, b, c)
    ensures Tokenize(u, [a, b, c]) == [[a, b, c]]
  {
    TwoChars(u, a, b);
    Extends(u, [a, b], c, [], [a, b]);
    assert [a, b] + [c] == [a, b, c] && [] + [[a, b]] == [[a, b]];
  }

  /** Different punctuation characters are separate tokens. */
  lemma MixedPunctuationSplits(u: UnicodeTables)
    requires RustOnAscii(u)
    ensures Tokenize(u, "a+b") == ["a", "+", "b"]
  {
    AsciiKinds(u);
    assert Boundary(u, 'a', '+') && Boundary(u, '+', 'b');
    ThreeTokens(u, 'a', '+', 'b');
  }

  /** A repeated punctuation character is one token, and so is a run of
      whitespace. */
  lemma RunsJoin(u: UnicodeTables)
    requires RustOnAscii(u)
    ensures Tokenize(u, "a==") == ["a", "=="]
    ensures Tokenize(u, "(  ") == ["(", "  "]
  {
    AsciiKinds(u);
    assert Boundary(u, 'a', '=') && !Boundary(u, '=', '=');
    OneThenTwo(u, 'a', '=', '=');
    assert Boundary(u, '(', ' ') && !Boundary(u, ' ', ' ');
    OneThenTwo(u, '(', ' ', ' ');
  }

  /** The underscore belongs to words. */
  lemma UnderscoreInWord(u: UnicodeTables)
    requires RustOnAscii(u)
    ensures Tokenize(u, "x_ ") == ["x_", " "]
  {
    AsciiKinds(u);
    assert !Boundary(u, 'x', '_') && Boundary(u, '_', ' ');
    TwoThenOne(u, 'x', '_', ' ');
  }

  /** The changes a token diff reports for replacing the last word of
      "a b" with "c". */
  const ReplaceOps: seq<Op> := [Equal("a"), Equal(" "), Delete("b"), Insert("c")]

  /** The changes are a diff of the two texts' tokens. */
  lemma ReplaceOneWordDiff(u: UnicodeTables)
    requires RustOnAscii(u)
    ensures DiffOf(Tokenize(u, "a b"), Tokenize(u, "a c"), ReplaceOps)
  {
    SpaceSeparated(u, 'b');
    SpaceSeparated(u, 'c');
    var p1: seq<Op> := [Equal("a")];
    var p2 := p1 + [Equal(" ")];
    var p3 := p2 + [Delete("b")];
    assert p1[..0] == [] && p2[..1] == p1 && p3[..2] == p2;
    assert OldTokens(p1) == ["a"] && NewTokens(p1) == ["a"];
    assert ReplaceOps == p3 + [Insert("c")] && ReplaceOps[..3] == p3;
    assert OldTokens(p2) == ["a", " "] && NewTokens(p2) == ["a", " "];
    assert OldTokens(p3) == ["a", " ", "b"] && NewTokens(p3) == ["a", " "];
  }

  /** They build a single substitution entry over the replaced word. */
  lemma ReplaceOneWordEdits(offset: nat)
    ensures Run(ReplaceOps, offset).edits == [Edit(offset + 2, offset + 3, "c")]
  {
    KeepThenReplace("a", " ", "b", "c", offset);
    assert Bytes("a") == 1 && Bytes(" ") == 1 && Bytes("b") == 1;
  }

  /** Two kept tokens followed by a deletion and an insertion: one entry,
      after the kept bytes, replacing the deleted token with the inserted one. */
  lemma KeepThenReplace(p: string, q: string, x: string, y: string, offset: nat)
    ensures
      var at := offset + Bytes(p) + Bytes(q);
      Run([Equal(p), Equal(q), Delete(x), Insert(y)], offset).edits == [Edit(at, at + Bytes(x), y)]
  {
    var ops := [Equal(p), Equal(q), Delete(x), Insert(y)];
    var at := offset + Bytes(p) + Bytes(q);
    var e := Edit(at, at + Bytes(x), []);
    FirstThree(Equal(p), Equal(q), Delete(x), Insert(y));
    KeepThenDelete(p, q, x, offset);
    InsertMergesInto([], e, y);
    OneEdit(e);
    NothingBefore(y);
  }

  lemma KeepThenDelete(p: string, q: string, x: string, offset: nat)
    ensures
      var at := offset + Bytes(p) + Bytes(q);
      Run([Equal(p), Equal(q), Delete(x)], offset) == Builder([Edit(at, at + Bytes(x), [])], at + Bytes(x))
  {
    var ops := [Equal(p), Equal(q), Delete(x)];
    var at := offset + Bytes(p) + Bytes(q);
    FirstTwo(Equal(p), Equal(q), Delete(x));
    KeepTwo(p, q, offset);
    StepDeletePush(Builder([], at), x);
    OneEdit(Edit(at, at + Bytes(x), []));
  }

  lemma FirstThree(a: Op, b: Op, c: Op, d: Op)
    ensures [a, b, c, d][..3] == [a, b, c]
  {
  }

  lemma FirstTwo(a: Op, b: Op, c: Op)
    ensures [a, b, c][..2] == [a, b]
  {
  }

  lemma OneEdit(e: Edit)
    ensures [] + [e] == [e]
  {
  }

  lemma RunAppend(ops: seq<Op>, op: Op, offset: nat)
    ensures Run(ops + [op], offset) == Step(Run(ops, offset), op)
  {
    assert (ops + [op])[..|ops|] == ops;
  }

  lemma KeepTwo(p: string, q: string, offset: nat)
    ensures Run([Equal(p), Equal(q)], offset) == Builder([], offset + Bytes(p) + Bytes(q))
  {
    RunOne(Equal(p), offset);
    RunTwo(Equal(p), Equal(q), offset);
  }

  lemma RunOne(a: Op, offset: nat)
    ensures Run([a], offset) == Step(Builder([], offset), a)
  {
    var ops := [a];
    assert ops[..0] == [];
  }

  lemma RunTwo(a: Op, b: Op, offset: nat)
    ensures Run([a, b], offset) == Step(Run([a], offset), b)
  {
    var ops := [a, b];
    assert ops[..1] == [a];
  }

  lemma SpaceSeparated(u: UnicodeTables, c: char)
    requires RustOnAscii(u) && (c == 'b' || c == 'c')
    ensures Tokenize(u, ['a', ' ', c]) == ["a", " ", [c]]
  {
    AsciiKinds(u);
    assert Boundary(u, 'a', ' ') && Boundary(u, ' ', c);
    ThreeTokens(u, 'a', ' ', c);
  }

  lemma SingleWords(u: UnicodeTables)
    requires RustOnAscii(u)
    ensures Tokenize(u, "ac") == ["ac"]
    ensures Tokenize(u, "abc") == ["abc"]
  {
    AsciiKinds(u);
    assert !Boundary(u, 'a', 'c') && !Boundary(u, 'a', 'b') && !Boundary(u, 'b', 'c');
    TwoChars(u, 'a', 'c');
    OneToken(u, 'a', 'b', 'c');
  }

  lemma OneChange(op: Op)
    ensures OldTokens([op]) == if op.Insert? then [] else [op.value]
    ensures NewTokens([op]) == if op.Delete? then [] else [op.value]
  {
    assert [op][..0] == [];
  }

  /** The only diffs of the one-token texts "ac" and "abc" delete the one
      token and insert the other, in either order. */
  lemma DiffsOfWordChange(ops: seq<Op>)
    requires DiffOf(["ac"], ["abc"], ops)
    ensures ops == [Delete("ac"), Insert("abc")] || ops == [Insert("abc"), Delete("ac")]
  {
    ChangeCountBound(ops);
    assert |ops| > 0;
    if |ops| == 1 {
      assert false;
    } else {
      var first := ops[..1];
      assert first == [ops[0]];
      OneChange(ops[0]);
      assert ops == [ops[0], ops[1]];
      if ops[1].Equal? {
        assert false;
      } else if ops[1].Delete? {
        var before := OldTokens(first);
        assert OldTokens(ops) == before + [ops[1].value];
        assert |before| == 0 && (before + [ops[1].value])[0] == ops[1].value;
        assert ops[1] == Delete("ac");
        assert NewTokens(first) == ["abc"];
        assert ops[0] == Insert("abc");
      } else {
        var before := NewTokens(first);
        assert NewTokens(ops) == before + [ops[1].value];
        assert |before| == 0 && (before + [ops[1].value])[0] == ops[1].value;
        assert ops[1] == Insert("abc");
        assert OldTokens(first) == ["ac"];
        assert ops[0] == Delete("ac");
      }
    }
  }

  /** Changing "ac" into "abc" does not come out as an insertion of "b": the
      two texts are single word tokens, so every diff of their tokens builds
      one entry replacing all of "ac" with "abc". */
  lemma WordChangeIsSubstitution(u: UnicodeTables, ops: seq<Op>, offset: nat)
    requires RustOnAscii(u)
    requires DiffOf(Tokenize(u, "ac"), Tokenize(u, "abc"), ops)
    ensures Run(ops, offset).edits == [Edit(offset, offset + 2, "abc")]
  {
    WordChangeDiffs(u, ops);
    WordChangeEdits(ops, offset);
  }

  lemma WordChangeEdits(ops: seq<Op>, offset: nat)
    requires ops == [Delete("ac"), Insert("abc")] || ops == [Insert("abc"), Delete("ac")]
    ensures Run(ops, offset).edits == [Edit(offset, offset + 2, "abc")]
  {
    EitherOrder(ops, "ac", "abc", offset);
    assert Bytes("ac") == 2;
  }

  lemma WordChangeDiffs(u: UnicodeTables, ops: seq<Op>)
    requires RustOnAscii(u)
    requires DiffOf(Tokenize(u, "ac"), Tokenize(u, "abc"), ops)
    ensures ops == [Delete("ac"), Insert("abc")] || ops == [Insert("abc"), Delete("ac")]
  {
    SingleWords(u);
    DiffsOfWordChange(ops);
  }

  /** A deletion and an insertion at the same point, in either order, make
      one entry. */
  lemma EitherOrder(ops: seq<Op>, x: string, y: string, offset: nat)
    requires ops == [Delete(x), Insert(y)] || ops == [Insert(y), Delete(x)]
    ensures Run(ops, offset).edits == [Edit(offset, offset + Bytes(x), y)]
  {
    if ops == [Delete(x), Insert(y)] {
      DeleteThenInsert(x, y, offset);
    } else {
      InsertThenDelete(x, y, offset);
    }
  }

  /** A deletion followed by an insertion opens one entry carrying the
      insertion. */
  lemma DeleteThenInsert(x: string, y: string, offset: nat)
    ensures Run([Delete(x), Insert(y)], offset).edits == [Edit(offset, offset + Bytes(x), y)]
  {
    var e := Edit(offset, offset + Bytes(x), []);
    RunOne(Delete(x), offset);
    StepDeletePush(Builder([], offset), x);
    assert [] + [e] == [e];
    RunTwo(Delete(x), Insert(y), offset);
    InsertMergesInto([], e, y);
    assert [] + y == y;
  }

  /** An insertion followed by a deletion opens one entry whose range then
      grows over the deletion. */
  lemma InsertThenDelete(x: string, y: string, offset: nat)
    ensures Run([Insert(y), Delete(x)], offset).edits == [Edit(offset, offset + Bytes(x), y)]
  {
    var b0 := Builder([], offset);
    var e := Edit(offset, offset, y);
    RunOne(Insert(y), offset);
    RunTwo(Insert(y), Delete(x), offset);
    StepPushes(b0, Insert(y));
    assert Step(b0, Insert(y)) == Builder([e], offset);
    StepDeleteMerge(Builder([e], offset), x);
    assert [e][..0] + [e.(end := offset + Bytes(x))] == [Edit(offset, offset + Bytes(x), y)];
  }
}
