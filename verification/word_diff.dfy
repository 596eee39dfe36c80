/** `diff_words_pos` of src/lib.rs as a whole: both texts are tokenized, the
    token sequences are diffed, and the diff's changes are folded into edit
    entries. The patience diff of the `similar` crate is not part of this
    model: it is a parameter, and all that is assumed of it is that its
    changes list the old tokens and the new tokens in order. */
module WordDiff {
  import opened Text
  import opened Utils
  import opened Tokenizer
  import opened EditScript
  import opened EditBuilder

  /** The values of the changes that belong to the old text (Equal and
      Delete), in order. */
  function OldTokens(ops: seq<Op>): seq<string>
  {
    if |ops| == 0 then []
    else if ops[|ops| - 1].Insert? then OldTokens(ops[..|ops| - 1])
    else OldTokens(ops[..|ops| - 1]) + [ops[|ops| - 1].value]
  }

  /** The values of the changes that belong to the new text (Equal and
      Insert), in order. */
  function NewTokens(ops: seq<Op>): seq<string>
  {
    if |ops| == 0 then []
    else if ops[|ops| - 1].Delete? then NewTokens(ops[..|ops| - 1])
    else NewTokens(ops[..|ops| - 1]) + [ops[|ops| - 1].value]
  }

  /** What `iter_all_changes` yields for a diff of two token slices: one
      change per token, the old tokens read off the Equal and Delete changes
      and the new tokens off the Equal and Insert changes. */
  ghost predicate DiffOf(oldToks: seq<string>, newToks: seq<string>, ops: seq<Op>)
  {
    OldTokens(ops) == oldToks && NewTokens(ops) == newToks
  }

  /** A differ: a function from two token sequences to a list of changes. */
  type Differ = (seq<string>, seq<string>) -> seq<Op>

  /** The differ reports a diff of whatever it is given. */
  ghost predicate SoundDiffer(differ: Differ)
  {
    forall a, b :: DiffOf(a, b, differ(a, b))
  }

  lemma ConcatSnoc(parts: seq<string>, v: string)
    ensures Concat(parts + [v]) == Concat(parts) + v
  {
    assert (parts + [v])[..|parts|] == parts;
  }

  /** The old side of the changes is the concatenation of the old tokens. */
  lemma {:induction false} OldSideIsOldTokens(ops: seq<Op>)
    ensures OldSide(ops) == Concat(OldTokens(ops))
    decreases |ops|
  {
    if |ops| > 0 {
      var prefix := ops[..|ops| - 1];
      var op := ops[|ops| - 1];
      OldSideIsOldTokens(prefix);
      if op.Insert? {
        assert OldSide(ops) == OldSide(prefix) + [];
        assert OldSide(prefix) + [] == OldSide(prefix);
      } else {
        ConcatSnoc(OldTokens(prefix), op.value);
      }
    }
  }

  /** The new side of the changes is the concatenation of the new tokens. */
  lemma {:induction false} NewSideIsNewTokens(ops: seq<Op>)
    ensures NewSide(ops) == Concat(NewTokens(ops))
    decreases |ops|
  {
    if |ops| > 0 {
      var prefix := ops[..|ops| - 1];
      var op := ops[|ops| - 1];
      NewSideIsNewTokens(prefix);
      if op.Delete? {
        assert NewSide(ops) == NewSide(prefix) + [];
        assert NewSide(prefix) + [] == NewSide(prefix);
      } else {
        ConcatSnoc(NewTokens(prefix), op.value);
      }
    }
  }

  /** A diff of the two texts' tokens describes the two texts. */
  lemma DiffSides(u: UnicodeTables, text: string, altText: string, ops: seq<Op>)
    requires DiffOf(Tokenize(u, text), Tokenize(u, altText), ops)
    ensures OldSide(ops) == text && NewSide(ops) == altText
  {
    OldSideIsOldTokens(ops);
    NewSideIsNewTokens(ops);
    TokenizeCorrect(u, text);
    TokenizeCorrect(u, altText);
  }

  /** Every change contributes a token to at least one side. */
  lemma {:induction false} ChangeCountBound(ops: seq<Op>)
    ensures ChangeCount(ops) <= |OldTokens(ops)| + |NewTokens(ops)|
    ensures |ops| <= |OldTokens(ops)| + |NewTokens(ops)|
    decreases |ops|
  {
    if |ops| > 0 {
      ChangeCountBound(ops[..|ops| - 1]);
    }
  }

  /** The changes the differ reports for the two texts' tokens. */
  function DiffTokens(u: UnicodeTables, text: string, altText: string, differ: Differ): seq<Op>
  {
    differ(Tokenize(u, text), Tokenize(u, altText))
  }

  /** The edit entries that turn `text` into `altText`, their ranges in
      bytes counted from `offset`. */
  function DiffWordsPos(u: UnicodeTables, text: string, altText: string, offset: nat, differ: Differ): (edits: seq<Edit>)
    requires SoundDiffer(differ)
    ensures ApplyEdits(Utf8(text), edits, offset) == Some(Utf8(altText))
    ensures Ordered(edits, offset, offset + Bytes(text))
    ensures |edits| <= |Tokenize(u, text)| + |Tokenize(u, altText)|
  {
    BuiltEditsSound(u, text, altText, offset, DiffTokens(u, text, altText, differ));
    Run(DiffTokens(u, text, altText, differ), offset).edits
  }

  /** The entries built from any diff of the two texts' tokens rebuild the
      new text from the old one, stay in order and within the old text, and
      number at most one per token. */
  lemma BuiltEditsSound(u: UnicodeTables, text: string, altText: string, offset: nat, ops: seq<Op>)
    requires DiffOf(Tokenize(u, text), Tokenize(u, altText), ops)
    ensures ApplyEdits(Utf8(text), Run(ops, offset).edits, offset) == Some(Utf8(altText))
    ensures Ordered(Run(ops, offset).edits, offset, offset + Bytes(text))
    ensures |Run(ops, offset).edits| <= |Tokenize(u, text)| + |Tokenize(u, altText)|
  {
    DiffSides(u, text, altText, ops);
    RunOrdered(ops, offset);
    RunCursor(ops, offset);
    RunRebuildsNewSide(ops, offset);
    EditCountBound(ops, offset);
    ChangeCountBound(ops);
  }

  /** `diff_words_pos` as the source writes it: tokenize both texts, diff
      the tokens, fold the changes. */
  method ComputeDiffWordsPos(u: UnicodeTables, text: string, altText: string, offset: nat, differ: Differ)
    returns (edits: seq<Edit>)
    requires SoundDiffer(differ)
    ensures edits == DiffWordsPos(u, text, altText, offset, differ)
    ensures ApplyEdits(Utf8(text), edits, offset) == Some(Utf8(altText))
  {
    var oldTokens := TokenizeText(u, text);
    var newTokens := TokenizeText(u, altText);
    var diff := differ(oldTokens, newTokens);
    DiffSides(u, text, altText, diff);
    edits := BuildEdits(diff, offset);
  }

  /** No entries come out exactly when the differ reports only Equal
      changes. */
  lemma NoEditsIffUnchanged(u: UnicodeTables, text: string, altText: string, offset: nat, differ: Differ)
    requires SoundDiffer(differ)
    ensures
      var ops := DiffTokens(u, text, altText, differ);
      DiffWordsPos(u, text, altText, offset, differ) == [] <==> AllEqual(ops)
  {
    NoEditsIffAllEqual(DiffTokens(u, text, altText, differ), offset);
  }

  /** Moving `offset` by `k` moves every range by `k` and keeps every
      replacement. */
  lemma OffsetTranslation(u: UnicodeTables, text: string, altText: string, offset: nat, k: nat, differ: Differ)
    requires SoundDiffer(differ)
    ensures DiffWordsPos(u, text, altText, offset + k, differ) == ShiftEdits(DiffWordsPos(u, text, altText, offset, differ), k)
  {
    OffsetShift(DiffTokens(u, text, altText, differ), offset, k);
  }
}
