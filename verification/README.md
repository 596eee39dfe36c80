# zeta word diff, modelled in Dafny

zeta is an Emacs dynamic module written in Rust. Its core turns two versions
of a text into a compact edit script. The steps are:

- `tokenize` splits each text into tokens. A token is a maximal run of
  characters of one kind. Punctuation runs are further limited to one
  repeated character.
- The token sequences are diffed.
- `diff_words_pos` folds the diff's Equal / Delete / Insert changes into a
  list of entries. Each entry is a byte range in the old text plus its
  replacement. A cursor starts at a caller-supplied `offset`.
- The character kinds come from `CharClassifier`.

This project models these pieces and proves:

- the classifier's decision order;
- a complete specification of the tokenizer, and that the specification is
  unique;
- cursor bookkeeping, ordering, merging and offset translation of the edit
  builder;
- the round trip: applying the entries to the old text's UTF-8 bytes yields
  the new text's bytes.

Modules:

- `Text`: UTF-8 widths and encoding (section 3 of RFC 3629), byte lengths,
  and string concatenation.
- `Utils`: `CharKind` and `CharClassifier`, as in src/utils.rs.
- `Tokenizer`:
  - `Tokenize`, defined by prefix recursion;
  - `IsTokenization`, an independent definition of what a tokenization is;
  - `TokenizeText`, the source's loop.
- `EditScript`: entries (`Edit`), what applying them to bytes means
  (`ApplyEdits`), and the step lemmas of the round trip.
- `EditBuilder`:
  - the loop of `diff_words_pos` as a fold (`Step`, `Run`);
  - the same loop as the source writes it (`BuildEdits`, `ApplyChange`);
  - its invariants.
- `WordDiff`: `diff_words_pos` as a whole, with the differ as a parameter.
- `Scenarios`: worked cases on ASCII text.

The Unicode predicates `char::is_whitespace` and `char::is_alphanumeric` are
the two fields of a `UnicodeTables` value. Every classifier, tokenizer and
diff result holds for any such pair. `Scenarios` fixes their ASCII part.

The `similar` crate's patience diff is a parameter of type `Differ`. The only
assumption about it (`SoundDiffer`) is what `iter_all_changes` yields for
`diff_slices`:

- one change per token;
- the Equal and Delete changes list the old tokens in order;
- the Equal and Insert changes list the new tokens in order.

The builder lemmas (`RunCursor`, `RunRoundTrip`, `OffsetShift`, …) hold for every
change sequence. The token-level assumption is used only to tie the changes
to the two texts.

At word granularity, changing "ac" into "abc" is not an insertion of "b":
both texts are single word tokens, so every diff of their tokens deletes one
and inserts the other. That yields one entry replacing bytes
`offset..offset+2` with "abc" (`Scenarios.WordChangeIsSubstitution`).

Round trip: the entries are applied by descending start (`ApplyEdits`), so
that the ranges still to be applied keep their positions. The entries are
ordered and do not overlap (`Ordered`), and for such entries this is the same
as reading them left to right (`Splice`: the old bytes up to each entry, then
its replacement, then on from the entry's end), as `ApplyEditsSplices` proves.

## Model

| member | source | states |
|---|---|---|
| Utils.CharClassifier.New | src/utils.rs:19-24 | a new classifier has both flags off |
| Utils.CharClassifier.ForCompletion | src/utils.rs:26-31 | sets `for_completion` and keeps `ignore_punctuation` |
| Utils.CharClassifier.IgnorePunctuation | src/utils.rs:33-38 | sets `ignore_punctuation` and keeps `for_completion` |
| Utils.CharClassifier.KindWith | src/utils.rs:52-75 | Whitespace exactly for whitespace characters, whatever the flags; a non-whitespace alphanumeric or `_` is a Word; Punctuation exactly for the remaining characters when the override is off; with the override on, never Punctuation |
| Utils.CharClassifier.Kind | src/utils.rs:77-79 | Whitespace exactly for whitespace; Word exactly for non-whitespace that is alphanumeric, `_`, or anything when `ignore_punctuation` is set |
| Utils.KindIsKindWithConfigured | src/utils.rs:77-79 | `kind(c)` equals `kind_with(c, ignore_punctuation)` |
| Utils.CharClassifier.IsWhitespace | src/utils.rs:40-42 | holds exactly for characters the whitespace table accepts |
| Utils.CharClassifier.IsWord | src/utils.rs:44-46 | holds exactly for non-whitespace that is alphanumeric, `_`, or any character under the override |
| Utils.CharClassifier.IsPunctuation | src/utils.rs:48-50 | holds exactly for non-whitespace, non-alphanumeric characters other than `_` with the override off |
| Utils.ForCompletionInert | src/utils.rs:26-31 | changing `for_completion` never changes a classification |
| Utils.ExactlyOneKind | src/utils.rs:40-50 | exactly one of the three kind tests holds for every character |
| Text.Width | src/lib.rs:32 | `len_utf8` is 1 to 4 bytes: 1 exactly below U+0080, 4 exactly from U+10000 |
| Text.Bytes | src/lib.rs:55 | a string's byte length is between its character count and four times it, and zero only for the empty string |
| Text.BytesConcat | src/lib.rs:58 | byte lengths add up over concatenation |
| Text.Utf8 | src/lib.rs:9 | the encoding of a string has exactly its byte length |
| Text.Utf8Concat | src/lib.rs:73 | the encoding of a concatenation is the concatenation of the encodings |
| Tokenizer.Tokenize | src/lib.rs:18-37 | at least one token; exactly one empty token for empty input; the last token of non-empty input is non-empty |
| Tokenizer.Boundary | src/lib.rs:26-28 | the test that closes the pending token: the kinds of the previous and current character differ, or both are punctuation and the characters differ; its properties are stated by `BoundarySymmetric`, `TokenizeSnoc` and `TokenizeCorrect` |
| Tokenizer.BoundarySymmetric | src/lib.rs:26-28 | a boundary never falls between two equal characters, and it does not depend on the order of the two characters |
| Tokenizer.TokenizeSnoc | src/lib.rs:25-34 | one more character either opens a new token after a boundary or extends the pending token |
| Tokenizer.TokenizeCorrect | src/lib.rs:18-37 | the tokens concatenate to the input; the empty input gives one empty token, and any other input gives only non-empty tokens; no token holds a boundary; a boundary separates neighbouring tokens |
| Tokenizer.CorrectSnoc | src/lib.rs:25-34 | reading one more character keeps the result meeting the independent definition |
| Tokenizer.ExtendAtBoundary | src/lib.rs:28-31 | a tokenization followed by a character across a boundary, as a token of its own, is a tokenization of the longer text |
| Tokenizer.ExtendWithin | src/lib.rs:32-33 | a tokenization whose last token absorbs a character with no boundary before it is a tokenization of the longer text |
| Tokenizer.TokenizationUnique | src/lib.rs:18-37 | any token sequence with those properties is the one `tokenize` returns |
| Tokenizer.SingleCharTokenization | src/lib.rs:25-35 | a one-character text has no tokenization other than itself |
| Tokenizer.DropLastToken | src/lib.rs:28-31 | a last token of one character sits after a boundary, and dropping it leaves a tokenization of the shorter text |
| Tokenizer.ShortenLastToken | src/lib.rs:28-33 | a last token of several characters has no boundary before its last character, and shortening it leaves a tokenization of the shorter text |
| Tokenizer.CohesiveUniform | src/lib.rs:26-30 | a run without boundaries has one kind throughout and, if punctuation, one repeated character |
| Tokenizer.TokensUniform | src/lib.rs:26-30 | every character of a token has the token's kind, and a punctuation token repeats one character |
| Tokenizer.PendingStep | src/lib.rs:25-34 | one loop iteration keeps the pushed tokens plus the pending slice equal to the tokenization of the text read so far |
| Tokenizer.PendingClose | src/lib.rs:28-33 | at a boundary the pending slice is pushed and the character starts the next slice |
| Tokenizer.PendingJoin | src/lib.rs:32-33 | with no boundary the pending slice grows by the character |
| Tokenizer.PendingExtend | src/lib.rs:21-33 | a character that closes nothing grows the pending slice: the first one, which the seeded `prev_ch` compares with itself, or one with no boundary before it |
| Tokenizer.LoopDone | src/lib.rs:35-36 | once the whole text is read, the tokens plus the final pending slice are `Tokenize` of the text, a tokenization of it |
| Tokenizer.ClosesAtBoundary | src/lib.rs:21-28 | with `prev_ch` seeded by the first character, the loop's test closes the pending token exactly when a boundary falls before the current character |
| Tokenizer.TokenizeText | src/lib.rs:18-37 | the loop with the seeded `prev_ch` returns exactly `Tokenize`, which meets the independent definition |
| EditScript.ApplyEdit | src/lib.rs:9 | an entry applies exactly when its range lies within the bytes, and changes the length by the replacement's minus the range's |
| EditScript.ApplyEditAt | src/lib.rs:9 | an entry over a known middle part replaces exactly that part |
| EditScript.AbutsLast | src/lib.rs:59-60 | the merge test: there is a last entry and its range ends at the cursor; `OnlyLastAbuts` states that no other entry can |
| EditScript.OrderedPairwise | src/lib.rs:59-79 | any earlier entry ends strictly before any later one starts |
| EditScript.OnlyLastAbuts | src/lib.rs:59-60 | among ordered entries behind the cursor, only the last can end at the cursor, so looking only at `edits.last_mut()` loses no merge |
| EditScript.SpliceSnoc | src/lib.rs:49-82 | reading ordered entries left to right, the last entry is spliced in after everything before its start |
| EditScript.ApplyEditsSplices | src/lib.rs:49-82 | for ordered entries, applying them by descending start gives the same bytes as reading them left to right, copying the old bytes between entries and each replacement in turn |
| EditScript.RebuildsNothing | src/lib.rs:49 | no entries rebuild any bytes into themselves, whatever follows |
| EditScript.EqualRoundTrip | src/lib.rs:54-56 | bytes kept on both sides preserve the round trip |
| EditScript.DeletePushRoundTrip | src/lib.rs:63-66 | a deletion opening a new entry preserves the round trip |
| EditScript.InsertPushRoundTrip | src/lib.rs:75-78 | an insertion opening a new entry preserves the round trip |
| EditScript.DeleteMergeRoundTrip | src/lib.rs:59-61 | a deletion extending the last entry's range preserves the round trip |
| EditScript.InsertMergeRoundTrip | src/lib.rs:71-73 | an insertion appended to the last entry's replacement preserves the round trip |
| EditBuilder.StepMerges | src/lib.rs:59-61 | a change at the last entry's end grows that entry to the new cursor, appends the change's new part to its replacement, and keeps the earlier entries |
| EditBuilder.StepPushes | src/lib.rs:62-78 | any other change appends an entry from the cursor to the new cursor, replaced by the change's new part |
| EditBuilder.Step | src/lib.rs:52-80 | one iteration of the loop; what it does is stated by `StepCursor`, `StepMerges`, `StepPushes` and `StepRoundTrip` |
| EditBuilder.StepCursor | src/lib.rs:52-80 | only the old part of a change moves the cursor: Equal and Delete advance it by their byte length, Insert leaves it |
| EditBuilder.Run | src/lib.rs:49-82 | the whole loop from `Vec::new()` and `offset`, one `Step` per change; stated by `RunCursor`, `RunOrdered`, `RunRoundTrip` and `RunSplicesNewSide` |
| EditBuilder.RunCursor | src/lib.rs:50-82 | the final cursor is `offset` plus the byte length of the Equal and Delete runs; Insert never moves it |
| EditBuilder.RunOrdered | src/lib.rs:49-82 | the entries are well formed, lie in `[offset, cursor]`, and each starts strictly after the previous one ends |
| EditBuilder.StepKeepsOrdered | src/lib.rs:57-80 | one change keeps the entries ordered, non-abutting and behind the cursor |
| EditBuilder.MergeKeepsOrdered | src/lib.rs:59-73 | growing the last entry to the new cursor keeps the entries ordered |
| EditBuilder.PushKeepsOrdered | src/lib.rs:62-79 | pushing an entry from the cursor, which lies past every entry, keeps them ordered |
| EditBuilder.RunRoundTrip | src/lib.rs:49-82 | after any change sequence the entries rebuild the new side's bytes from the old side's bytes, whatever follows both |
| EditBuilder.StepRoundTrip | src/lib.rs:51-81 | one change keeps that invariant |
| EditBuilder.StepRebuilds | src/lib.rs:53-80 | each tag and each merge-or-push case extends the rebuilt bytes by the change's old and new parts |
| EditBuilder.DeletePushRebuilds | src/lib.rs:62-68 | a Delete that opens an entry extends the old bytes by the deleted bytes and leaves the new bytes |
| EditBuilder.InsertPushRebuilds | src/lib.rs:74-79 | an Insert that opens an entry leaves the old bytes and extends the new bytes by the inserted bytes |
| EditBuilder.DeleteMergeRebuilds | src/lib.rs:57-61 | a Delete that grows the last entry extends the old bytes by the deleted bytes and leaves the new bytes |
| EditBuilder.InsertMergeRebuilds | src/lib.rs:70-73 | an Insert appended to the last entry leaves the old bytes and extends the new bytes by the inserted bytes |
| EditBuilder.RunRebuildsNewSide | src/lib.rs:49-84 | applying the entries to the old side's bytes gives the new side's bytes |
| EditBuilder.RunSplicesNewSide | src/lib.rs:49-84 | reading the entries left to right over the old side's bytes also gives the new side's bytes |
| EditBuilder.BuildEdits | src/lib.rs:49-84 | the loop returns the fold's entries, ordered within the old side, and they rebuild the new side |
| EditBuilder.ApplyChange | src/lib.rs:52-80 | the loop body for one change, with the `last_mut` lookup, does what `Step` does |
| EditBuilder.StepDeleteMerge | src/lib.rs:59-61 | a Delete at the last entry's end moves that entry's end to `old_end` |
| EditBuilder.StepDeletePush | src/lib.rs:62-66 | any other Delete pushes `old_start..old_end` with an empty replacement |
| EditBuilder.RunSnoc | src/lib.rs:51 | the loop processes the changes in order, one step each |
| EditBuilder.NoEditsIffAllEqual | src/lib.rs:53-56 | no entries exactly when every change is Equal |
| EditBuilder.AllKept | src/lib.rs:54-56 | only Equal changes build no entries and move the cursor over all their bytes |
| EditBuilder.SilentPrefix | src/lib.rs:49-82 | after a prefix that builds no entries, the rest builds exactly what it builds when started at the cursor the prefix reached |
| EditBuilder.AllEqualSnoc | src/lib.rs:54 | a sequence is all Equal exactly when its prefix is and its last change is |
| EditBuilder.EditCountBound | src/lib.rs:57-79 | there are at most as many entries as Delete and Insert changes |
| EditBuilder.ShiftEdit | src/lib.rs:50 | a shifted entry moves both ends by `k` and keeps its replacement |
| EditBuilder.ShiftEdits | src/lib.rs:50 | shifting moves every entry's range by `k` and keeps every replacement |
| EditBuilder.ShiftSnoc | src/lib.rs:50 | shifting distributes over appending an entry |
| EditBuilder.ShiftStep | src/lib.rs:50-80 | one change commutes with shifting the state by `k` |
| EditBuilder.ShiftPush | src/lib.rs:62-78 | a pushed entry commutes with shifting |
| EditBuilder.ShiftMerge | src/lib.rs:59-73 | a merged entry commutes with shifting |
| EditBuilder.OffsetShift | src/lib.rs:50-56 | starting at `offset + k` moves every range by exactly `k`, keeps the replacements, and ends the cursor `k` later |
| EditBuilder.DeleteThenInsertIsSubstitution | src/lib.rs:57-76 | a Delete then an Insert at a point no entry ends at become one entry replacing the deleted bytes with the inserted text |
| EditBuilder.InsertAfterPush | src/lib.rs:70-73 | an Insert right after a fresh deletion entry becomes that entry's replacement |
| EditBuilder.InsertMergesInto | src/lib.rs:71-73 | an Insert at an entry's end appends to that entry's replacement |
| EditBuilder.InsertionsConcatenate | src/lib.rs:70-79 | consecutive Inserts at one point concatenate into one entry |
| WordDiff.ConcatSnoc | src/lib.rs:41-42 | concatenating one more token appends it |
| WordDiff.OldSideIsOldTokens | src/lib.rs:41-47 | the Equal and Delete runs concatenate to the concatenated old tokens |
| WordDiff.NewSideIsNewTokens | src/lib.rs:41-47 | the Equal and Insert runs concatenate to the concatenated new tokens |
| WordDiff.DiffSides | src/lib.rs:39-47 | a diff of the two texts' tokens describes exactly the two texts |
| WordDiff.ChangeCountBound | src/lib.rs:45-51 | a diff has at most one change per token of either side |
| WordDiff.DiffWordsPos | src/lib.rs:39-85 | the entries turn the old text's bytes into the new text's bytes, lie ordered within `[offset, offset + len(text)]`, and number at most the two token counts together |
| WordDiff.BuiltEditsSound | src/lib.rs:39-85 | the same for any diff of the two texts' tokens |
| WordDiff.ComputeDiffWordsPos | src/lib.rs:39-85 | tokenizing, diffing and running the loop gives `DiffWordsPos`, which rebuilds the new text |
| WordDiff.NoEditsIffUnchanged | src/lib.rs:49-56 | no entries exactly when the differ reports only Equal changes |
| WordDiff.OffsetTranslation | src/lib.rs:39-50 | moving `offset` by `k` moves every range by `k` and keeps every replacement |
| Scenarios.AsciiAgrees | src/utils.rs:53-55 | the ASCII tables answer `is_whitespace` and `is_alphanumeric` on the characters used below as Rust does |
| Scenarios.AsciiKinds | src/utils.rs:52-75 | "a", "b", "c", "x" and "_" are Word, " " is Whitespace, "+", "=" and "(" are Punctuation |
| Scenarios.TwoChars | src/lib.rs:25-35 | two characters are two tokens exactly when a boundary separates them, else one |
| Scenarios.Opens | src/lib.rs:28-31 | a character across a boundary is pushed as a token of its own |
| Scenarios.Extends | src/lib.rs:32-33 | a character with no boundary before it joins the last token |
| Scenarios.ThreeTokens | src/lib.rs:25-35 | three characters with boundaries between them are three tokens |
| Scenarios.OneThenTwo | src/lib.rs:25-35 | a boundary after the first character only gives one token then two characters |
| Scenarios.TwoThenOne | src/lib.rs:25-35 | a boundary before the last character only gives two characters then one |
| Scenarios.OneToken | src/lib.rs:25-35 | three characters with no boundary are one token |
| Scenarios.MixedPunctuationSplits | src/lib.rs:28-31 | "a+b" gives "a", "+", "b" |
| Scenarios.RunsJoin | src/lib.rs:28-31 | "a==" gives "a", "==" and "(  " gives "(", "  ": a repeated punctuation character and a whitespace run are one token each |
| Scenarios.UnderscoreInWord | src/utils.rs:53-56 | "x_ " gives "x_", " " |
| Scenarios.SpaceSeparated | src/lib.rs:28-31 | "a b" and "a c" give a word, a space and a word |
| Scenarios.SingleWords | src/lib.rs:28-31 | "ac" and "abc" are one token each |
| Scenarios.ReplaceOneWordDiff | src/lib.rs:41-47 | Equal "a", Equal " ", Delete "b", Insert "c" is a diff of the tokens of "a b" and "a c" |
| Scenarios.KeepThenDelete | src/lib.rs:54-68 | two Equal changes then a Delete leave one entry after the kept bytes, over the deleted bytes, with an empty replacement |
| Scenarios.KeepThenReplace | src/lib.rs:54-76 | two Equal changes, a Delete and an Insert build one entry after the kept bytes replacing the deleted bytes with the inserted text |
| Scenarios.ReplaceOneWordEdits | src/lib.rs:49-84 | those changes build the single entry `offset+2..offset+3` replaced by "c" |
| Scenarios.OneChange | src/lib.rs:51-52 | a single change contributes its value to the old side, the new side, or both, by its tag |
| Scenarios.DiffsOfWordChange | src/lib.rs:45-47 | the only diffs of "ac" and "abc" as tokens are Delete then Insert and Insert then Delete |
| Scenarios.WordChangeDiffs | src/lib.rs:41-47 | the same for the tokens `tokenize` gives for "ac" and "abc" |
| Scenarios.DeleteThenInsert | src/lib.rs:57-76 | a Delete then an Insert at `offset` build one entry over the deleted bytes replaced by the inserted text |
| Scenarios.InsertThenDelete | src/lib.rs:57-79 | an Insert then a Delete build the same entry: the Delete grows the range of the Insert's entry |
| Scenarios.EitherOrder | src/lib.rs:57-79 | in either order the two changes build that one entry |
| Scenarios.WordChangeEdits | src/lib.rs:57-79 | Delete "ac" and Insert "abc", in either order, build one entry `offset..offset+2` replaced by "abc" |
| Scenarios.WordChangeIsSubstitution | src/lib.rs:39-85 | every diff of the tokens of "ac" and "abc" builds one entry replacing `offset..offset+2` with "abc" |

## Left out

- The `similar` crate's patience diff (src/lib.rs:45-47) is foreign code. It is the parameter `differ`, constrained only by `SoundDiffer`. Properties that depend on which diff it picks are not stated. One example is that identical texts give no entries. `NoEditsIffUnchanged` states this conditionally on all-Equal changes.
- Emacs glue: the module `init` (src/lib.rs:13-16), the `diff_words` defun and its `env.message` call (src/lib.rs:87-92), and the `diff_data_*` accessors (src/lib.rs:94-112). This is host-boundary plumbing and plain indexed reads.
- The Unicode tables behind `char::is_whitespace` and `char::is_alphanumeric` are not modelled. Every result takes them as a parameter.
- The commented-out scope-aware word characters (src/utils.rs:59-68) are dead code.
- The test at src/lib.rs:114-146 prints and asserts nothing.
- Machine integers are not modelled. `offset` is a `u64` cast to `usize`, and the cursor is `usize`. Both are unbounded naturals here, so wrap-around or truncation on overflow is outside the model.
- `TokenizeText` slices by character index where the source slices by byte offset (`end += ch.len_utf8()`). The two agree, because a character index maps to the byte offset `Bytes` of the prefix.
- `DiffWordsPos` is a function of the whole tokenization. The source tokenizes through `TokenizeText`; `ComputeDiffWordsPos` shows that the two give the same result.
