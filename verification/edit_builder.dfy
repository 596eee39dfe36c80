/** The edit-building loop of `diff_words_pos` in src/lib.rs: it folds the
    tagged operations of a token diff into a compacted list of
    (byte range in the old text, replacement) entries, keeping a cursor into
    the old text that starts at a caller-supplied offset. */
module EditBuilder {
  import opened Text
  import opened EditScript

  /** One change reported by the differ: a run of text kept, removed from the
      old text, or added from the new text. */
  datatype Op = Equal(value: string) | Delete(value: string) | Insert(value: string)

  /** The state of the loop: the entries emitted so far and the cursor. */
  datatype Builder = Builder(edits: seq<Edit>, cursor: nat)

  /** The part of the old text an operation covers. */
  function OldPart(op: Op): string
  {
    match op
    case Equal(v) => v
    case Delete(v) => v
    case Insert(_) => []
  }

  /** The part of the new text an operation covers. */
  function NewPart(op: Op): string
  {
    match op
    case Equal(v) => v
    case Delete(_) => []
    case Insert(v) => v
  }

  /** The old text the operations describe: their Equal and Delete runs, in order. */
  function OldSide(ops: seq<Op>): string
  {
    if |ops| == 0 then [] else OldSide(ops[..|ops| - 1]) + OldPart(ops[|ops| - 1])
  }

  /** The new text the operations describe: their Equal and Insert runs, in order. */
  function NewSide(ops: seq<Op>): string
  {
    if |ops| == 0 then [] else NewSide(ops[..|ops| - 1]) + NewPart(ops[|ops| - 1])
  }

  /** One iteration of the loop over the diff's changes. */
  function Step(b: Builder, op: Op): (b': Builder)
  {
    match op
    case Equal(v) =>
      Builder(b.edits, b.cursor + Bytes(v))
    case Delete(v) =>
      var oldEnd := b.cursor + Bytes(v);
      if AbutsLast(b.edits, b.cursor) then
        var last := b.edits[|b.edits| - 1];
        Builder(b.edits[..|b.edits| - 1] + [last.(end := oldEnd)], oldEnd)
      else
        Builder(b.edits + [Edit(b.cursor, oldEnd, [])], oldEnd)
    case Insert(v) =>
      if AbutsLast(b.edits, b.cursor) then
        var last := b.edits[|b.edits| - 1];
        Builder(b.edits[..|b.edits| - 1] + [last.(text := last.text + v)], b.cursor)
      else
        Builder(b.edits + [Edit(b.cursor, b.cursor, v)], b.cursor)
  }

  /** A change that starts where the last entry ends is merged into it: the
      entry's range grows by the change's old part and its replacement by the
      change's new part, and the earlier entries stay as they are. */
  lemma StepMerges(b: Builder, op: Op)
    requires !op.Equal? && AbutsLast(b.edits, b.cursor)
    ensures
      var n := |b.edits|;
      var last := b.edits[n - 1];
      Step(b, op).edits == b.edits[..n - 1] + [Edit(last.start, Step(b, op).cursor, last.text + NewPart(op))]
  {
    assert b.edits[|b.edits| - 1].text + [] == b.edits[|b.edits| - 1].text;
  }

  /** Any other change opens a new entry from the cursor over its old part,
      replaced by its new part. */
  lemma StepPushes(b: Builder, op: Op)
    requires !op.Equal? && !AbutsLast(b.edits, b.cursor)
    ensures Step(b, op).edits == b.edits + [Edit(b.cursor, Step(b, op).cursor, NewPart(op))]
  {
  }

  /** Only the old part of a change moves the cursor: an insertion leaves it
      where it is. */
  lemma StepCursor(b: Builder, op: Op)
    ensures Step(b, op).cursor == b.cursor + Bytes(OldPart(op))
  {
  }

  /** The loop run over all of `ops` from a cursor at `offset`. */
  function Run(ops: seq<Op>, offset: nat): (b: Builder)
    decreases |ops|
  {
    if |ops| == 0 then Builder([], offset)
    else Step(Run(ops[..|ops| - 1], offset), ops[|ops| - 1])
  }

  /** The cursor ends past the old side of all the operations. */
  lemma {:induction false} RunCursor(ops: seq<Op>, offset: nat)
    ensures Run(ops, offset).cursor == offset + Bytes(OldSide(ops))
    decreases |ops|
  {
    if |ops| > 0 {
      var prefix := ops[..|ops| - 1];
      RunCursor(prefix, offset);
      BytesConcat(OldSide(prefix), OldPart(ops[|ops| - 1]));
    }
  }

  /** `Step` keeps the entries ordered and within the cursor's reach. */
  lemma StepKeepsOrdered(b: Builder, op: Op, lo: nat)
    requires Ordered(b.edits, lo, b.cursor) && lo <= b.cursor
    ensures Ordered(Step(b, op).edits, lo, Step(b, op).cursor)
  {
    if !op.Equal? {
      if AbutsLast(b.edits, b.cursor) {
        MergeKeepsOrdered(b, op, lo);
      } else {
        PushKeepsOrdered(b, op, lo);
      }
    }
  }

  lemma MergeKeepsOrdered(b: Builder, op: Op, lo: nat)
    requires Ordered(b.edits, lo, b.cursor) && lo <= b.cursor
    requires !op.Equal? && AbutsLast(b.edits, b.cursor)
    ensures Ordered(Step(b, op).edits, lo, Step(b, op).cursor)
  {
    var n := |b.edits|;
    StepMerges(b, op);
    assert forall i :: 0 <= i < n - 1 ==> Step(b, op).edits[i] == b.edits[i];
  }

  lemma PushKeepsOrdered(b: Builder, op: Op, lo: nat)
    requires Ordered(b.edits, lo, b.cursor) && lo <= b.cursor
    requires !op.Equal? && !AbutsLast(b.edits, b.cursor)
    ensures Ordered(Step(b, op).edits, lo, Step(b, op).cursor)
  {
    var n := |b.edits|;
    StepPushes(b, op);
    assert forall i :: 0 <= i < n ==> Step(b, op).edits[i] == b.edits[i];
  }

  /** The entries the loop builds are ordered and lie between the offset and
      the cursor. */
  lemma {:induction false} RunOrdered(ops: seq<Op>, offset: nat)
    ensures Ordered(Run(ops, offset).edits, offset, Run(ops, offset).cursor)
    decreases |ops|
  {
    if |ops| > 0 {
      var prefix := ops[..|ops| - 1];
      RunOrdered(prefix, offset);
      RunCursor(prefix, offset);
      StepKeepsOrdered(Run(prefix, offset), ops[|ops| - 1], offset);
    }
  }

  /** The entries turn the old side's bytes into the new side's bytes, and
      keep doing so whatever follows. */
  ghost predicate RoundTripInvariant(ops: seq<Op>, offset: nat)
  {
    Rebuilds(Run(ops, offset).edits, offset, Utf8(OldSide(ops)), Utf8(NewSide(ops)))
  }

  /** Every op sequence keeps the round-trip invariant. */
  lemma {:induction false} RunRoundTrip(ops: seq<Op>, offset: nat)
    ensures RoundTripInvariant(ops, offset)
    decreases |ops|
  {
    if |ops| == 0 {
      RebuildsNothing(offset, []);
    } else {
      RunRoundTrip(ops[..|ops| - 1], offset);
      StepRoundTrip(ops, offset);
    }
  }

  /** One step keeps the round-trip invariant. */
  lemma StepRoundTrip(ops: seq<Op>, offset: nat)
    requires |ops| > 0
    requires RoundTripInvariant(ops[..|ops| - 1], offset)
    ensures RoundTripInvariant(ops, offset)
  {
    var prefix := ops[..|ops| - 1];
    var op := ops[|ops| - 1];
    var b := Run(prefix, offset);
    assert Run(ops, offset) == Step(b, op);
    RunOrdered(prefix, offset);
    RunCursor(prefix, offset);
    Utf8Concat(OldSide(prefix), OldPart(op));
    Utf8Concat(NewSide(prefix), NewPart(op));
    StepRebuilds(b, op, offset, Utf8(OldSide(prefix)), Utf8(NewSide(prefix)));
  }

  /** `Step` extends what the entries rebuild by the operation's two parts. */
  lemma StepRebuilds(b: Builder, op: Op, offset: nat, A: seq<uint8>, N: seq<uint8>)
    requires Rebuilds(b.edits, offset, A, N)
    requires b.cursor == offset + |A|
    requires Ordered(b.edits, offset, b.cursor)
    ensures Rebuilds(Step(b, op).edits, offset, A + Utf8(OldPart(op)), N + Utf8(NewPart(op)))
  {
    match op
    case Equal(v) =>
      EqualRoundTrip(b.edits, offset, A, N, Utf8(v));
    case Delete(v) =>
      if AbutsLast(b.edits, b.cursor) {
        LastWithin(b.edits, offset, b.cursor);
        DeleteMergeRebuilds(b, v, offset, A, N);
      } else {
        DeletePushRebuilds(b, v, offset, A, N);
      }
      assert N + Utf8([]) == N;
    case Insert(v) =>
      if AbutsLast(b.edits, b.cursor) {
        LastWithin(b.edits, offset, b.cursor);
        InsertMergeRebuilds(b, v, offset, A, N);
      } else {
        InsertPushRebuilds(b, v, offset, A, N);
      }
      assert A + Utf8([]) == A;
  }

  lemma DeletePushRebuilds(b: Builder, v: string, offset: nat, A: seq<uint8>, N: seq<uint8>)
    requires Rebuilds(b.edits, offset, A, N)
    requires b.cursor == offset + |A|
    requires !AbutsLast(b.edits, b.cursor)
    ensures Rebuilds(Step(b, Delete(v)).edits, offset, A + Utf8(v), N)
  {
    StepDeletePush(b, v);
    DeletePushRoundTrip(b.edits, offset, A, N, Utf8(v));
  }

  lemma InsertPushRebuilds(b: Builder, v: string, offset: nat, A: seq<uint8>, N: seq<uint8>)
    requires Rebuilds(b.edits, offset, A, N)
    requires b.cursor == offset + |A|
    requires !AbutsLast(b.edits, b.cursor)
    ensures Rebuilds(Step(b, Insert(v)).edits, offset, A, N + Utf8(v))
  {
    StepPushes(b, Insert(v));
    InsertPushRoundTrip(b.edits, offset, A, N, v);
  }

  lemma DeleteMergeRebuilds(b: Builder, v: string, offset: nat, A: seq<uint8>, N: seq<uint8>)
    requires Rebuilds(b.edits, offset, A, N)
    requires b.cursor == offset + |A|
    requires AbutsLast(b.edits, b.cursor) && offset <= b.edits[|b.edits| - 1].start <= b.cursor
    ensures Rebuilds(Step(b, Delete(v)).edits, offset, A + Utf8(v), N)
  {
    var pre := b.edits[..|b.edits| - 1];
    var last := b.edits[|b.edits| - 1];
    var x := A[..last.start - offset];
    var m := A[last.start - offset..];
    SplitBytes(A, last.start - offset);
    SplitLast(b.edits);
    StepDeleteMerge(b, v);
    assert Step(b, Delete(v)).edits == pre + [last.(end := last.end + |Utf8(v)|)];
    DeleteMergeRoundTrip(pre, last, offset, x, m, N, Utf8(v));
  }

  lemma InsertMergeRebuilds(b: Builder, v: string, offset: nat, A: seq<uint8>, N: seq<uint8>)
    requires Rebuilds(b.edits, offset, A, N)
    requires b.cursor == offset + |A|
    requires AbutsLast(b.edits, b.cursor) && offset <= b.edits[|b.edits| - 1].start <= b.cursor
    ensures Rebuilds(Step(b, Insert(v)).edits, offset, A, N + Utf8(v))
  {
    var pre := b.edits[..|b.edits| - 1];
    var last := b.edits[|b.edits| - 1];
    var x := A[..last.start - offset];
    var m := A[last.start - offset..];
    SplitBytes(A, last.start - offset);
    SplitLast(b.edits);
    assert Step(b, Insert(v)).edits == pre + [last.(text := last.text + v)];
    InsertMergeRoundTrip(pre, last, offset, x, m, N, v);
  }

  lemma LastWithin(edits: seq<Edit>, lo: nat, hi: nat)
    requires Ordered(edits, lo, hi) && |edits| > 0
    ensures lo <= edits[|edits| - 1].start <= hi
  {
  }

  lemma SplitBytes(A: seq<uint8>, k: nat)
    requires k <= |A|
    ensures A == A[..k] + A[k..]
  {
  }

  lemma SplitLast(edits: seq<Edit>)
    requires |edits| > 0
    ensures edits == edits[..|edits| - 1] + [edits[|edits| - 1]]
  {
  }

  /** `diff_words_pos`'s loop as the source writes it: the cursor `oldStart`
      and the entries, updated once per change. */
  method BuildEdits(diff: seq<Op>, offset: nat) returns (edits: seq<Edit>)
    ensures edits == Run(diff, offset).edits
    ensures Ordered(edits, offset, offset + Bytes(OldSide(diff)))
    ensures ApplyEdits(Utf8(OldSide(diff)), edits, offset) == Some(Utf8(NewSide(diff)))
  {
    edits := [];
    var oldStart := offset;
    for i := 0 to |diff|
      invariant Builder(edits, oldStart) == Run(diff[..i], offset)
    {
      RunSnoc(diff, i, offset);
      edits, oldStart := ApplyChange(edits, oldStart, diff[i]);
    }
    assert diff[..|diff|] == diff;
    RunOrdered(diff, offset);
    RunCursor(diff, offset);
    RunRebuildsNewSide(diff, offset);
  }

  /** Applying the entries to the old side's bytes yields the new side's
      bytes. */
  lemma RunRebuildsNewSide(ops: seq<Op>, offset: nat)
    ensures ApplyEdits(Utf8(OldSide(ops)), Run(ops, offset).edits, offset) == Some(Utf8(NewSide(ops)))
  {
    RunRoundTrip(ops, offset);
    UseRebuilds(Run(ops, offset).edits, offset, Utf8(OldSide(ops)), Utf8(NewSide(ops)), []);
    assert Utf8(OldSide(ops)) + [] == Utf8(OldSide(ops));
    assert Utf8(NewSide(ops)) + [] == Utf8(NewSide(ops));
  }

  /** The entries read left to right, copying the old bytes between them and
      then each replacement, also give the new side. */
  lemma RunSplicesNewSide(ops: seq<Op>, offset: nat)
    ensures Splice(Utf8(OldSide(ops)), Run(ops, offset).edits, offset) == Utf8(NewSide(ops))
  {
    RunOrdered(ops, offset);
    RunCursor(ops, offset);
    RunRebuildsNewSide(ops, offset);
    ApplyEditsSplices(Utf8(OldSide(ops)), Run(ops, offset).edits, offset, []);
    assert Utf8(OldSide(ops)) + [] == Utf8(OldSide(ops));
  }

  /** The body of the loop for one change, the last entry reached through
      `last_mut`: a change that starts where the last entry ends is merged into
      it, any other change opens a new entry. */
  method ApplyChange(edits: seq<Edit>, oldStart: nat, change: Op) returns (edits': seq<Edit>, oldStart': nat)
    ensures Builder(edits', oldStart') == Step(Builder(edits, oldStart), change)
  {
    edits', oldStart' := edits, oldStart;
    ghost var prev := Builder(edits, oldStart);
    match change {
      case Equal(value) =>
        oldStart' := oldStart + Bytes(value);
      case Delete(value) =>
        var oldEnd := oldStart + Bytes(value);
        if |edits| > 0 {
          var last := edits[|edits| - 1];
          if last.end == oldStart {
            StepDeleteMerge(prev, value);
            edits' := edits[..|edits| - 1] + [last.(end := oldEnd)];
          } else {
            StepDeletePush(prev, value);
            edits' := edits + [Edit(oldStart, oldEnd, [])];
          }
        } else {
          StepDeletePush(prev, value);
          edits' := edits + [Edit(oldStart, oldEnd, [])];
        }
        oldStart' := oldEnd;
      case Insert(value) =>
        if |edits| > 0 {
          var last := edits[|edits| - 1];
          if last.end == oldStart {
            edits' := edits[..|edits| - 1] + [last.(text := last.text + value)];
          } else {
            edits' := edits + [Edit(oldStart, oldStart, value)];
          }
        } else {
          edits' := edits + [Edit(oldStart, oldStart, value)];
        }
    }
  }

  lemma StepDeleteMerge(b: Builder, v: string)
    requires AbutsLast(b.edits, b.cursor)
    ensures
      var n := |b.edits|;
      Step(b, Delete(v)) == Builder(b.edits[..n - 1] + [b.edits[n - 1].(end := b.cursor + Bytes(v))], b.cursor + Bytes(v))
  {
  }

  lemma StepDeletePush(b: Builder, v: string)
    requires !AbutsLast(b.edits, b.cursor)
    ensures Step(b, Delete(v)) == Builder(b.edits + [Edit(b.cursor, b.cursor + Bytes(v), [])], b.cursor + Bytes(v))
  {
  }

  lemma RunSnoc(ops: seq<Op>, i: nat, offset: nat)
    requires i < |ops|
    ensures Run(ops[..i + 1], offset) == Step(Run(ops[..i], offset), ops[i])
  {
    assert ops[..i + 1][..i] == ops[..i];
  }

  /** The builder emits nothing exactly when every change is `Equal`. */
  lemma {:induction false} NoEditsIffAllEqual(ops: seq<Op>, offset: nat)
    ensures Run(ops, offset).edits == [] <==> AllEqual(ops)
    decreases |ops|
  {
    if |ops| > 0 {
      var prefix := ops[..|ops| - 1];
      var op := ops[|ops| - 1];
      NoEditsIffAllEqual(prefix, offset);
      assert Run(ops, offset) == Step(Run(prefix, offset), op);
      AllEqualSnoc(ops);
      if !op.Equal? {
        assert |Run(ops, offset).edits| > 0;
      }
    }
  }

  /** Only kept text builds no entries and moves the cursor over all of it. */
  lemma AllKept(ops: seq<Op>, offset: nat)
    requires AllEqual(ops)
    ensures Run(ops, offset).edits == []
    ensures Run(ops, offset).cursor == offset + Bytes(OldSide(ops))
  {
    NoEditsIffAllEqual(ops, offset);
    RunCursor(ops, offset);
  }

  /** A prefix that builds no entries hands its cursor on to what follows. */
  lemma {:induction false} SilentPrefix(pre: seq<Op>, rest: seq<Op>, offset: nat)
    requires Run(pre, offset).edits == []
    ensures Run(pre + rest, offset) == Run(rest, Run(pre, offset).cursor)
    decreases |rest|
  {
    if |rest| == 0 {
      NothingAppended(pre);
    } else {
      var r := rest[..|rest| - 1];
      var op := rest[|rest| - 1];
      SilentPrefix(pre, r, offset);
      SplitOffLast(pre, rest);
      SameStep(pre + r, r, op, offset, Run(pre, offset).cursor);
    }
  }

  /** Runs that agree agree after one more common change. */
  lemma SameStep(a: seq<Op>, b: seq<Op>, op: Op, o1: nat, o2: nat)
    requires Run(a, o1) == Run(b, o2)
    ensures Run(a + [op], o1) == Run(b + [op], o2)
  {
    assert (a + [op])[..|a|] == a;
    assert (b + [op])[..|b|] == b;
  }

  lemma SplitOffLast(pre: seq<Op>, rest: seq<Op>)
    requires |rest| > 0
    ensures rest == rest[..|rest| - 1] + [rest[|rest| - 1]]
    ensures pre + rest == pre + rest[..|rest| - 1] + [rest[|rest| - 1]]
  {
  }

  lemma NothingAppended(ops: seq<Op>)
    ensures ops + [] == ops
  {
  }

  /** Every change is `Equal`. */
  predicate AllEqual(ops: seq<Op>)
  {
    forall i :: 0 <= i < |ops| ==> ops[i].Equal?
  }

  lemma AllEqualSnoc(ops: seq<Op>)
    requires |ops| > 0
    ensures AllEqual(ops) <==> AllEqual(ops[..|ops| - 1]) && ops[|ops| - 1].Equal?
  {
    var prefix := ops[..|ops| - 1];
    assert forall i :: 0 <= i < |prefix| ==> prefix[i] == ops[i];
  }

  /** The number of entries is at most the number of `Delete` and `Insert`
      changes. */
  function ChangeCount(ops: seq<Op>): nat
  {
    if |ops| == 0 then 0
    else ChangeCount(ops[..|ops| - 1]) + (if ops[|ops| - 1].Equal? then 0 else 1)
  }

  lemma {:induction false} EditCountBound(ops: seq<Op>, offset: nat)
    ensures |Run(ops, offset).edits| <= ChangeCount(ops)
    decreases |ops|
  {
    if |ops| > 0 {
      EditCountBound(ops[..|ops| - 1], offset);
    }
  }

  /** An entry with its range moved `k` bytes later. */
  function ShiftEdit(e: Edit, k: nat): (e': Edit)
    ensures e'.start == e.start + k && e'.end == e.end + k && e'.text == e.text
  {
    Edit(e.start + k, e.end + k, e.text)
  }

  /** The entries with every range moved `k` bytes later. */
  function ShiftEdits(edits: seq<Edit>, k: nat): (shifted: seq<Edit>)
    ensures |shifted| == |edits|
    ensures forall i :: 0 <= i < |edits| ==> shifted[i] == ShiftEdit(edits[i], k)
  {
    if |edits| == 0 then []
    else ShiftEdits(edits[..|edits| - 1], k) + [ShiftEdit(edits[|edits| - 1], k)]
  }

  lemma ShiftSnoc(edits: seq<Edit>, e: Edit, k: nat)
    ensures ShiftEdits(edits + [e], k) == ShiftEdits(edits, k) + [ShiftEdit(e, k)]
  {
    assert (edits + [e])[..|edits|] == edits;
  }

  lemma ShiftStep(b: Builder, op: Op, k: nat)
    ensures Step(Builder(ShiftEdits(b.edits, k), b.cursor + k), op)
         == Builder(ShiftEdits(Step(b, op).edits, k), Step(b, op).cursor + k)
  {
    var sb := Builder(ShiftEdits(b.edits, k), b.cursor + k);
    assert AbutsLast(sb.edits, sb.cursor) <==> AbutsLast(b.edits, b.cursor);
    if op.Equal? {
    } else if AbutsLast(b.edits, b.cursor) {
      ShiftMerge(b, op, k);
    } else {
      ShiftPush(b, op, k);
    }
  }

  lemma ShiftPush(b: Builder, op: Op, k: nat)
    requires !op.Equal? && !AbutsLast(b.edits, b.cursor)
    ensures Step(Builder(ShiftEdits(b.edits, k), b.cursor + k), op)
         == Builder(ShiftEdits(Step(b, op).edits, k), Step(b, op).cursor + k)
  {
    var sb := Builder(ShiftEdits(b.edits, k), b.cursor + k);
    assert !AbutsLast(sb.edits, sb.cursor);
    var c' := b.cursor + Bytes(OldPart(op));
    var e := Edit(b.cursor, c', NewPart(op));
    assert Step(b, op) == Builder(b.edits + [e], c');
    assert Step(sb, op) == Builder(sb.edits + [ShiftEdit(e, k)], c' + k);
    ShiftSnoc(b.edits, e, k);
  }

  lemma ShiftMerge(b: Builder, op: Op, k: nat)
    requires !op.Equal? && AbutsLast(b.edits, b.cursor)
    ensures Step(Builder(ShiftEdits(b.edits, k), b.cursor + k), op)
         == Builder(ShiftEdits(Step(b, op).edits, k), Step(b, op).cursor + k)
  {
    ShiftMergeEdits(b, op, k);
  }

  lemma ShiftMergeEdits(b: Builder, op: Op, k: nat)
    requires !op.Equal? && AbutsLast(b.edits, b.cursor)
    ensures Step(Builder(ShiftEdits(b.edits, k), b.cursor + k), op).edits == ShiftEdits(Step(b, op).edits, k)
  {
    var n := |b.edits|;
    var sb := Builder(ShiftEdits(b.edits, k), b.cursor + k);
    assert AbutsLast(sb.edits, sb.cursor);
    var pre := b.edits[..n - 1];
    var last := b.edits[n - 1];
    var last' := Edit(last.start, Step(b, op).cursor, last.text + NewPart(op));
    StepMerges(b, op);
    ShiftLast(b.edits, k);
    StepMerges(sb, op);
    assert Edit(sb.edits[n - 1].start, Step(sb, op).cursor, sb.edits[n - 1].text + NewPart(op)) == ShiftEdit(last', k);
    ShiftSnoc(pre, last', k);
  }

  lemma ShiftLast(edits: seq<Edit>, k: nat)
    requires |edits| > 0
    ensures ShiftEdits(edits, k)[..|edits| - 1] == ShiftEdits(edits[..|edits| - 1], k)
    ensures ShiftEdits(edits, k)[|edits| - 1] == ShiftEdit(edits[|edits| - 1], k)
  {
  }

  /** Starting the cursor `k` bytes later moves every range `k` bytes later
      and leaves the replacements unchanged. */
  lemma {:induction false} OffsetShift(ops: seq<Op>, offset: nat, k: nat)
    ensures Run(ops, offset + k).edits == ShiftEdits(Run(ops, offset).edits, k)
    ensures Run(ops, offset + k).cursor == Run(ops, offset).cursor + k
    decreases |ops|
  {
    if |ops| > 0 {
      OffsetShift(ops[..|ops| - 1], offset, k);
      OffsetShiftStep(ops, offset, k);
    }
  }

  lemma OffsetShiftStep(ops: seq<Op>, offset: nat, k: nat)
    requires |ops| > 0
    requires Run(ops[..|ops| - 1], offset + k).edits == ShiftEdits(Run(ops[..|ops| - 1], offset).edits, k)
    requires Run(ops[..|ops| - 1], offset + k).cursor == Run(ops[..|ops| - 1], offset).cursor + k
    ensures Run(ops, offset + k).edits == ShiftEdits(Run(ops, offset).edits, k)
    ensures Run(ops, offset + k).cursor == Run(ops, offset).cursor + k
  {
    var prefix := ops[..|ops| - 1];
    var op := ops[|ops| - 1];
    var b := Run(prefix, offset);
    assert Run(prefix, offset + k) == Builder(ShiftEdits(b.edits, k), b.cursor + k);
    assert Run(ops, offset + k) == Step(Run(prefix, offset + k), op);
    assert Run(ops, offset) == Step(b, op);
    ShiftStep(b, op, k);
  }

  /** A deletion followed by an insertion at a point no entry ends at becomes
      one substitution entry. */
  lemma DeleteThenInsertIsSubstitution(b: Builder, removed: string, added: string)
    requires !AbutsLast(b.edits, b.cursor)
    ensures Step(Step(b, Delete(removed)), Insert(added)).edits
         == b.edits + [Edit(b.cursor, b.cursor + Bytes(removed), added)]
  {
    StepDeletePush(b, removed);
    InsertAfterPush(Step(b, Delete(removed)), b.edits, b.cursor, b.cursor + Bytes(removed), added);
  }

  /** An insertion right after a fresh deletion entry becomes its replacement. */
  lemma InsertAfterPush(b: Builder, edits: seq<Edit>, start: nat, end: nat, v: string)
    requires b.edits == edits + [Edit(start, end, [])] && b.cursor == end
    ensures Step(b, Insert(v)).edits == edits + [Edit(start, end, v)]
  {
    InsertMergesInto(edits, Edit(start, end, []), v);
    NothingBefore(v);
  }

  lemma InsertMergesInto(edits: seq<Edit>, e: Edit, v: string)
    ensures Step(Builder(edits + [e], e.end), Insert(v)).edits == edits + [e.(text := e.text + v)]
  {
    assert (edits + [e])[..|edits|] == edits;
  }

  lemma NothingBefore(s: string)
    ensures [] + s == s
  {
  }

  /** Consecutive insertions at one point concatenate. */
  lemma InsertionsConcatenate(b: Builder, first: string, second: string)
    requires !AbutsLast(b.edits, b.cursor)
    ensures Step(Step(b, Insert(first)), Insert(second)).edits
         == b.edits + [Edit(b.cursor, b.cursor, first + second)]
  {
    var b1 := Step(b, Insert(first));
    var e := Edit(b.cursor, b.cursor, first);
    assert b1.edits == b.edits + [e];
    assert (b.edits + [e])[..|b.edits|] == b.edits;
  }
}
