/** The edit script `diff_words_pos` returns (`DiffData` in src/lib.rs):
    entries of a byte range in the old text and its replacement, and what it
    means to apply them. Ranges index the UTF-8 bytes of the text, as Rust
    string ranges do. */
module EditScript {
  import opened Text

  /** Replace the old text's bytes `start..end` (half-open, in the caller's
      coordinates) with `text`. */
  datatype Edit = Edit(start: nat, end: nat, text: string)

  /** The entries lie in `[lo, hi]`, each range is well formed, and each entry
      starts strictly after the previous one ends, so no two overlap or abut. */
  ghost predicate Ordered(edits: seq<Edit>, lo: nat, hi: nat)
  {
    && (forall i :: 0 <= i < |edits| ==> lo <= edits[i].start <= edits[i].end <= hi)
    && (forall i :: 0 < i < |edits| ==> edits[i - 1].end < edits[i].start)
  }

  /** True when the last entry ends exactly at `pos`, so that a change at `pos`
      merges into it. */
  predicate AbutsLast(edits: seq<Edit>, pos: nat)
  {
    |edits| > 0 && edits[|edits| - 1].end == pos
  }

  /** Applies one entry to the bytes `bs`, whose first byte sits at `offset` in
      the entry's coordinates; `None` when the range does not lie within `bs`. */
  function ApplyEdit(bs: seq<uint8>, e: Edit, offset: nat): (r: Option<seq<uint8>>)
    ensures r.Some? <==> offset <= e.start <= e.end <= offset + |bs|
    ensures r.Some? ==> |r.value| == |bs| - (e.end - e.start) + Bytes(e.text)
  {
    if offset <= e.start <= e.end <= offset + |bs| then
      Some(bs[..e.start - offset] + Utf8(e.text) + bs[e.end - offset..])
    else
      None
  }

  /** Applies the entries to `bs`, whose first byte sits at `offset` in the
      entries' coordinates: each range is replaced by the encoding of its
      replacement, the entries taken by descending start so that the ranges
      still to be applied keep their positions. `None` when an entry does not
      fit. */
  function ApplyEdits(bs: seq<uint8>, edits: seq<Edit>, offset: nat): Option<seq<uint8>>
    decreases |edits|
  {
    if |edits| == 0 then Some(bs)
    else
      match ApplyEdit(bs, edits[|edits| - 1], offset)
      case None => None
      case Some(bs') => ApplyEdits(bs', edits[..|edits| - 1], offset)
  }

  lemma ApplySnoc(bs: seq<uint8>, edits: seq<Edit>, e: Edit, offset: nat)
    requires ApplyEdit(bs, e, offset).Some?
    ensures ApplyEdits(bs, edits + [e], offset) == ApplyEdits(ApplyEdit(bs, e, offset).value, edits, offset)
  {
    assert (edits + [e])[..|edits|] == edits;
  }

  /** Entries come out in strictly increasing order: every entry ends before
      any later entry starts. */
  lemma {:induction false} OrderedPairwise(edits: seq<Edit>, lo: nat, hi: nat, i: nat, j: nat)
    requires Ordered(edits, lo, hi) && i < j < |edits|
    ensures edits[i].end < edits[j].start
    decreases j - i
  {
    if i + 1 < j {
      OrderedPairwise(edits, lo, hi, i + 1, j);
    }
  }

  /** Among ordered entries behind `pos`, only the last can end at `pos`: a
      change at `pos` can merge into the last entry and into no other. */
  lemma OnlyLastAbuts(edits: seq<Edit>, lo: nat, pos: nat)
    requires Ordered(edits, lo, pos)
    ensures forall i :: 0 <= i < |edits| - 1 ==> edits[i].end < pos
  {
    forall i | 0 <= i < |edits| - 1
      ensures edits[i].end < pos
    {
      OrderedPairwise(edits, lo, pos, i, |edits| - 1);
    }
  }

  /** The entries after the first lie beyond its end. */
  lemma OrderedRest(edits: seq<Edit>, lo: nat, hi: nat)
    requires Ordered(edits, lo, hi) && |edits| > 0
    ensures Ordered(edits[1..], edits[0].end, hi)
  {
    forall i | 0 <= i < |edits| - 1
      ensures edits[0].end <= edits[1..][i].start
    {
      OrderedPairwise(edits, lo, hi, 0, i + 1);
    }
  }

  /** The entries before the last end before it starts. */
  lemma OrderedFront(pre: seq<Edit>, e: Edit, lo: nat, hi: nat)
    requires Ordered(pre + [e], lo, hi)
    ensures Ordered(pre, lo, e.start)
  {
    var edits := pre + [e];
    forall i | 0 <= i < |pre|
      ensures lo <= pre[i].start <= pre[i].end <= e.start
    {
      assert edits[i] == pre[i] && edits[|pre|] == e;
      OrderedPairwise(edits, lo, hi, i, |pre|);
    }
    forall i | 0 < i < |pre|
      ensures pre[i - 1].end < pre[i].start
    {
      assert edits[i - 1] == pre[i - 1] && edits[i] == pre[i];
    }
  }

  /** The entries read left to right: the old bytes up to the first entry's
      start, its replacement, then the same from the entry's end on; after
      the last entry, the rest of the old bytes. An entry that does not fit
      ends the reading there. */
  ghost function Splice(bs: seq<uint8>, edits: seq<Edit>, offset: nat): seq<uint8>
    decreases |edits|
  {
    if |edits| == 0 then bs
    else
      var e := edits[0];
      if offset <= e.start <= e.end <= offset + |bs| then
        bs[..e.start - offset] + Utf8(e.text) + Splice(bs[e.end - offset..], edits[1..], e.end)
      else
        bs
  }

  /** The first entry is spliced in first. */
  lemma SpliceFirst(bs: seq<uint8>, f: Edit, rest: seq<Edit>, offset: nat)
    requires offset <= f.start <= f.end <= offset + |bs|
    ensures Splice(bs, [f] + rest, offset)
      == bs[..f.start - offset] + Utf8(f.text) + Splice(bs[f.end - offset..], rest, f.end)
  {
    assert ([f] + rest)[0] == f && ([f] + rest)[1..] == rest;
  }

  /** Read left to right, the last entry is spliced in last. */
  lemma {:induction false} SpliceSnoc(bs: seq<uint8>, pre: seq<Edit>, e: Edit, offset: nat)
    requires Ordered(pre + [e], offset, offset + |bs|)
    ensures offset <= e.start <= e.end <= offset + |bs|
    ensures Splice(bs, pre + [e], offset)
      == Splice(bs[..e.start - offset], pre, offset) + Utf8(e.text) + bs[e.end - offset..]
    decreases |pre|
  {
    LastFits(pre, e, offset, offset + |bs|);
    if |pre| == 0 {
      SpliceOne(bs, e, offset);
    } else {
      var f := pre[0];
      var r := pre[1..];
      OrderedAfterFirst(pre, e, offset, offset + |bs|);
      SpliceSnoc(bs[f.end - offset..], r, e, f.end);
      SpliceSnocStep(bs, f, r, e, offset);
    }
  }

  /** The last of ordered entries lies within their bounds. */
  lemma LastFits(pre: seq<Edit>, e: Edit, lo: nat, hi: nat)
    requires Ordered(pre + [e], lo, hi)
    ensures lo <= e.start <= e.end <= hi
  {
    assert (pre + [e])[|pre|] == e;
  }

  /** Split off the first of ordered entries: it fits and ends before the
      last starts, and the rest stay ordered beyond its end. */
  lemma OrderedAfterFirst(pre: seq<Edit>, e: Edit, lo: nat, hi: nat)
    requires Ordered(pre + [e], lo, hi) && |pre| > 0
    ensures pre == [pre[0]] + pre[1..]
    ensures lo <= pre[0].start <= pre[0].end < e.start
    ensures Ordered(pre[1..] + [e], pre[0].end, hi)
  {
    assert (pre + [e])[0] == pre[0] && (pre + [e])[1..] == pre[1..] + [e];
    assert (pre + [e])[|pre|] == e;
    OrderedPairwise(pre + [e], lo, hi, 0, |pre|);
    OrderedRest(pre + [e], lo, hi);
  }

  /** A single entry splices into the bytes around it. */
  lemma SpliceOne(bs: seq<uint8>, e: Edit, offset: nat)
    requires offset <= e.start <= e.end <= offset + |bs|
    ensures Splice(bs, [] + [e], offset) == Splice(bs[..e.start - offset], [], offset) + Utf8(e.text) + bs[e.end - offset..]
  {
    assert [] + [e] == [e] + [];
    SpliceFirst(bs, e, [], offset);
  }

  /** The inductive step of `SpliceSnoc`: splicing in a first entry `f` ahead
      of entries already known to splice their last one in last. */
  lemma SpliceSnocStep(bs: seq<uint8>, f: Edit, r: seq<Edit>, e: Edit, offset: nat)
    requires offset <= f.start <= f.end <= e.start <= e.end <= offset + |bs|
    requires
      var bs2 := bs[f.end - offset..];
      Splice(bs2, r + [e], f.end) == Splice(bs2[..e.start - f.end], r, f.end) + Utf8(e.text) + bs2[e.end - f.end..]
    ensures Splice(bs, [f] + r + [e], offset)
      == Splice(bs[..e.start - offset], [f] + r, offset) + Utf8(e.text) + bs[e.end - offset..]
  {
    var x := bs[..e.start - offset];
    var bs2 := bs[f.end - offset..];
    var a := bs[..f.start - offset] + Utf8(f.text);
    var m := Splice(bs2[..e.start - f.end], r, f.end);
    var w := bs[e.end - offset..];
    assert x[..f.start - offset] == bs[..f.start - offset] && x[f.end - offset..] == bs2[..e.start - f.end]
        && bs2[e.end - f.end..] == w by {
      SliceFacts(bs, f.start - offset, f.end - offset, e.start - offset, e.end - offset);
    }
    assert Splice(bs, [f] + r + [e], offset) == a + Splice(bs2, r + [e], f.end) by {
      assert [f] + r + [e] == [f] + (r + [e]);
      SpliceFirst(bs, f, r + [e], offset);
    }
    assert Splice(x, [f] + r, offset) == a + m by {
      SpliceFirst(x, f, r, offset);
    }
    Combine(Splice(bs, [f] + r + [e], offset), Splice(x, [f] + r, offset), a, Splice(bs2, r + [e], f.end), m, Utf8(e.text), w);
  }

  lemma Combine(l: seq<uint8>, rt: seq<uint8>, a: seq<uint8>, s2: seq<uint8>, m: seq<uint8>, u: seq<uint8>, w: seq<uint8>)
    requires l == a + s2 && s2 == m + u + w && rt == a + m
    ensures l == rt + u + w
  {
  }

  /** How the slices of one sequence at four cut points nest. */
  lemma SliceFacts(bs: seq<uint8>, i: nat, j: nat, k: nat, l: nat)
    requires i <= j <= k <= l <= |bs|
    ensures bs[..k][j..] == bs[j..][..k - j]
    ensures bs[..k][..i] == bs[..i]
    ensures bs[j..][l - j..] == bs[l..]
  {
  }

  /** For ordered entries, applying them by descending start is the same as
      reading them left to right, whatever bytes follow. */
  lemma {:induction false} ApplyEditsSplices(bs: seq<uint8>, edits: seq<Edit>, offset: nat, z: seq<uint8>)
    requires Ordered(edits, offset, offset + |bs|)
    ensures ApplyEdits(bs + z, edits, offset) == Some(Splice(bs, edits, offset) + z)
    decreases |edits|
  {
    if |edits| > 0 {
      var pre := edits[..|edits| - 1];
      var e := edits[|edits| - 1];
      var s := e.start - offset;
      var t := e.end - offset;
      var y := bs[t..] + z;
      assert edits == pre + [e];
      assert bs + z == bs[..s] + bs[s..t] + y;
      ApplyEditAt(bs[..s], bs[s..t], y, e, offset);
      ApplySnoc(bs + z, pre, e, offset);
      SpliceSnoc(bs, pre, e, offset);
      OrderedFront(pre, e, offset, offset + |bs|);
      ApplyEditsSplices(bs[..s], pre, offset, Utf8(e.text) + y);
      Assoc(bs[..s], Utf8(e.text), y);
      var p := Splice(bs[..s], pre, offset);
      assert ApplyEdits(bs + z, edits, offset) == Some(p + (Utf8(e.text) + y));
      Nest(p, Utf8(e.text), bs[t..], z);
    }
  }

  /** An entry applied at the boundaries of a known decomposition `x + m + y`
      of the bytes, its range covering exactly `m`. */
  lemma ApplyEditAt(x: seq<uint8>, m: seq<uint8>, y: seq<uint8>, e: Edit, offset: nat)
    requires e.start == offset + |x| && e.end == e.start + |m|
    ensures ApplyEdit(x + m + y, e, offset) == Some(x + Utf8(e.text) + y)
  {
    assert (x + m + y)[..|x|] == x;
    assert (x + m + y)[|x| + |m|..] == y;
  }

  /** `a` followed by `tail`; named so that the quantifier in `Rebuilds` is
      instantiated only where a proof asks for it. */
  ghost function Append(a: seq<uint8>, tail: seq<uint8>): seq<uint8>
  {
    a + tail
  }

  /** Every extension of the old bytes is rebuilt into the same extension of
      the new bytes. */
  ghost predicate Rebuilds(edits: seq<Edit>, offset: nat, oldBytes: seq<uint8>, newBytes: seq<uint8>)
  {
    forall tail: seq<uint8> :: ApplyEdits(Append(oldBytes, tail), edits, offset) == Some(Append(newBytes, tail))
  }

  lemma UseRebuilds(edits: seq<Edit>, offset: nat, oldBytes: seq<uint8>, newBytes: seq<uint8>, tail: seq<uint8>)
    requires Rebuilds(edits, offset, oldBytes, newBytes)
    ensures ApplyEdits(oldBytes + tail, edits, offset) == Some(newBytes + tail)
  {
    assert ApplyEdits(Append(oldBytes, tail), edits, offset) == Some(Append(newBytes, tail));
  }

  /** No entries rebuild the old bytes into themselves. */
  lemma RebuildsNothing(offset: nat, bs: seq<uint8>)
    ensures Rebuilds([], offset, bs, bs)
  {
    forall tail: seq<uint8> ensures ApplyEdits(Append(bs, tail), [], offset) == Some(Append(bs, tail)) {
    }
  }

  /** Bytes kept on both sides extend both sides. */
  lemma EqualRoundTrip(edits: seq<Edit>, offset: nat, A: seq<uint8>, N: seq<uint8>, v: seq<uint8>)
    requires Rebuilds(edits, offset, A, N)
    ensures Rebuilds(edits, offset, A + v, N + v)
  {
    forall tail: seq<uint8>
      ensures ApplyEdits(Append(A + v, tail), edits, offset) == Some(Append(N + v, tail))
    {
      UseRebuilds(edits, offset, A, N, v + tail);
      Assoc(A, v, tail);
      Assoc(N, v, tail);
    }
  }

  /** A deletion of `v` at the end of the old bytes, opening a new entry. */
  lemma DeletePushRoundTrip(edits: seq<Edit>, offset: nat, A: seq<uint8>, N: seq<uint8>, v: seq<uint8>)
    requires Rebuilds(edits, offset, A, N)
    ensures Rebuilds(edits + [Edit(offset + |A|, offset + |A| + |v|, [])], offset, A + v, N)
  {
    var e := Edit(offset + |A|, offset + |A| + |v|, []);
    forall tail: seq<uint8>
      ensures ApplyEdits(Append(A + v, tail), edits + [e], offset) == Some(Append(N, tail))
    {
      UseRebuilds(edits, offset, A, N, tail);
      ApplyEditAt(A, v, tail, e, offset);
      EmptyMiddle(A, tail);
      ApplySnoc(A + v + tail, edits, e, offset);
    }
  }

  /** An insertion of `v` at the end of the old bytes, opening a new,
      empty-range entry. */
  lemma InsertPushRoundTrip(edits: seq<Edit>, offset: nat, A: seq<uint8>, N: seq<uint8>, v: string)
    requires Rebuilds(edits, offset, A, N)
    ensures Rebuilds(edits + [Edit(offset + |A|, offset + |A|, v)], offset, A, N + Utf8(v))
  {
    var e := Edit(offset + |A|, offset + |A|, v);
    forall tail: seq<uint8>
      ensures ApplyEdits(Append(A, tail), edits + [e], offset) == Some(Append(N + Utf8(v), tail))
    {
      UseRebuilds(edits, offset, A, N, Utf8(v) + tail);
      ApplyEditAt(A, [], tail, e, offset);
      EmptyMiddle(A, tail);
      Assoc(A, Utf8(v), tail);
      ApplySnoc(A + tail, edits, e, offset);
      Assoc(N, Utf8(v), tail);
    }
  }

  /** A deletion of `v` at the end of the old bytes `x + m`, extending the last
      entry, whose range covers exactly `m`. */
  lemma DeleteMergeRoundTrip(pre: seq<Edit>, last: Edit, offset: nat, x: seq<uint8>, m: seq<uint8>, N: seq<uint8>, v: seq<uint8>)
    requires Rebuilds(pre + [last], offset, x + m, N)
    requires last.start == offset + |x| && last.end == offset + |x| + |m|
    ensures Rebuilds(pre + [last.(end := last.end + |v|)], offset, x + m + v, N)
  {
    var e' := last.(end := last.end + |v|);
    forall tail: seq<uint8>
      ensures ApplyEdits(Append(x + m + v, tail), pre + [e'], offset) == Some(Append(N, tail))
    {
      UseRebuilds(pre + [last], offset, x + m, N, tail);
      Assoc(x, m, v);
      ApplyEditAt(x, m + v, tail, e', offset);
      ApplySnoc(x + m + v + tail, pre, e', offset);
      ApplyEditAt(x, m, tail, last, offset);
      ApplySnoc(x + m + tail, pre, last, offset);
    }
  }

  /** An insertion of `v` at the end of the old bytes `x + m`, appended to the
      replacement of the last entry, whose range covers exactly `m`. */
  lemma InsertMergeRoundTrip(pre: seq<Edit>, last: Edit, offset: nat, x: seq<uint8>, m: seq<uint8>, N: seq<uint8>, v: string)
    requires Rebuilds(pre + [last], offset, x + m, N)
    requires last.start == offset + |x| && last.end == offset + |x| + |m|
    ensures Rebuilds(pre + [last.(text := last.text + v)], offset, x + m, N + Utf8(v))
  {
    var e' := last.(text := last.text + v);
    forall tail: seq<uint8>
      ensures ApplyEdits(Append(x + m, tail), pre + [e'], offset) == Some(Append(N + Utf8(v), tail))
    {
      UseRebuilds(pre + [last], offset, x + m, N, Utf8(v) + tail);
      InsertMergeOne(pre, last, offset, x, m, N, v, tail);
      Assoc(N, Utf8(v), tail);
    }
  }

  lemma InsertMergeOne(pre: seq<Edit>, last: Edit, offset: nat, x: seq<uint8>, m: seq<uint8>, N: seq<uint8>, v: string, tail: seq<uint8>)
    requires ApplyEdits(x + m + (Utf8(v) + tail), pre + [last], offset) == Some(N + (Utf8(v) + tail))
    requires last.start == offset + |x| && last.end == offset + |x| + |m|
    ensures ApplyEdits(x + m + tail, pre + [last.(text := last.text + v)], offset) == Some(N + (Utf8(v) + tail))
  {
    LastApplied(pre, last, offset, x, m, Utf8(v) + tail);
    LastApplied(pre, last.(text := last.text + v), offset, x, m, tail);
    ReplacementGrows(x, last.text, v, tail);
  }

  /** Appending `v` to a replacement puts the encoding of `v` right after
      the encoding of the old replacement. */
  lemma ReplacementGrows(x: seq<uint8>, t: string, v: string, tail: seq<uint8>)
    ensures x + Utf8(t + v) + tail == x + Utf8(t) + (Utf8(v) + tail)
  {
    Utf8Concat(t, v);
    Regroup(x, Utf8(t), Utf8(v), tail);
  }

  /** The last entry, covering exactly `m` in `x + m + y`, is applied first. */
  lemma LastApplied(pre: seq<Edit>, e: Edit, offset: nat, x: seq<uint8>, m: seq<uint8>, y: seq<uint8>)
    requires e.start == offset + |x| && e.end == e.start + |m|
    ensures ApplyEdits(x + m + y, pre + [e], offset) == ApplyEdits(x + Utf8(e.text) + y, pre, offset)
  {
    ApplyEditAt(x, m, y, e, offset);
    ApplySnoc(x + m + y, pre, e, offset);
  }

  lemma Assoc(a: seq<uint8>, b: seq<uint8>, c: seq<uint8>)
    ensures a + b + c == a + (b + c)
  {
  }


  lemma Nest(a: seq<uint8>, b: seq<uint8>, c: seq<uint8>, d: seq<uint8>)
    ensures a + (b + (c + d)) == a + b + c + d
  {
  }

  lemma EmptyMiddle(a: seq<uint8>, b: seq<uint8>)
    ensures a + [] + b == a + b
    ensures a + Utf8([]) + b == a + b
  {
  }

  lemma Regroup(a: seq<uint8>, b: seq<uint8>, c: seq<uint8>, d: seq<uint8>)
    ensures a + (b + c) + d == a + b + (c + d)
  {
  }
}
