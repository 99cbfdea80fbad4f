/** The single forward cursor `lastWriteOffset` that copies the source
    between consumed spans and writes a replacement in place of each. */
module Splicing {
  import opened Bytes
  import opened Outcome

  /** Consume the node at positions `pos`..`end` and write `text` instead:
      the bytes `source[last .. pos - 1]` before it are copied, and the cursor
      moves to `end`. Since positions count from 1, `pos - 1` is the node's
      first byte and `end`, used as an offset, is one past the byte that
      follows the node; that byte is consumed too. */
  datatype Edit = Edit(pos: int, end: int, text: seq<byte>)

  /** Every slice the cursor takes is in bounds: from cursor `last`, each
      edit's start offset `pos - 1` lies between the cursor and the end of an
      `n`-byte source, and the cursor then moves to the edit's `end`. */
  predicate Chained(n: int, last: int, edits: seq<Edit>)
    decreases |edits|
  {
    edits == [] || (0 <= last <= edits[0].pos - 1 <= n && Chained(n, edits[0].end, edits[1..]))
  }

  /** Where the cursor stands after `edits`. */
  function Cursor(last: int, edits: seq<Edit>): int
  {
    if edits == [] then last else edits[|edits| - 1].end
  }

  datatype Spliced = Spliced(out: seq<byte>, cursor: int)

  /** Runs the cursor from `last` over `edits`: the bytes written and the
      final cursor. */
  function Splice(source: seq<byte>, last: int, edits: seq<Edit>): (r: Spliced)
    requires Chained(|source|, last, edits)
    ensures r.cursor == Cursor(last, edits)
    decreases |edits|
  {
    if edits == [] then Spliced([], last)
    else
      var e := edits[0];
      var rest := Splice(source, e.end, edits[1..]);
      Spliced(source[last..e.pos - 1] + e.text + rest.out, rest.cursor)
  }

  lemma {:induction false} ChainedAppend(n: int, last: int, a: seq<Edit>, b: seq<Edit>)
    ensures Chained(n, last, a + b) <==> Chained(n, last, a) && Chained(n, Cursor(last, a), b)
    decreases |a|
  {
    if a == [] {
      assert a + b == b;
    } else {
      assert (a + b)[0] == a[0];
      assert (a + b)[1..] == a[1..] + b;
      ChainedAppend(n, a[0].end, a[1..], b);
      if a[1..] == [] {
        assert Cursor(a[0].end, a[1..]) == Cursor(last, a);
      } else {
        assert Cursor(a[0].end, a[1..]) == Cursor(last, a);
      }
    }
  }

  lemma {:induction false} CursorAppend(last: int, a: seq<Edit>, b: seq<Edit>)
    ensures Cursor(last, a + b) == Cursor(Cursor(last, a), b)
  {
    if b == [] {
      assert a + b == a;
    }
  }

  /** Running the cursor over `a + b` is running it over `a` and then, from
      where it stopped, over `b`. */
  lemma {:induction false} SpliceAppend(source: seq<byte>, last: int, a: seq<Edit>, b: seq<Edit>)
    requires Chained(|source|, last, a + b)
    ensures Chained(|source|, last, a) && Chained(|source|, Cursor(last, a), b)
    ensures Splice(source, last, a + b).out ==
      Splice(source, last, a).out + Splice(source, Cursor(last, a), b).out
    decreases |a|
  {
    ChainedAppend(|source|, last, a, b);
    if a == [] {
      assert a + b == b;
    } else {
      ConcatTail(a, b);
      SpliceAppend(source, a[0].end, a[1..], b);
      SpliceUnfold(source, last, a + b);
      SpliceUnfold(source, last, a);
      Regroup(Splice(source, last, a + b).out, Splice(source, last, a).out,
        source[last..a[0].pos - 1] + a[0].text, Splice(source, a[0].end, a[1..]).out,
        Splice(source, a[0].end, a[1..] + b).out, Splice(source, Cursor(last, a), b).out);
    }
  }

  lemma ConcatTail(a: seq<Edit>, b: seq<Edit>)
    requires a != []
    ensures (a + b)[0] == a[0] && (a + b)[1..] == a[1..] + b
  {
  }

  // ------------------------------------------------ cursor-free reference

  /** Every edit spans at least one byte, as every parsed node does. */
  predicate Forward(edits: seq<Edit>)
  {
    forall k | 0 <= k < |edits| :: edits[k].pos - 1 < edits[k].end
  }

  /** The first edit whose span starts at offset `i`. */
  function StartingAt(edits: seq<Edit>, i: int): (r: Option<Edit>)
    ensures r.Some? ==> r.value in edits && r.value.pos - 1 == i
  {
    if edits == [] then None
    else if edits[0].pos - 1 == i then Some(edits[0])
    else StartingAt(edits[1..], i)
  }

  /** No edit starts at `i` exactly when none is found there. */
  lemma {:induction false} StartingAtNone(edits: seq<Edit>, i: int)
    ensures StartingAt(edits, i).None? <==> forall k | 0 <= k < |edits| :: edits[k].pos - 1 != i
  {
    if edits != [] {
      StartingAtNone(edits[1..], i);
      assert forall k | 1 <= k < |edits| :: edits[k] == edits[1..][k - 1];
    }
  }

  /** The source read byte by byte from offset `i`: where an edit starts its
      text is written and reading resumes at the edit's end; every other
      byte is copied. No cursor: this is the meaning of a list of edits. */
  function Rendered(source: seq<byte>, i: int, edits: seq<Edit>): seq<byte>
    requires Forward(edits)
    decreases |source| + 1 - i
  {
    if i < 0 || i > |source| then []
    else
      match StartingAt(edits, i)
      case Some(e) => e.text + Rendered(source, e.end, edits)
      case None => if i < |source| then [source[i]] + Rendered(source, i + 1, edits) else []
  }

  lemma {:induction false} RenderedCopies(source: seq<byte>, i: int, j: int, edits: seq<Edit>)
    requires Forward(edits)
    requires 0 <= i <= j <= |source|
    requires forall k | 0 <= k < |edits| :: edits[k].pos - 1 < i || edits[k].pos - 1 >= j
    ensures Rendered(source, i, edits) == source[i..j] + Rendered(source, j, edits)
    decreases j - i
  {
    if i < j {
      RenderedCopiesOne(source, i, edits);
      RenderedCopies(source, i + 1, j, edits);
      SliceCons(source, i, j);
      Regroup(Rendered(source, i, edits), source[i..j], [source[i]], source[i + 1..j],
        Rendered(source, i + 1, edits), Rendered(source, j, edits));
    }
  }

  /** Sequence bookkeeping for one copied byte. */
  lemma Regroup(x: seq<byte>, ab: seq<byte>, a: seq<byte>, b: seq<byte>, next: seq<byte>, c: seq<byte>)
    requires x == a + next && next == b + c && ab == a + b
    ensures x == ab + c
  {
    ConcatAssoc(a, b, c);
  }

  lemma RenderedCopiesOne(source: seq<byte>, i: int, edits: seq<Edit>)
    requires Forward(edits)
    requires 0 <= i < |source|
    requires forall k | 0 <= k < |edits| :: edits[k].pos - 1 != i
    ensures Rendered(source, i, edits) == [source[i]] + Rendered(source, i + 1, edits)
  {
    StartingAtNone(edits, i);
  }

  lemma {:induction false} RenderedAgree(source: seq<byte>, i: int, a: seq<Edit>, b: seq<Edit>)
    requires Forward(a) && Forward(b)
    requires forall j | j >= i :: StartingAt(a, j) == StartingAt(b, j)
    ensures Rendered(source, i, a) == Rendered(source, i, b)
    decreases |source| + 1 - i
  {
    if 0 <= i <= |source| {
      match StartingAt(a, i)
      case Some(e) =>
        assert e in a;
        RenderedAgree(source, e.end, a, b);
      case None =>
        if i < |source| {
          RenderedAgree(source, i + 1, a, b);
        }
    }
  }

  /** Along a chain of spans that each cover a byte, every edit starts at or
      after the cursor. */
  lemma {:induction false} ChainedStartsAfter(n: int, last: int, edits: seq<Edit>)
    requires Chained(n, last, edits) && Forward(edits)
    ensures forall k | 0 <= k < |edits| :: edits[k].pos - 1 >= last
    decreases |edits|
  {
    if edits != [] {
      assert Forward(edits[1..]) by {
        assert forall k | 0 <= k < |edits| - 1 :: edits[1..][k] == edits[k + 1];
      }
      ChainedStartsAfter(n, edits[0].end, edits[1..]);
      assert forall k | 1 <= k < |edits| :: edits[k] == edits[1..][k - 1];
    }
  }

  lemma {:induction false} ChainedCursorBound(n: int, last: int, edits: seq<Edit>)
    requires Chained(n, last, edits) && Forward(edits) && 0 <= last
    ensures last <= Cursor(last, edits)
    decreases |edits|
  {
    if edits != [] {
      assert Forward(edits[1..]) by {
        assert forall k | 0 <= k < |edits| - 1 :: edits[1..][k] == edits[k + 1];
      }
      ChainedCursorBound(n, edits[0].end, edits[1..]);
      assert Cursor(edits[0].end, edits[1..]) == Cursor(last, edits);
    }
  }

  lemma ForwardTail(edits: seq<Edit>)
    requires Forward(edits) && edits != []
    ensures Forward(edits[1..])
  {
    assert forall k | 0 <= k < |edits| - 1 :: edits[1..][k] == edits[k + 1];
  }

  /** After the chain's first edit, the later edits all start at or after
      its end, so none starts in `[last, end)` except the first itself. */
  lemma LaterEditsStartAfter(n: int, last: int, edits: seq<Edit>)
    requires edits != [] && Chained(n, last, edits) && Forward(edits)
    ensures forall k | 1 <= k < |edits| :: edits[k].pos - 1 >= edits[0].end
  {
    ForwardTail(edits);
    ChainedStartsAfter(n, edits[0].end, edits[1..]);
    assert forall k | 1 <= k < |edits| :: edits[k] == edits[1..][k - 1];
  }

  lemma RenderedAtFirst(source: seq<byte>, edits: seq<Edit>)
    requires edits != [] && Forward(edits)
    requires 0 <= edits[0].pos - 1 <= |source|
    ensures Rendered(source, edits[0].pos - 1, edits) == edits[0].text + Rendered(source, edits[0].end, edits)
  {
    assert StartingAt(edits, edits[0].pos - 1) == Some(edits[0]);
  }

  lemma StartsAgreeAfterFirst(edits: seq<Edit>, from: int)
    requires edits != [] && edits[0].pos - 1 < from
    ensures forall j | j >= from :: StartingAt(edits, j) == StartingAt(edits[1..], j)
  {
  }

  /** Reading from the cursor up to the first edit copies the gap, writes
      the edit's text, and carries on from its end as if it were gone. */
  lemma RenderedStep(source: seq<byte>, last: int, edits: seq<Edit>)
    requires edits != [] && Chained(|source|, last, edits) && Forward(edits)
    ensures Forward(edits[1..])
    ensures Rendered(source, last, edits) ==
      (source[last..edits[0].pos - 1] + edits[0].text) + Rendered(source, edits[0].end, edits[1..])
  {
    var e := edits[0];
    var rest := edits[1..];
    ForwardTail(edits);
    assert e.pos - 1 < e.end;
    LaterEditsStartAfter(|source|, last, edits);
    RenderedCopies(source, last, e.pos - 1, edits);
    RenderedAtFirst(source, edits);
    StartsAgreeAfterFirst(edits, e.end);
    RenderedAgree(source, e.end, edits, rest);
    var gap := source[last..e.pos - 1];
    ConcatAssoc(gap, e.text, Rendered(source, e.end, rest));
  }

  lemma RenderedNoEdits(source: seq<byte>, last: int)
    requires 0 <= last <= |source|
    ensures Rendered(source, last, []) == source[last..]
  {
    RenderedCopies(source, last, |source|, []);
    assert source[last..|source|] == source[last..];
  }

  lemma SpliceUnfold(source: seq<byte>, last: int, edits: seq<Edit>)
    requires edits != [] && Chained(|source|, last, edits)
    ensures Chained(|source|, edits[0].end, edits[1..])
    ensures Cursor(edits[0].end, edits[1..]) == Cursor(last, edits)
    ensures Splice(source, last, edits).out ==
      (source[last..edits[0].pos - 1] + edits[0].text) + Splice(source, edits[0].end, edits[1..]).out
  {
  }

  /** One step of the induction below: if the run over the later edits
      renders the source from the first edit's end, the run over all of them
      renders it from the cursor. */
  lemma SpliceStepIsRendered(source: seq<byte>, last: int, edits: seq<Edit>)
    requires edits != [] && Chained(|source|, last, edits) && Forward(edits)
    requires 0 <= Cursor(last, edits) <= |source|
    requires Forward(edits[1..])
    requires Splice(source, edits[0].end, edits[1..]).out + source[Cursor(edits[0].end, edits[1..])..]
      == Rendered(source, edits[0].end, edits[1..])
    ensures Splice(source, last, edits).out + source[Cursor(last, edits)..] == Rendered(source, last, edits)
  {
    SpliceUnfold(source, last, edits);
    RenderedStep(source, last, edits);
    Glue(Splice(source, last, edits).out, Rendered(source, last, edits),
      source[last..edits[0].pos - 1] + edits[0].text,
      Splice(source, edits[0].end, edits[1..]).out,
      source[Cursor(last, edits)..],
      Rendered(source, edits[0].end, edits[1..]));
  }

  /** Sequence bookkeeping shared by the induction steps. */
  lemma Glue(x: seq<byte>, y: seq<byte>, head: seq<byte>, mid: seq<byte>, tail: seq<byte>, after: seq<byte>)
    requires x == head + mid && y == head + after && mid + tail == after
    ensures x + tail == y
  {
    ConcatAssoc(head, mid, tail);
  }

  /** Nothing else changes: the cursor's output followed by the uncopied tail
      is the source with each edit's span `[pos - 1, end)` replaced by its
      text; every byte outside those spans is copied once, in order. */
  lemma {:induction false} SpliceIsRendered(source: seq<byte>, last: int, edits: seq<Edit>)
    requires Chained(|source|, last, edits) && Forward(edits)
    requires 0 <= last && 0 <= Cursor(last, edits) <= |source|
    ensures Splice(source, last, edits).out + source[Cursor(last, edits)..] == Rendered(source, last, edits)
    decreases |edits|
  {
    if edits == [] {
      RenderedNoEdits(source, last);
    } else {
      var rest := edits[1..];
      ForwardTail(edits);
      ChainedCursorBound(|source|, edits[0].end, rest);
      assert Cursor(edits[0].end, rest) == Cursor(last, edits);
      SpliceIsRendered(source, edits[0].end, rest);
      SpliceStepIsRendered(source, last, edits);
    }
  }

  /** Two cursor runs, the second starting where the first stopped, followed
      by the uncopied tail, render the concatenated edit list. */
  lemma TwoPhases(source: seq<byte>, first: seq<Edit>, second: seq<Edit>)
    requires Chained(|source|, 0, first) && Chained(|source|, Cursor(0, first), second)
    requires 0 <= Cursor(Cursor(0, first), second) <= |source|
    requires Forward(first + second)
    ensures Splice(source, 0, first).out +
      (Splice(source, Cursor(0, first), second).out + source[Cursor(Cursor(0, first), second)..])
      == Rendered(source, 0, first + second)
  {
    ChainedAppend(|source|, 0, first, second);
    SpliceAppend(source, 0, first, second);
    CursorAppend(0, first, second);
    var a := Splice(source, 0, first).out;
    var b := Splice(source, Cursor(0, first), second).out;
    var t := source[Cursor(Cursor(0, first), second)..];
    assert Splice(source, 0, first + second).out == a + b;
    ConcatAssoc(a, b, t);
    SpliceIsRendered(source, 0, first + second);
  }
}
