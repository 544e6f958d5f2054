/**
 * Greedy CTC decoding of a per-frame token-id sequence (`decode_ids`,
 * main.py lines 22-31). Id 0 is the blank; a frame's vocabulary entry is
 * appended only when its id differs from the previous frame's id, is not the
 * blank and indexes the vocabulary. The previous id is updated on every
 * frame, so a blank or out-of-range frame between two equal ids separates
 * them.
 */
module CtcDecode {
  import opened Wrappers
  import opened TextCleanup

  /** The blank id of CTC decoding. */
  const Blank: nat := 0

  /**
   * The text the loop of `decode_ids` accumulates over `ids` when the id of
   * the frame before them is `prev` (`None` before the first frame).
   */
  function Emit(ids: seq<nat>, vocab: seq<string>, prev: Option<nat>): (r: string)
    ensures AllSilent(ids, vocab) ==> r == ""
  {
    if ids == [] then ""
    else
      var id := ids[0];
      (if Some(id) != prev && id != Blank && id < |vocab| then vocab[id] else "")
      + Emit(ids[1..], vocab, Some(id))
  }

  /** Every frame is the blank or an id the vocabulary does not cover. */
  predicate AllSilent(ids: seq<nat>, vocab: seq<string>)
  {
    forall i :: 0 <= i < |ids| ==> ids[i] == Blank || ids[i] >= |vocab|
  }

  /** The string `decode_ids(ids)` returns against vocabulary `vocab`. */
  function Transcription(ids: seq<nat>, vocab: seq<string>): (r: string)
    ensures WordStart !in r && WordBoundary !in r
    ensures r == [] || (!IsSpace(r[0]) && !IsSpace(r[|r| - 1]))
  {
    Clean(Emit(ids, vocab, None))
  }

  /** `decode_ids`: one left-to-right pass keeping the previous id. */
  method DecodeIds(ids: seq<nat>, vocab: seq<string>) returns (text: string)
    ensures text == Transcription(ids, vocab)
    ensures WordStart !in text && WordBoundary !in text
    ensures text == [] || (!IsSpace(text[0]) && !IsSpace(text[|text| - 1]))
  {
    var raw: string := "";
    var prev: Option<nat> := None;
    for i := 0 to |ids|
      invariant prev == if i == 0 then None else Some(ids[i - 1])
      invariant raw + Emit(ids[i..], vocab, prev) == Emit(ids, vocab, None)
    {
      var id := ids[i];
      EmitStep(ids, i, vocab, prev);
      ghost var later := Emit(ids[i + 1..], vocab, Some(id));
      if Some(id) != prev && id != Blank && id < |vocab| {
        assert (raw + vocab[id]) + later == raw + (vocab[id] + later);
        raw := raw + vocab[id];
      } else {
        assert "" + later == later;
      }
      prev := Some(id);
    }
    EmitStep(ids, |ids|, vocab, prev);
    assert raw + "" == raw;
    assert raw == Emit(ids, vocab, None);
    text := Clean(raw);
  }

  /** One iteration of the loop in `DecodeIds`, and its exit. */
  lemma EmitStep(ids: seq<nat>, i: nat, vocab: seq<string>, prev: Option<nat>)
    requires i <= |ids|
    ensures i == |ids| ==> Emit(ids[i..], vocab, prev) == ""
    ensures i < |ids| ==>
      var id := ids[i];
      Emit(ids[i..], vocab, prev)
      == (if Some(id) != prev && id != Blank && id < |vocab| then vocab[id] else "")
         + Emit(ids[i + 1..], vocab, Some(id))
  {
    if i < |ids| {
      assert ids[i..][1..] == ids[i + 1..];
    }
  }

  // ---------------------------------------------------------------------
  // A reference definition: the textbook CTC rule as three separate phases,
  // merge runs of equal ids, drop blanks (and ids the vocabulary does not
  // cover), then concatenate the vocabulary entries.
  // ---------------------------------------------------------------------

  /** No two neighbouring ids are equal. */
  predicate NoAdjacentRepeats(ids: seq<nat>)
  {
    forall i :: 0 < i < |ids| ==> ids[i - 1] != ids[i]
  }

  /** Merges every run of equal neighbouring ids into one id. */
  function Collapse(ids: seq<nat>): (r: seq<nat>)
    ensures |r| <= |ids|
    ensures ids != [] ==> r != [] && r[0] == ids[0] && r[|r| - 1] == ids[|ids| - 1]
    ensures NoAdjacentRepeats(r)
    ensures forall x :: x in r ==> x in ids
  {
    if |ids| <= 1 then ids
    else if ids[0] == ids[1] then Collapse(ids[1..])
    else [ids[0]] + Collapse(ids[1..])
  }

  /** Keeps the ids that name a non-blank vocabulary entry, in order. */
  function DropSilent(ids: seq<nat>, vocab: seq<string>): (r: seq<nat>)
    ensures |r| <= |ids|
    ensures forall i :: 0 <= i < |r| ==> r[i] != Blank && r[i] < |vocab|
    ensures forall x :: x in ids && x != Blank && x < |vocab| <==> x in r
  {
    if ids == [] then []
    else if ids[0] != Blank && ids[0] < |vocab| then [ids[0]] + DropSilent(ids[1..], vocab)
    else DropSilent(ids[1..], vocab)
  }

  /** Concatenates the vocabulary entries of `ids`. */
  function Render(ids: seq<nat>, vocab: seq<string>): string
    requires forall i :: 0 <= i < |ids| ==> ids[i] < |vocab|
  {
    if ids == [] then "" else vocab[ids[0]] + Render(ids[1..], vocab)
  }

  /** What one frame contributes when it is not a repeat. */
  function Piece(id: nat, vocab: seq<string>): string
  {
    if id != Blank && id < |vocab| then vocab[id] else ""
  }

  lemma {:induction false} DropSilentAppend(a: seq<nat>, b: seq<nat>, vocab: seq<string>)
    ensures DropSilent(a + b, vocab) == DropSilent(a, vocab) + DropSilent(b, vocab)
  {
    if a == [] {
      assert a + b == b;
    } else {
      assert (a + b)[0] == a[0];
      assert (a + b)[1..] == a[1..] + b;
      DropSilentAppend(a[1..], b, vocab);
    }
  }

  lemma {:induction false} RenderAppend(a: seq<nat>, b: seq<nat>, vocab: seq<string>)
    requires forall i :: 0 <= i < |a| ==> a[i] < |vocab|
    requires forall i :: 0 <= i < |b| ==> b[i] < |vocab|
    ensures Render(a + b, vocab) == Render(a, vocab) + Render(b, vocab)
  {
    if a == [] {
      assert a + b == b;
    } else {
      assert (a + b)[0] == a[0];
      assert (a + b)[1..] == a[1..] + b;
      RenderAppend(a[1..], b, vocab);
    }
  }

  /** The reference rendering of a non-empty sequence, split after its first id. */
  lemma RenderFirst(ids: seq<nat>, vocab: seq<string>)
    requires ids != []
    ensures Render(DropSilent(ids, vocab), vocab)
         == Piece(ids[0], vocab) + Render(DropSilent(ids[1..], vocab), vocab)
  {
    assert [ids[0]][1..] == [];
    assert ids == [ids[0]] + ids[1..];
    DropSilentAppend([ids[0]], ids[1..], vocab);
    RenderAppend(DropSilent([ids[0]], vocab), DropSilent(ids[1..], vocab), vocab);
  }

  /**
   * The loop's text after the first frame of a non-empty `ids` is the
   * reference rendering of every merged run but the first.
   */
  lemma {:induction false} EmitAfterFirst(ids: seq<nat>, vocab: seq<string>, prev: Option<nat>)
    requires ids != []
    ensures Emit(ids, vocab, prev)
         == (if Some(ids[0]) != prev then Piece(ids[0], vocab) else "")
            + Render(DropSilent(Collapse(ids)[1..], vocab), vocab)
  {
    var x := ids[0];
    var head := if Some(x) != prev then Piece(x, vocab) else "";
    EmitFirst(ids, vocab, prev);
    if |ids| == 1 {
      assert ids[1..] == [];
      assert Collapse(ids)[1..] == [];
    } else {
      var rest := ids[1..];
      EmitAfterFirst(rest, vocab, Some(x));
      var c := Collapse(rest);
      var tail := Render(DropSilent(c[1..], vocab), vocab);
      assert Emit(rest, vocab, Some(x)) == (if rest[0] != x then Piece(rest[0], vocab) else "") + tail;
      if x == rest[0] {
        assert Collapse(ids) == c;
        assert Emit(rest, vocab, Some(x)) == tail;
      } else {
        assert Collapse(ids) == [x] + c;
        assert Collapse(ids)[1..] == c;
        RenderFirst(c, vocab);
        assert Emit(rest, vocab, Some(x)) == Render(DropSilent(c, vocab), vocab);
      }
    }
  }

  /** The first step of `Emit`, in terms of `Piece`. */
  lemma EmitFirst(ids: seq<nat>, vocab: seq<string>, prev: Option<nat>)
    requires ids != []
    ensures Emit(ids, vocab, prev)
         == (if Some(ids[0]) != prev then Piece(ids[0], vocab) else "")
            + Emit(ids[1..], vocab, Some(ids[0]))
  {
  }

  /**
   * The loop of `decode_ids` computes the textbook CTC rule: merge repeats,
   * drop blanks and out-of-range ids, concatenate the entries.
   */
  lemma {:induction false} EmitIsCollapseDropRender(ids: seq<nat>, vocab: seq<string>)
    ensures Emit(ids, vocab, None) == Render(DropSilent(Collapse(ids), vocab), vocab)
  {
    if ids != [] {
      EmitAfterFirst(ids, vocab, None);
      RenderFirst(Collapse(ids), vocab);
    }
  }

  /** The transcription is the clean-up of the textbook CTC rule's text. */
  lemma TranscriptionIsCtcRule(ids: seq<nat>, vocab: seq<string>)
    ensures Transcription(ids, vocab) == Clean(Render(DropSilent(Collapse(ids), vocab), vocab))
  {
    EmitIsCollapseDropRender(ids, vocab);
  }

  /** A sequence without neighbouring repeats is already collapsed. */
  lemma {:induction false} CollapseKeepsDistinct(ids: seq<nat>)
    requires NoAdjacentRepeats(ids)
    ensures Collapse(ids) == ids
  {
    if |ids| > 1 {
      CollapseKeepsDistinct(ids[1..]);
      assert ids == [ids[0]] + ids[1..];
    }
  }

  /** Decoding the collapsed id sequence gives the same transcription. */
  lemma CollapsedDecodesAlike(ids: seq<nat>, vocab: seq<string>)
    ensures Transcription(Collapse(ids), vocab) == Transcription(ids, vocab)
  {
    CollapseKeepsDistinct(Collapse(ids));
    EmitIsCollapseDropRender(Collapse(ids), vocab);
    EmitIsCollapseDropRender(ids, vocab);
  }

  /** Only blanks and out-of-range ids: the transcription is empty. */
  lemma SilentTranscriptionEmpty(ids: seq<nat>, vocab: seq<string>)
    requires forall i :: 0 <= i < |ids| ==> ids[i] == Blank || ids[i] >= |vocab|
    ensures Transcription(ids, vocab) == ""
  {
  }

  /** A frame repeating its predecessor's id adds nothing. */
  lemma RepeatAbsorbed(a: nat, rest: seq<nat>, vocab: seq<string>, prev: Option<nat>)
    ensures Emit([a, a] + rest, vocab, prev) == Emit([a] + rest, vocab, prev)
  {
    assert ([a, a] + rest)[1..] == [a] + rest;
    assert ([a] + rest)[1..] == rest;
  }

  /** `[a, a, a, b, b]` decodes to the entries of `a` and `b`, once each, in order. */
  lemma RepeatsCollapse(a: nat, b: nat, vocab: seq<string>)
    requires a != b && a != Blank && b != Blank && a < |vocab| && b < |vocab|
    ensures Transcription([a, a, a, b, b], vocab) == Clean(vocab[a] + vocab[b])
  {
    assert [a, a] + [a, b, b] == [a, a, a, b, b];
    RepeatAbsorbed(a, [a, b, b], vocab, None);
    assert [a, a] + [b, b] == [a, a, b, b];
    RepeatAbsorbed(a, [b, b], vocab, None);
    assert [b, b][1..] == [b];
    assert Emit([b], vocab, Some(b)) == "";
    assert Emit([b, b], vocab, Some(a)) == vocab[b];
    assert [a, b, b][1..] == [b, b];
    assert Emit([a, b, b], vocab, None) == vocab[a] + vocab[b];
  }

  /**
   * A blank (or an id outside the vocabulary) between two equal ids separates
   * them: the entry is emitted twice, because `prev` follows every frame.
   */
  lemma SilentFrameSeparatesRepeats(a: nat, gap: nat, vocab: seq<string>)
    requires a != Blank && a < |vocab|
    requires gap == Blank || gap >= |vocab|
    ensures Transcription([a, gap, a], vocab) == Clean(vocab[a] + vocab[a])
  {
    assert [a, gap, a][1..] == [gap, a] && [gap, a][1..] == [a] && [a][1..] == [];
    assert Emit([a], vocab, Some(gap)) == vocab[a];
    assert Emit([gap, a], vocab, Some(a)) == vocab[a];
  }

  /**
   * When the entry of `a` is clean text (no separator, no whitespace at
   * either end), a silent frame between two frames of `a` spells it twice.
   */
  lemma SeparatedRepeatSpelledTwice(a: nat, gap: nat, vocab: seq<string>)
    requires a != Blank && a < |vocab|
    requires gap == Blank || gap >= |vocab|
    requires WordStart !in vocab[a] && WordBoundary !in vocab[a]
    requires vocab[a] == [] || (!IsSpace(vocab[a][0]) && !IsSpace(vocab[a][|vocab[a]| - 1]))
    ensures Transcription([a, gap, a], vocab) == vocab[a] + vocab[a]
  {
    SilentFrameSeparatesRepeats(a, gap, vocab);
    var e := vocab[a];
    if e != [] {
      assert (e + e)[0] == e[0] && (e + e)[|e + e| - 1] == e[|e| - 1];
    }
    CleanKeepsCleanText(e + e);
  }
}
