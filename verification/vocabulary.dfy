/**
 * The vocabulary table and its reconciliation with the acoustic model's
 * output width (main.py lines 17-20): when the table is shorter than the
 * width, ONE empty entry is appended in place. It is not padded all the way
 * up to the width.
 */
module Vocabulary {
  import opened Wrappers
  import opened CtcDecode

  /** The table the reconciliation leaves behind, as a value. */
  function Reconciled(entries: seq<string>, outputWidth: nat): (r: seq<string>)
    ensures |entries| < outputWidth ==> |r| == |entries| + 1 && r[|entries|] == ""
    ensures |entries| >= outputWidth ==> r == entries
    ensures r[..|entries|] == entries
  {
    if |entries| < outputWidth then entries + [""] else entries
  }

  /** The process-wide vocabulary list, which the start-up code mutates. */
  class VocabTable {
    var entries: seq<string>

    constructor (entries: seq<string>)
      ensures this.entries == entries
    {
      this.entries := entries;
    }

    /** Appends one empty entry when the table is shorter than the output width (main.py lines 19-20). */
    method Reconcile(outputWidth: nat)
      modifies this
      ensures entries == Reconciled(old(entries), outputWidth)
      ensures |old(entries)| < outputWidth ==> entries == old(entries) + [""]
      ensures |old(entries)| >= outputWidth ==> entries == old(entries)
    {
      if |entries| < outputWidth {
        entries := entries + [""];
      }
    }
  }

  /** Appending an empty entry never changes the text a frame sequence yields. */
  lemma {:induction false} EmptyEntryEmitsNothing(ids: seq<nat>, vocab: seq<string>, prev: Option<nat>)
    ensures Emit(ids, vocab + [""], prev) == Emit(ids, vocab, prev)
  {
    if ids != [] {
      EmptyEntryEmitsNothing(ids[1..], vocab, Some(ids[0]));
    }
  }

  /**
   * Reconciliation is not semantic: every frame sequence decodes to the same
   * transcription against the reconciled table as against the original.
   */
  lemma ReconcilePreservesTranscription(ids: seq<nat>, entries: seq<string>, outputWidth: nat)
    ensures Transcription(ids, Reconciled(entries, outputWidth)) == Transcription(ids, entries)
  {
    if |entries| < outputWidth {
      EmptyEntryEmitsNothing(ids, entries, None);
    }
  }

  /** The id the padding makes addressable decodes, on its own, to the empty text. */
  lemma PaddedIdDecodesEmpty(entries: seq<string>, outputWidth: nat)
    requires |entries| < outputWidth
    ensures |entries| < |Reconciled(entries, outputWidth)|
    ensures Transcription([|entries|], Reconciled(entries, outputWidth)) == ""
  {
    var ids: seq<nat> := [|entries|];
    assert AllSilent(ids, entries);
    SilentTranscriptionEmpty(ids, entries);
    ReconcilePreservesTranscription(ids, entries, outputWidth);
  }
}
