# Greedy CTC decoding of a speech-to-text service

The service takes a `.wav` upload and runs a Conformer CTC acoustic model through
ONNX Runtime. It returns a JSON body with the transcription, the per-frame
token ids and a confidence summary. This project models the decoding half of the
`/transcribe` route in `main.py`. It takes over at the logits matrix the model
produces and ends at the response fields. Properties of that decoding are proved
in Dafny.

- `TextCleanup` (`text_cleanup.dfy`) models the clean-up at the end of
  `decode_ids`. Both token separators, `▁` (U+2581) and `|`, are replaced by a
  space, then `str.strip()` runs. Python's whitespace set is written out
  exactly as `IsSpace`.
- `CtcDecode` (`ctc_decode.dfy`) models the `decode_ids` loop as an imperative
  method (`DecodeIds`). The method is proved against the specification function
  `Transcription`. The text the loop accumulates before the clean-up (`Emit`)
  is proved equal to an independent textbook definition: merge runs of equal
  ids, drop blanks and ids past the vocabulary, concatenate the entries. So
  `Transcription` is the clean-up of that definition's result.
- `FrameSelect` (`frame_select.dfy`) models, for each frame:
  - the confidence (`np.max`);
  - the top-1 id (`np.argmax`, first index of the maximum);
  - the gate that replaces the id of a frame whose confidence is not above the
    threshold by the blank;
  - the low-confidence count.
- `Vocabulary` (`vocabulary.dfy`) models the start-up reconciliation of the
  vocabulary with the model's output width. The vocabulary is a process-wide
  list, mutated in place, so it is modelled as a class.
- `Transcribe` (`transcribe.dfy`) models the route body from the logits to the
  response. It also contains a worked three-frame example.
- `Wrappers` (`wrappers.dfy`) defines `Option` and `Result`.

Three behaviours of the code are easy to miss:

- **A blank between two equal ids separates them.** The frames `[3, 0, 3]`, with
  `"hi"` at id 3, decode to `"hihi"`. `prev` is updated on every
  frame, blanks included, so the second 3 is not a repeat
  (`CtcDecode.SilentFrameSeparatesRepeats`, `Transcribe.ThreeFrameScenario`).
- **The vocabulary is padded by exactly one entry.** When it is shorter than the
  output width, a single `""` is appended, however large the gap
  (`Vocabulary.Reconciled`).
- **Zero frames give no average.** With no frames, the average confidence is the
  mean of an empty array, which is NaN. The average is
  not part of this model (see "Left out").

## Model

| member | source | states |
|---|---|---|
| TextCleanup.IsSpace | main.py:31 | the whitespace `strip()` removes (Python's `str.isspace` set): it includes the space the separators become, and neither separator is in it |
| TextCleanup.ReplaceChar | main.py:31 | `str.replace` of one character: same length; each position holds the replacement where the input held the target, and the input character elsewhere |
| TextCleanup.LStrip | main.py:31 | `lstrip` yields a suffix of its input that is empty or starts with a non-whitespace character |
| TextCleanup.RStrip | main.py:31 | `rstrip` yields a prefix of its input that is empty or ends with a non-whitespace character |
| TextCleanup.LStripRemovesSpace | main.py:31 | every character `lstrip` drops is whitespace |
| TextCleanup.RStripRemovesSpace | main.py:31 | every character `rstrip` drops is whitespace |
| TextCleanup.Strip | main.py:31 | `strip` leaves no whitespace at either end and never lengthens its input |
| TextCleanup.StripRemovesOnlySpace | main.py:31 | `strip` keeps one contiguous slice of its input; everything before and after that slice is whitespace |
| TextCleanup.Clean | main.py:31 | the cleaned text contains neither separator, has no whitespace at either end and is no longer than its input |
| TextCleanup.CleanKeepsCleanText | main.py:31 | text with no separator and no whitespace at either end comes out of the clean-up unchanged |
| TextCleanup.CleanIdempotent | main.py:31 | cleaning already-clean text changes nothing |
| CtcDecode.Emit | main.py:24-29 | the text the loop accumulates: empty when every frame is blank or past the vocabulary |
| CtcDecode.Transcription | main.py:22-31 | the value `decode_ids` returns: no separator and no whitespace at either end |
| CtcDecode.DecodeIds | main.py:22-31 | the loop's result is the transcription of the ids: no separator, no surrounding whitespace |
| CtcDecode.Collapse | main.py:25-29 | merging runs keeps the first and last id, adds no id and leaves no two equal neighbours |
| CtcDecode.DropSilent | main.py:27 | keeps exactly the ids that are non-blank and index the vocabulary, in order |
| CtcDecode.EmitIsCollapseDropRender | main.py:24-29 | the loop's accumulated text equals the three-phase CTC rule: merge repeats, drop blanks and out-of-range ids, concatenate the entries |
| CtcDecode.TranscriptionIsCtcRule | main.py:22-31 | the transcription is the clean-up of the three-phase CTC rule's text |
| CtcDecode.CollapsedDecodesAlike | main.py:22-31 | decoding the run-merged id sequence gives the same transcription as decoding the original |
| CtcDecode.SilentTranscriptionEmpty | main.py:27-28 | ids that are all blank or past the vocabulary decode to the empty string |
| CtcDecode.RepeatAbsorbed | main.py:27-29 | a frame repeating the previous frame's id adds nothing |
| CtcDecode.RepeatsCollapse | main.py:25-31 | `[a,a,a,b,b]` decodes to the entries of `a` and `b`, once each, in order |
| CtcDecode.SilentFrameSeparatesRepeats | main.py:27-29 | a blank or out-of-range frame between two equal ids makes the entry appear twice |
| CtcDecode.SeparatedRepeatSpelledTwice | main.py:24-31 | when an entry is clean text, a silent frame between two frames of its id makes the transcription that entry written twice |
| FrameSelect.RowMax | main.py:78 | the confidence of a frame is an entry of its row and bounds every entry |
| FrameSelect.ArgMax | main.py:79 | the top-1 id indexes a maximal entry, and every earlier entry is strictly smaller (first maximum) |
| FrameSelect.StrictMaximum | main.py:78-79 | a strictly largest entry is both the confidence and the top-1 id |
| FrameSelect.TokenIds | main.py:79 | one top-1 id per frame, each below the output width |
| FrameSelect.Confidences | main.py:78 | one confidence per frame |
| FrameSelect.TopOneAgrees | main.py:78-79 | each frame's top-1 id indexes that frame's confidence, no entry exceeds it, and no earlier index reaches it |
| FrameSelect.Gate | main.py:82-86 | zip length (the shorter input); a frame keeps its id when its confidence is above the threshold, otherwise it becomes the blank 0 |
| FrameSelect.GateMonotone | main.py:82-86 | raising the threshold only blanks more frames and never changes an id that survives |
| FrameSelect.LowConfidenceCount | main.py:93 | the count is at most the frame count; it is zero iff every confidence is above the threshold, and equals the frame count iff none is |
| FrameSelect.LowCountMonotone | main.py:93 | raising the threshold never lowers the count |
| FrameSelect.LowFramesAreBlank | main.py:83-93 | the low-confidence count is at most the number of blanks in the predicted ids, with equality when no frame's top-1 id is the blank |
| Vocabulary.Reconciled | main.py:19-20 | a table shorter than the width gains exactly one trailing `""` and nothing else changes; otherwise it is unchanged |
| Vocabulary.VocabTable.constructor | main.py:15 | the table holds the vocabulary loaded at start-up |
| Vocabulary.VocabTable.Reconcile | main.py:18-20 | updates the table in place to its reconciled value: one `""` appended when short, untouched otherwise |
| Vocabulary.ReconcilePreservesTranscription | main.py:19-31 | every id sequence decodes to the same transcription before and after the reconciliation |
| Vocabulary.PaddedIdDecodesEmpty | main.py:19-28 | the id the padding makes addressable decodes to the empty string |
| Transcribe.TranscribeLogits | main.py:77-106 | the request fails with the inference error exactly when the output width is zero. Otherwise: the predicted ids are the gated top-1 ids; the transcription is their decoding, with no separators; the low count is the low-confidence count; the total is the frame count; no frames gives an empty transcription, no ids and zero counts |
| Transcribe.HiTwice | main.py:22-31 | frames `[3, 0, 3]` with `"hi"` at id 3 decode to `"hihi"` |
| Transcribe.ThreeFrameScenario | main.py:78-104 | frames peaking at id 3 (score 5), id 7 (score -20) and id 3 (score 5) are gated to `[3, 0, 3]`, transcribe to `"hihi"` and count one low-confidence frame |

## Left out

- Audio loading, silence trimming, peak normalisation, the mel spectrogram and the per-band normalisation (main.py lines 38-68) are floating-point signal processing and are not modelled.
- The ONNX session and the inference call (lines 11 and 77) are calls into code outside the repository. The logits matrix is a parameter of `Transcribe.TranscribeLogits`.
- Restoring the NeMo model (line 14) is not modelled. The vocabulary it yields is a parameter, or the constructor argument of `Vocabulary.VocabTable`.
- The FastAPI route is not modelled: the `.wav` file-name check (line 35), reading the upload, the HTTP status codes and JSON encoding.
- `average_confidence` (lines 92 and 102), a rounded floating-point mean, is not modelled. For zero frames it is NaN. This model does not cover what the web framework does when it encodes that NaN, and `Transcribe.TranscribeLogits` describes only the other response fields.
- Transcribe.TranscribeLogits: logits are unbounded integers, not float32. NaN scores, and how `np.max`/`np.argmax` treat them, are not modelled.
- CtcDecode.DecodeIds: ids are natural numbers. Python's negative indexing of the vocabulary cannot arise from `np.argmax` or the gate, and is not modelled.
- `optimize_model.py` (offline model export) and `test_transcribe.py` (an HTTP client script) are not part of this model.
- Concurrency between requests is not modelled. The vocabulary is only mutated at start-up.
