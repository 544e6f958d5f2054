/**
 * The decoding half of the `/transcribe` route (main.py lines 77-106): from
 * the logits matrix the acoustic model returns to the response's
 * transcription, predicted ids and confidence counts.
 */
module Transcribe {
  import opened Wrappers
  import opened TextCleanup
  import opened CtcDecode
  import opened FrameSelect

  /** The confidence threshold of line 82. */
  const Threshold: int := -10

  /** `confidence_summary` without `average_confidence`. */
  datatype Summary = Summary(lowConfidenceTokens: nat, totalTokens: nat)

  /** The response body of lines 98-106. */
  datatype Response = Response(transcription: string, predictedIds: seq<nat>, summary: Summary)

  /** The HTTP 500 "ONNX inference failed" raised from line 96. */
  datatype TranscribeError = InferenceFailed

  /**
   * Lines 78-104 for a logits matrix of `|logits|` frames and `width`
   * vocabulary scores per frame. `np.max` over a zero-width axis raises, and
   * the handler turns that into the inference error.
   */
  method TranscribeLogits(logits: seq<seq<int>>, width: nat, vocab: seq<string>)
    returns (r: Result<Response, TranscribeError>)
    requires Rectangular(logits, width)
    ensures r.Failure? <==> width == 0
    ensures r.Success? ==>
      var confidences := Confidences(logits, width);
      var response := r.value;
      && response.predictedIds == Gate(TokenIds(logits, width), confidences, Threshold)
      && response.transcription == Transcription(response.predictedIds, vocab)
      && response.summary.lowConfidenceTokens == LowConfidenceCount(confidences, Threshold)
      && response.summary.totalTokens == |logits|
    ensures r.Success? ==>
      && |r.value.predictedIds| == r.value.summary.totalTokens
      && r.value.summary.lowConfidenceTokens <= r.value.summary.totalTokens
      && WordStart !in r.value.transcription && WordBoundary !in r.value.transcription
    ensures r.Success? && logits == [] ==> r.value == Response("", [], Summary(0, 0))
  {
    if width == 0 {
      return Failure(InferenceFailed);
    }
    var confidences := Confidences(logits, width);
    var tokenIds := TokenIds(logits, width);
    var filteredIds := Gate(tokenIds, confidences, Threshold);
    var transcription := DecodeIds(filteredIds, vocab);
    var lowConfCount := LowConfidenceCount(confidences, Threshold);
    r := Success(Response(transcription, filteredIds, Summary(lowConfCount, |confidences|)));
  }

  /** A frame of `width` scores: `high` at id `hot`, `low` everywhere else. */
  function Peaked(width: nat, hot: nat, high: int, low: int): (row: seq<int>)
    ensures |row| == width
  {
    seq(width, j => if j == hot then high else low)
  }

  /** A frame whose top score is 5, at id 3. */
  const Loud: seq<int> := Peaked(8, 3, 5, -30)
  /** A frame whose top score is -20, at id 7. */
  const Quiet: seq<int> := Peaked(8, 7, -20, -40)
  /** A vocabulary in which only ids 3 and 7 carry text. */
  const HiLo: seq<string> := ["", "", "", "hi", "", "", "", "lo"]

  /** The frames 3, 0, 3 decode to "hi" twice: the blank separates them. */
  lemma HiTwice(ids: seq<nat>, vocab: seq<string>)
    requires ids == [3, 0, 3] && |vocab| > 3 && vocab[3] == "hi"
    ensures Transcription(ids, vocab) == "hihi"
  {
    HiIsClean(vocab[3]);
    SeparatedRepeatSpelledTwice(3, Blank, vocab);
  }

  /** The entry "hi" is clean text, and spelled twice it reads "hihi". */
  lemma HiIsClean(e: string)
    requires e == "hi"
    ensures WordStart !in e && WordBoundary !in e
    ensures e != [] && !IsSpace(e[0]) && !IsSpace(e[|e| - 1])
    ensures e + e == "hihi"
  {
  }

  /** The per-frame top-1 ids and confidences of a three-frame matrix. */
  lemma TopOneOfThree(x: seq<int>, y: seq<int>, z: seq<int>)
    requires |x| == 8 && |y| == 8 && |z| == 8
    ensures Rectangular([x, y, z], 8)
    ensures Confidences([x, y, z], 8) == [RowMax(x), RowMax(y), RowMax(z)]
    ensures TokenIds([x, y, z], 8) == [ArgMax(x), ArgMax(y), ArgMax(z)]
  {
    var logits := [x, y, z];
    assert logits[0] == x && logits[1] == y && logits[2] == z;
  }

  /**
   * Three frames whose top scores are 5 (id 3), -20 (id 7) and 5 (id 3):
   * the middle frame is gated to the blank and counted as low confidence,
   * and because the blank separates the two frames of id 3 the entry "hi"
   * is emitted twice.
   */
  lemma ThreeFrameScenario(logits: seq<seq<int>>, vocab: seq<string>)
    requires logits == [Loud, Quiet, Loud] && vocab == HiLo
    ensures Rectangular(logits, 8)
    ensures Gate(TokenIds(logits, 8), Confidences(logits, 8), Threshold) == [3, 0, 3]
    ensures Transcription(Gate(TokenIds(logits, 8), Confidences(logits, 8), Threshold), vocab) == "hihi"
    ensures LowConfidenceCount(Confidences(logits, 8), Threshold) == 1
  {
    ScenarioTopOne(logits);
    var ids, confidences := TokenIds(logits, 8), Confidences(logits, 8);
    ScenarioGate(ids, confidences);
    HiLoEntries(vocab);
    HiTwice(Gate(ids, confidences, Threshold), vocab);
  }

  lemma LoudPeak()
    ensures |Loud| == 8 && ArgMax(Loud) == 3 && RowMax(Loud) == 5
  {
    StrictMaximum(Loud, 3);
  }

  lemma QuietPeak()
    ensures |Quiet| == 8 && ArgMax(Quiet) == 7 && RowMax(Quiet) == -20
  {
    StrictMaximum(Quiet, 7);
  }

  lemma HiLoEntries(vocab: seq<string>)
    requires vocab == HiLo
    ensures |vocab| == 8 && vocab[3] == "hi"
  {
  }

  lemma ScenarioTopOne(logits: seq<seq<int>>)
    requires logits == [Loud, Quiet, Loud]
    ensures Rectangular(logits, 8)
    ensures Confidences(logits, 8) == [5, -20, 5]
    ensures TokenIds(logits, 8) == [3, 7, 3]
  {
    LoudPeak();
    QuietPeak();
    TopOneOfThree(Loud, Quiet, Loud);
  }

  lemma ScenarioGate(tokenIds: seq<nat>, confidences: seq<int>)
    requires tokenIds == [3, 7, 3] && confidences == [5, -20, 5]
    ensures Gate(tokenIds, confidences, Threshold) == [3, 0, 3]
    ensures LowConfidenceCount(confidences, Threshold) == 1
  {
    var g := Gate(tokenIds, confidences, Threshold);
    assert g[0] == 3 && g[1] == 0 && g[2] == 3;
    assert confidences[1..] == [-20, 5] && confidences[2..] == [5];
    assert LowConfidenceCount(confidences[2..], Threshold) == 0;
  }
}
