/**
 * Per-frame top-1 selection, confidence gating and the low-confidence count
 * (main.py lines 78-86 and 93). A frame's confidence is the largest logit of
 * its row and its token id the first index that attains it; a frame whose
 * confidence is not above the threshold keeps the blank id 0 instead.
 */
module FrameSelect {

  /** `np.max` of one row: the largest entry. */
  function RowMax(row: seq<int>): (m: int)
    requires |row| > 0
    ensures m in row
    ensures forall j :: 0 <= j < |row| ==> row[j] <= m
  {
    if |row| == 1 then row[0]
    else
      var rest := RowMax(row[1..]);
      if row[0] >= rest then row[0] else rest
  }

  /** `np.argmax` of one row: the first index of a largest entry. */
  function ArgMax(row: seq<int>): (k: nat)
    requires |row| > 0
    ensures k < |row|
    ensures forall j :: 0 <= j < |row| ==> row[j] <= row[k]
    ensures forall j :: 0 <= j < k ==> row[j] < row[k]
  {
    if |row| == 1 then 0
    else
      var k := ArgMax(row[..|row| - 1]);
      if row[|row| - 1] > row[k] then |row| - 1 else k
  }

  /** A strictly largest entry is both the maximum and the argmax. */
  lemma StrictMaximum(row: seq<int>, k: nat)
    requires k < |row|
    requires forall j :: 0 <= j < |row| && j != k ==> row[j] < row[k]
    ensures ArgMax(row) == k && RowMax(row) == row[k]
  {
    var m := RowMax(row);
    assert m in row;
  }

  /** Every row of the logits matrix has `width` entries. */
  predicate Rectangular(logits: seq<seq<int>>, width: nat)
  {
    forall t :: 0 <= t < |logits| ==> |logits[t]| == width
  }

  /** The confidence of every frame: the largest score of its row (main.py line 78). */
  function Confidences(logits: seq<seq<int>>, width: nat): (c: seq<int>)
    requires width > 0 && Rectangular(logits, width)
    ensures |c| == |logits|
  {
    seq(|logits|, t requires 0 <= t < |logits| => RowMax(logits[t]))
  }

  /** The top-1 id of every frame: the first index of its row's largest score (main.py line 79). */
  function TokenIds(logits: seq<seq<int>>, width: nat): (ids: seq<nat>)
    requires width > 0 && Rectangular(logits, width)
    ensures |ids| == |logits|
    ensures forall t :: 0 <= t < |ids| ==> ids[t] < width
  {
    seq(|logits|, t requires 0 <= t < |logits| => ArgMax(logits[t]))
  }

  /**
   * The top-1 id and the confidence of frame `t` agree: the id indexes the
   * confidence, no entry of the row exceeds it, and no earlier index
   * reaches it.
   */
  lemma TopOneAgrees(logits: seq<seq<int>>, width: nat, t: nat)
    requires width > 0 && Rectangular(logits, width) && t < |logits|
    ensures TokenIds(logits, width)[t] < width
    ensures logits[t][TokenIds(logits, width)[t]] == Confidences(logits, width)[t]
    ensures forall j :: 0 <= j < width ==> logits[t][j] <= Confidences(logits, width)[t]
    ensures forall j :: 0 <= j < TokenIds(logits, width)[t] ==>
              logits[t][j] < Confidences(logits, width)[t]
  {
    var row := logits[t];
    var k, m := ArgMax(row), RowMax(row);
    assert m in row;
    var i :| 0 <= i < |row| && row[i] == m;
    assert row[i] <= row[k];
  }

  /**
   * The gating of main.py lines 83-86: each frame keeps its top-1 id when its
   * confidence is above the threshold and becomes the blank 0 otherwise. The
   * ids and confidences are paired up frame by frame, stopping at the shorter.
   */
  function Gate(tokenIds: seq<nat>, confidences: seq<int>, threshold: int): (g: seq<nat>)
    ensures |g| == if |tokenIds| <= |confidences| then |tokenIds| else |confidences|
    ensures forall t :: 0 <= t < |g| ==> g[t] == tokenIds[t] || g[t] == 0
    ensures forall t :: 0 <= t < |g| && confidences[t] <= threshold ==> g[t] == 0
    ensures forall t :: 0 <= t < |g| && confidences[t] > threshold ==> g[t] == tokenIds[t]
  {
    if tokenIds == [] || confidences == [] then []
    else [if confidences[0] > threshold then tokenIds[0] else 0]
         + Gate(tokenIds[1..], confidences[1..], threshold)
  }

  /** The number of frames whose confidence is at or below the threshold (main.py line 93). */
  function LowConfidenceCount(confidences: seq<int>, threshold: int): (n: nat)
    ensures n <= |confidences|
    ensures n == 0 <==> forall t :: 0 <= t < |confidences| ==> confidences[t] > threshold
    ensures n == |confidences| <==> forall t :: 0 <= t < |confidences| ==> confidences[t] <= threshold
  {
    if confidences == [] then 0
    else
      (if confidences[0] <= threshold then 1 else 0)
      + LowConfidenceCount(confidences[1..], threshold)
  }

  /** Raising the threshold never lowers the low-confidence count. */
  lemma {:induction false} LowCountMonotone(confidences: seq<int>, lower: int, higher: int)
    requires lower <= higher
    ensures LowConfidenceCount(confidences, lower) <= LowConfidenceCount(confidences, higher)
  {
    if confidences != [] {
      LowCountMonotone(confidences[1..], lower, higher);
    }
  }

  /** The number of blank ids in a gated sequence. */
  function BlankCount(ids: seq<nat>): (n: nat)
    ensures n <= |ids|
  {
    if ids == [] then 0 else (if ids[0] == 0 then 1 else 0) + BlankCount(ids[1..])
  }

  /**
   * Every low-confidence frame is blank after gating, so the count reported
   * never exceeds the blanks in `predicted_ids`; when no frame has the blank
   * as its top-1 id, the two are equal.
   */
  lemma {:induction false} LowFramesAreBlank(tokenIds: seq<nat>, confidences: seq<int>, threshold: int)
    requires |tokenIds| == |confidences|
    ensures LowConfidenceCount(confidences, threshold)
            <= BlankCount(Gate(tokenIds, confidences, threshold))
    ensures (forall t :: 0 <= t < |tokenIds| ==> tokenIds[t] != 0)
            ==> LowConfidenceCount(confidences, threshold)
                == BlankCount(Gate(tokenIds, confidences, threshold))
  {
    if tokenIds != [] {
      LowFramesAreBlank(tokenIds[1..], confidences[1..], threshold);
      var g := Gate(tokenIds, confidences, threshold);
      assert g[1..] == Gate(tokenIds[1..], confidences[1..], threshold);
      if forall t :: 0 <= t < |tokenIds| ==> tokenIds[t] != 0 {
        assert forall t :: 0 <= t < |tokenIds[1..]| ==> tokenIds[1..][t] != 0 by {
          forall t | 0 <= t < |tokenIds[1..]| ensures tokenIds[1..][t] != 0 {
            assert tokenIds[1..][t] == tokenIds[t + 1];
          }
        }
      }
    }
  }

  /**
   * Raising the threshold only blanks more frames: a frame that still
   * carries a token under the higher threshold carries the same one under
   * the lower.
   */
  lemma GateMonotone(tokenIds: seq<nat>, confidences: seq<int>, lower: int, higher: int)
    requires lower <= higher
    ensures |Gate(tokenIds, confidences, lower)| == |Gate(tokenIds, confidences, higher)|
    ensures forall t :: 0 <= t < |Gate(tokenIds, confidences, higher)| &&
                        Gate(tokenIds, confidences, higher)[t] != 0
                        ==> Gate(tokenIds, confidences, lower)[t]
                            == Gate(tokenIds, confidences, higher)[t]
  {
  }
}
