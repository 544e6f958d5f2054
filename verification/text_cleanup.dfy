/**
 * The clean-up applied to the collapsed text at the end of `decode_ids`:
 * both token separators become a space, then whitespace is trimmed from
 * both ends (Python's `str.replace` twice, then `str.strip()`).
 */
module TextCleanup {

  /** The sub-word "word start" marker, U+2581 LOWER ONE EIGHTH BLOCK. */
  const WordStart: char := '\U{2581}'
  /** The pipe word-boundary marker. */
  const WordBoundary: char := '|'

  /**
   * Python's whitespace test for one character: the set `strip()` removes.
   * The space the separators are turned into belongs to it; neither separator
   * does.
   */
  predicate IsSpace(c: char)
    ensures c == ' ' ==> IsSpace(c)
    ensures c == WordStart || c == WordBoundary ==> !IsSpace(c)
  {
    ('\t' <= c <= '\r') || ('\U{1c}' <= c <= '\U{1f}') || c == ' ' ||
    c == '\U{85}' || c == '\U{a0}' || c == '\U{1680}' ||
    ('\U{2000}' <= c <= '\U{200a}') || c == '\U{2028}' || c == '\U{2029}' ||
    c == '\U{202f}' || c == '\U{205f}' || c == '\U{3000}'
  }

  /** Python's replace of every occurrence of one character by another. */
  function ReplaceChar(s: string, target: char, replacement: char): (r: string)
    ensures |r| == |s|
    ensures forall i :: 0 <= i < |s| ==> r[i] == (if s[i] == target then replacement else s[i])
  {
    if s == [] then []
    else [if s[0] == target then replacement else s[0]] + ReplaceChar(s[1..], target, replacement)
  }

  /** Python's left strip: drops the leading whitespace. */
  function LStrip(s: string): (r: string)
    ensures |r| <= |s| && r == s[|s| - |r|..]
    ensures r == [] || !IsSpace(r[0])
  {
    if s != [] && IsSpace(s[0]) then LStrip(s[1..]) else s
  }

  /** Python's right strip: drops the trailing whitespace. */
  function RStrip(s: string): (r: string)
    ensures |r| <= |s| && r == s[..|r|]
    ensures r == [] || !IsSpace(r[|r| - 1])
  {
    if s != [] && IsSpace(s[|s| - 1]) then RStrip(s[..|s| - 1]) else s
  }

  /** `lstrip` removes whitespace only. */
  lemma {:induction false} LStripRemovesSpace(s: string)
    ensures forall k :: 0 <= k < |s| - |LStrip(s)| ==> IsSpace(s[k])
  {
    if s != [] && IsSpace(s[0]) {
      LStripRemovesSpace(s[1..]);
      assert forall k :: 1 <= k < |s| - |LStrip(s)| ==> s[k] == s[1..][k - 1];
    }
  }

  /** `rstrip` removes whitespace only. */
  lemma {:induction false} RStripRemovesSpace(s: string)
    ensures forall k :: |RStrip(s)| <= k < |s| ==> IsSpace(s[k])
  {
    if s != [] && IsSpace(s[|s| - 1]) {
      RStripRemovesSpace(s[..|s| - 1]);
      assert forall k :: |RStrip(s)| <= k < |s| - 1 ==> s[k] == s[..|s| - 1][k];
    }
  }

  /** Python's strip of both ends: no whitespace left at either end. */
  function Strip(s: string): (r: string)
    ensures |r| <= |s|
    ensures r == [] || (!IsSpace(r[0]) && !IsSpace(r[|r| - 1]))
  {
    RStrip(LStrip(s))
  }

  /**
   * `strip()` keeps one contiguous slice of its input and everything it
   * drops, before or after that slice, is whitespace.
   */
  lemma StripRemovesOnlySpace(s: string)
    ensures var lo := |s| - |LStrip(s)|;
      && lo + |Strip(s)| <= |s|
      && Strip(s) == s[lo..lo + |Strip(s)|]
      && (forall k :: 0 <= k < lo ==> IsSpace(s[k]))
      && (forall k :: lo + |Strip(s)| <= k < |s| ==> IsSpace(s[k]))
  {
    var l := LStrip(s);
    var lo := |s| - |l|;
    LStripRemovesSpace(s);
    RStripRemovesSpace(l);
    forall k | lo + |Strip(s)| <= k < |s| ensures IsSpace(s[k]) {
      assert s[k] == l[k - lo];
    }
  }

  /**
   * The clean-up of main.py line 31: each word-start marker, then each
   * word-boundary marker, becomes a space, and the ends are stripped.
   */
  function Clean(s: string): (r: string)
    ensures WordStart !in r && WordBoundary !in r
    ensures r == [] || (!IsSpace(r[0]) && !IsSpace(r[|r| - 1]))
    ensures |r| <= |s|
  {
    var spaced := ReplaceChar(s, WordStart, ' ');
    var joined := ReplaceChar(spaced, WordBoundary, ' ');
    ReplaceRemoves(s, WordStart, ' ');
    ReplaceRemoves(spaced, WordBoundary, ' ');
    ReplaceKeepsAbsent(spaced, WordBoundary, ' ', WordStart);
    StripKeepsAbsent(joined, WordStart);
    StripKeepsAbsent(joined, WordBoundary);
    Strip(joined)
  }

  /** After `replace`, the replaced character no longer occurs. */
  lemma ReplaceRemoves(s: string, target: char, replacement: char)
    requires target != replacement
    ensures target !in ReplaceChar(s, target, replacement)
  {
    var r := ReplaceChar(s, target, replacement);
    forall i | 0 <= i < |r| ensures r[i] != target { }
  }

  /** `replace` introduces no character other than the replacement. */
  lemma ReplaceKeepsAbsent(s: string, target: char, replacement: char, c: char)
    requires c !in s && c != replacement
    ensures c !in ReplaceChar(s, target, replacement)
  {
    var r := ReplaceChar(s, target, replacement);
    forall i | 0 <= i < |r| ensures r[i] != c {
      assert s[i] in s;
    }
  }

  /** `strip` introduces no character. */
  lemma StripKeepsAbsent(s: string, c: char)
    requires c !in s
    ensures c !in Strip(s)
  {
    var l := LStrip(s);
    assert c !in l;
  }

  /** Replacing a character that does not occur changes nothing. */
  lemma {:induction false} ReplaceAbsent(s: string, target: char, replacement: char)
    requires target !in s
    ensures ReplaceChar(s, target, replacement) == s
  {
    if s != [] {
      assert target !in s[1..] by { assert forall c :: c in s[1..] ==> c in s; }
      ReplaceAbsent(s[1..], target, replacement);
    }
  }

  /** A string with no whitespace at either end is its own `strip()`. */
  lemma StripTrimmed(s: string)
    requires s == [] || (!IsSpace(s[0]) && !IsSpace(s[|s| - 1]))
    ensures Strip(s) == s
  {
  }

  /** Text with no separator and no whitespace at either end comes through the clean-up unchanged. */
  lemma CleanKeepsCleanText(w: string)
    requires WordStart !in w && WordBoundary !in w
    requires w == [] || (!IsSpace(w[0]) && !IsSpace(w[|w| - 1]))
    ensures Clean(w) == w
  {
    ReplaceAbsent(w, WordStart, ' ');
    ReplaceAbsent(w, WordBoundary, ' ');
    StripTrimmed(w);
  }

  /** Cleaning is idempotent: clean text survives a second clean-up unchanged. */
  lemma CleanIdempotent(s: string)
    ensures Clean(Clean(s)) == Clean(s)
  {
    CleanKeepsCleanText(Clean(s));
  }
}
