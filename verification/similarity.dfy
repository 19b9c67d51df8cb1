/**
 file_data::similar: a size-ratio gate that is decided from the two sizes
 alone, followed by a byte scan over both buffers that can only reject. The
 reported similarity is the size ratio, whatever the scan found.

 The scan loop of the implementation steps an iterator past the end of its
 buffer in two places (the outer `++it` after the inner loop consumed the whole
 smaller buffer, and `++pos` after the run stopped at the end of the larger
 one). This model reads it with explicit bounds: a run stops as soon as either
 cursor reaches its end; when the smaller buffer is used up the scan accepts,
 and when only the larger buffer is used up the outer loop skips one byte of
 the smaller buffer and searches the next one from the start of the larger.
 Sizes and the threshold are exact: `float` rounding is not modelled.
 */
module Similarity {
  import opened FileData

  datatype Option<T> = None | Some(value: T)

  /** std::find over large[j..]: the first index at or after j holding b. */
  function FindFrom(large: seq<byte>, b: byte, j: nat): (r: Option<nat>)
    requires j <= |large|
    decreases |large| - j
    ensures r.None? <==> forall k :: j <= k < |large| ==> large[k] != b
    ensures r.Some? ==> j <= r.value < |large| && large[r.value] == b
    ensures r.Some? ==> forall k :: j <= k < r.value ==> large[k] != b
  {
    if j == |large| then None
    else if large[j] == b then Some(j)
    else FindFrom(large, b, j + 1)
  }

  /** std::find(other_buffer.begin(), other_buffer.end(), b): every search
      starts again from the first byte of the larger buffer. */
  function Find(large: seq<byte>, b: byte): (r: Option<nat>)
    ensures r.None? <==> b !in large
    ensures r.Some? ==> r.value < |large| && large[r.value] == b
    ensures r.Some? ==> b !in large[..r.value]
  {
    FindFrom(large, b, 0)
  }

  /** The run phase after a successful search: on equal bytes both cursors
      advance, on a mismatch only the cursor in the larger buffer does, and the
      phase ends as soon as either cursor is at its end. The result is where the
      cursor in the smaller buffer stopped; every byte it passed was matched by
      a distinct byte of the larger buffer. */
  function Advance(small: seq<byte>, large: seq<byte>, i: nat, j: nat): (r: nat)
    requires i <= |small| && j <= |large|
    decreases |large| - j
    ensures i <= r <= |small|
    ensures r - i <= |large| - j
  {
    if i == |small| || j == |large| then i
    else if large[j] == small[i] then Advance(small, large, i + 1, j + 1)
    else Advance(small, large, i, j + 1)
  }

  /** small[i..] occurs in order, not necessarily contiguously, within large[j..]. */
  ghost predicate Embeds(small: seq<byte>, large: seq<byte>, i: nat, j: nat)
    requires i <= |small| && j <= |large|
    decreases |large| - j
  {
    i == |small|
    || (j < |large| && ((large[j] == small[i] && Embeds(small, large, i + 1, j + 1))
                        || Embeds(small, large, i, j + 1)))
  }

  /** Starting later in the larger buffer never helps. */
  lemma {:induction false} EmbedsLater(small: seq<byte>, large: seq<byte>, i: nat, j: nat)
    requires i <= |small| && j < |large|
    requires Embeds(small, large, i, j + 1)
    ensures Embeds(small, large, i, j)
  {
  }

  /** If small[i..] embeds in large[j..] and the first bytes agree, matching
      them loses nothing: the greedy choice of the run phase is safe. */
  lemma {:induction false} GreedyMatchSafe(small: seq<byte>, large: seq<byte>, i: nat, j: nat)
    requires i < |small| && j < |large|
    requires large[j] == small[i]
    requires Embeds(small, large, i, j)
    ensures Embeds(small, large, i + 1, j + 1)
    decreases |large| - j
  {
    if !(Embeds(small, large, i + 1, j + 1)) {
      assert Embeds(small, large, i, j + 1);
      EmbedsFromLaterMatch(small, large, i, j + 1);
    }
  }

  /** If small[i..] embeds in large[j..], then small[i+1..] embeds in large[j..]. */
  lemma {:induction false} EmbedsFromLaterMatch(small: seq<byte>, large: seq<byte>, i: nat, j: nat)
    requires i < |small| && j <= |large|
    requires Embeds(small, large, i, j)
    ensures Embeds(small, large, i + 1, j)
    decreases |large| - j
  {
    assert j < |large|;
    if large[j] == small[i] && Embeds(small, large, i + 1, j + 1) {
      EmbedsLater(small, large, i + 1, j);
    } else {
      EmbedsFromLaterMatch(small, large, i, j + 1);
      EmbedsLater(small, large, i + 1, j);
    }
  }

  /** The run phase consumes the rest of the smaller buffer exactly when that
      rest occurs in order within the rest of the larger buffer. */
  lemma {:induction false} AdvanceFindsEmbedding(small: seq<byte>, large: seq<byte>, i: nat, j: nat)
    requires i <= |small| && j <= |large|
    ensures Advance(small, large, i, j) == |small| <==> Embeds(small, large, i, j)
    decreases |large| - j
  {
    if i == |small| || j == |large| {
    } else if large[j] == small[i] {
      AdvanceFindsEmbedding(small, large, i + 1, j + 1);
      if Embeds(small, large, i, j) {
        GreedyMatchSafe(small, large, i, j);
      }
    } else {
      AdvanceFindsEmbedding(small, large, i, j + 1);
    }
  }

  /** Cutting the smaller buffer at k changes the run only by stopping it at
      k: before that cut it stops where it stopped on the whole buffer. */
  lemma {:induction false} AdvancePrefix(small: seq<byte>, large: seq<byte>, i: nat, j: nat, k: nat)
    requires i <= k <= |small| && j <= |large|
    ensures Advance(small[..k], large, i, j)
            == if Advance(small, large, i, j) < k then Advance(small, large, i, j) else k
    decreases |large| - j
  {
    if i == k || j == |large| {
    } else {
      assert small[..k][i] == small[i];
      if large[j] == small[i] {
        AdvancePrefix(small, large, i + 1, j + 1, k);
      } else {
        AdvancePrefix(small, large, i, j + 1, k);
      }
    }
  }

  /** small[i..k] occurs in order within large[j..] exactly when the run from
      (i, j) gets at least as far as k. */
  lemma EmbedsPrefixIff(small: seq<byte>, large: seq<byte>, i: nat, j: nat, k: nat)
    requires i <= k <= |small| && j <= |large|
    ensures Embeds(small[..k], large, i, j) <==> k <= Advance(small, large, i, j)
  {
    AdvancePrefix(small, large, i, j, k);
    AdvanceFindsEmbedding(small[..k], large, i, j);
  }

  /** The run stops at the end of the longest stretch small[i..r] that occurs
      in order within large[j..]: that stretch embeds, one byte more does not. */
  lemma AdvanceLongest(small: seq<byte>, large: seq<byte>, i: nat, j: nat)
    requires i <= |small| && j <= |large|
    ensures var r := Advance(small, large, i, j);
            && Embeds(small[..r], large, i, j)
            && (r < |small| ==> !Embeds(small[..r + 1], large, i, j))
  {
    var r := Advance(small, large, i, j);
    EmbedsPrefixIff(small, large, i, j, r);
    if r < |small| {
      EmbedsPrefixIff(small, large, i, j, r + 1);
    }
  }

  /** The outer loop of the scan, from byte i of the smaller buffer on: search
      the byte, reject if it is absent, otherwise run from just after both hits.
      A run that used up the larger buffer leaves the outer `++it` to skip one
      byte of the smaller buffer. */
  function ScanFrom(small: seq<byte>, large: seq<byte>, i: nat): (ok: bool)
    requires i <= |small|
    decreases |small| - i
    ensures (forall k :: i <= k < |small| ==> small[k] in large) ==> ok
    ensures i < |small| && small[i] !in large ==> !ok
    ensures (i < |small| && Find(large, small[i]).Some?
             && Embeds(small, large, i + 1, Find(large, small[i]).value + 1)) ==> ok
  {
    if i == |small| then true
    else match Find(large, small[i])
      case None => false
      case Some(j) =>
        var stop := Advance(small, large, i + 1, j + 1);
        AdvanceFindsEmbedding(small, large, i + 1, j + 1);
        if stop == |small| then true else ScanFrom(small, large, stop + 1)
  }

  /** The content scan of similar over the whole smaller buffer. */
  function Scan(small: seq<byte>, large: seq<byte>): (ok: bool)
    ensures (forall k :: 0 <= k < |small| ==> small[k] in large) ==> ok
    ensures |small| > 0 && small[0] !in large ==> !ok
  {
    ScanFrom(small, large, 0)
  }

  /** One step of the outer loop: when the run after the first occurrence of
      byte i stops at `stop` inside the smaller buffer (small[i+1..stop] occurs
      in order after that occurrence and one byte more does not), the outer
      `++it` skips byte `stop`, and the scan from i decides exactly as the scan
      from stop + 1. Chained, this carries the scan through every searched byte. */
  lemma ScanContinuesAfterLongestRun(small: seq<byte>, large: seq<byte>, i: nat, stop: nat)
    requires i < |small| && small[i] in large
    requires i + 1 <= stop < |small|
    requires Embeds(small[..stop], large, i + 1, Find(large, small[i]).value + 1)
    requires !Embeds(small[..stop + 1], large, i + 1, Find(large, small[i]).value + 1)
    ensures ScanFrom(small, large, i) == ScanFrom(small, large, stop + 1)
  {
    var j := Find(large, small[i]).value;
    EmbedsPrefixIff(small, large, i + 1, j + 1, stop);
    EmbedsPrefixIff(small, large, i + 1, j + 1, stop + 1);
    assert Advance(small, large, i + 1, j + 1) == stop;
  }

  /** The byte searched after a run: when the run after byte i stops at
      `stop` and byte stop + 1 is absent from the larger buffer, the scan
      rejects. */
  lemma ScanRejectsAfterLongestRun(small: seq<byte>, large: seq<byte>, i: nat, stop: nat)
    requires i < |small| && small[i] in large
    requires i + 1 <= stop && stop + 1 < |small|
    requires Embeds(small[..stop], large, i + 1, Find(large, small[i]).value + 1)
    requires !Embeds(small[..stop + 1], large, i + 1, Find(large, small[i]).value + 1)
    requires small[stop + 1] !in large
    ensures !ScanFrom(small, large, i)
  {
    ScanContinuesAfterLongestRun(small, large, i, stop);
  }

  /** A byte of the smaller buffer that follows a run which used up the larger
      buffer is skipped, never searched: here 9 occurs nowhere in the larger
      buffer, yet the scan accepts. */
  lemma ScanSkipsByteAfterExhaustedRun()
    ensures 9 as byte !in [1 as byte, 2, 3]
    ensures Scan([2 as byte, 9, 1], [1 as byte, 2, 3])
  {
    var small, large := [2 as byte, 9, 1], [1 as byte, 2, 3];
    assert Find(large, 2) == Some(1);
    assert Advance(small, large, 1, 2) == 1;
    assert Find(large, 1) == Some(0);
    assert Advance(small, large, 3, 1) == 3;
  }

  /** A later searched byte that is absent rejects even when the first byte is
      present: after the run on 1 uses up the larger buffer, the first 9 is
      skipped and the second is searched and not found. */
  lemma ScanRejectsLaterAbsentByte()
    ensures 1 as byte in [1 as byte]
    ensures !Scan([1 as byte, 9, 9], [1 as byte])
  {
    var small, large := [1 as byte, 9, 9], [1 as byte];
    assert Find(large, 1) == Some(0);
    assert Advance(small, large, 1, 1) == 1;
    assert Find(large, 9) == None;
  }

  /** The outcome of similar: the bool it returns and, when true, the value it
      stores through its `similarity` out-parameter. */
  datatype Verdict = Reject | Accept(similarity: real)

  /** size / other_size, computed in exact arithmetic. */
  function Ratio(size: nat, otherSize: nat): real
    requires otherSize > 0
  {
    size as real / otherSize as real
  }

  /** The part of similar that needs only the two sizes: the empty-file guard
      and the ratio gate. Its acceptance carries the score similar reports. */
  function Gate(size: nat, otherSize: nat, threshold: real): (v: Verdict)
    ensures v.Accept? <==> otherSize > 0 && size as real >= threshold * otherSize as real
    ensures v.Accept? ==> v.similarity == Ratio(size, otherSize) && v.similarity >= threshold
  {
    if otherSize == 0 then Reject
    else if Ratio(size, otherSize) < threshold then Reject
    else Accept(Ratio(size, otherSize))
  }

  /** file_data::similar, with the receiver the smaller file. The gate decides
      every rejection that the sizes alone can decide, before any byte is
      looked at; the scan can then only turn the gate's acceptance into a
      rejection, and never changes the score. */
  function Similar(f: FileRecord, other: FileRecord, threshold: real): (v: Verdict)
    requires f.size <= other.size
    ensures Gate(f.size, other.size, threshold) == Reject ==> v == Reject
    ensures v == Reject || v == Gate(f.size, other.size, threshold)
    ensures v.Accept? <==> Gate(f.size, other.size, threshold).Accept? && Scan(f.content, other.content)
  {
    if other.size == 0 then Reject
    else if Ratio(f.size, other.size) < threshold then Reject
    else if !Scan(f.content, other.content) then Reject
    else
      var similarity := Ratio(f.size, other.size);
      if similarity >= threshold then Accept(similarity) else Reject
  }

  /** An empty larger file is never similar to anything, whatever the threshold. */
  lemma EmptyOtherNeverSimilar(f: FileRecord, other: FileRecord, threshold: real)
    requires f.size <= other.size
    requires other.size == 0
    ensures Similar(f, other, threshold) == Reject
  {
  }

  /** A size ratio below the threshold rejects, whatever either file holds. */
  lemma RatioBelowThresholdRejects(f: FileRecord, other: FileRecord, threshold: real)
    requires f.size <= other.size
    requires other.size > 0 && Ratio(f.size, other.size) < threshold
    ensures Similar(f, other, threshold) == Reject
  {
  }

  /** If the first byte of the smaller file occurs nowhere in the larger one,
      the scan rejects. */
  lemma FirstByteAbsentRejects(f: FileRecord, other: FileRecord, threshold: real)
    requires f.size <= other.size
    requires f.size > 0 && f.content[0] !in other.content
    ensures Similar(f, other, threshold) == Reject
  {
  }

  /** At threshold 1 only files of the same size can be similar. */
  lemma FullThresholdNeedsSameSize(f: FileRecord, other: FileRecord)
    requires f.size <= other.size
    requires Similar(f, other, 1.0).Accept?
    ensures f.size == other.size
  {
  }

  /** The score depends on the sizes only: two accepted pairs with the same
      sizes report the same similarity, whatever their bytes. */
  lemma ScoreIgnoresContent(f: FileRecord, other: FileRecord, f': FileRecord, other': FileRecord, threshold: real)
    requires f.size <= other.size && f'.size == f.size && other'.size == other.size
    requires Similar(f, other, threshold).Accept? && Similar(f', other', threshold).Accept?
    ensures Similar(f, other, threshold).similarity == Similar(f', other', threshold).similarity
  {
  }

  /** A buffer scanned against itself is accepted. */
  lemma ScanOwnBytes(s: seq<byte>)
    ensures Scan(s, s)
  {
    forall k | 0 <= k < |s|
      ensures s[k] in s
    {
    }
  }

  /** Two non-empty files with the same bytes are similar with score 1 under
      every threshold in (0, 1]. */
  lemma SameContentSimilar(f: FileRecord, other: FileRecord, threshold: real)
    requires 0.0 < threshold <= 1.0
    requires f.content == other.content && |f.content| > 0
    ensures Similar(f, other, threshold) == Accept(1.0)
  {
    ScanOwnBytes(f.content);
    assert f.size == other.size;
    assert Ratio(f.size, other.size) == 1.0;
  }
}
