/**
 The size order the driver prunes with: sequences of entries sorted by size,
 the two binary searches over them (std::lower_bound and std::upper_bound), the
 sort itself, and the size bound ceil(size / threshold) past which no candidate
 can pass the ratio gate.
 */
module SizeOrder {
  import opened FileData
  import opened Similarity

  ghost predicate SortedBySize(es: seq<Entry>) {
    forall a, b :: 0 <= a < b < |es| ==> es[a].file.size <= es[b].file.size
  }

  /** The comparator handed to std::lower_bound: the element's size is below
      the searched size. */
  predicate LowerBoundLess(candidate: nat, size: nat) {
    candidate < size
  }

  /** The comparator handed to std::upper_bound: the searched size is below
      the element's size. */
  predicate UpperBoundLess(size: nat, candidate: nat) {
    size < candidate
  }

  /** Whether a candidate of size `candidate` is on the searched side of a
      receiver of size `size`: at least as large for lower_bound, strictly
      larger for upper_bound. lower_bound stops at the first element its
      comparator rejects, upper_bound at the first one its comparator accepts. */
  predicate Eligible(size: nat, candidate: nat, strict: bool): (e: bool)
    ensures e <==> (if strict then UpperBoundLess(size, candidate) else !LowerBoundLess(candidate, size))
  {
    if strict then candidate > size else candidate >= size
  }

  /** The lower_bound side of a first-collection receiver and the upper_bound
      side of a second-collection receiver split every pair of sizes: a pair is
      on exactly one of the two sides. */
  lemma EligibleSplit(size1: nat, size2: nat)
    ensures Eligible(size1, size2, false) <==> !Eligible(size2, size1, true)
  {
  }

  /** std::lower_bound (strict == false) or std::upper_bound (strict == true)
      by size: the first index whose entry is eligible for a receiver of size
      `size`. */
  method FirstEligible(es: seq<Entry>, size: nat, strict: bool) returns (lo: nat)
    requires SortedBySize(es)
    ensures lo <= |es|
    ensures forall k :: 0 <= k < lo ==> !Eligible(size, es[k].file.size, strict)
    ensures forall k :: lo <= k < |es| ==> Eligible(size, es[k].file.size, strict)
  {
    lo := 0;
    var hi := |es|;
    while lo < hi
      invariant 0 <= lo <= hi <= |es|
      invariant forall k :: 0 <= k < lo ==> !Eligible(size, es[k].file.size, strict)
      invariant forall k :: hi <= k < |es| ==> Eligible(size, es[k].file.size, strict)
      decreases hi - lo
    {
      var mid := lo + (hi - lo) / 2;
      if Eligible(size, es[mid].file.size, strict) {
        hi := mid;
      } else {
        lo := mid + 1;
      }
    }
  }

  /** The smallest integer not below x. */
  function Ceil(x: real): (c: int)
    ensures c as real >= x
    ensures (c - 1) as real < x
  {
    if x.Floor as real == x then x.Floor else x.Floor + 1
  }

  /** next_size = ceil(size / threshold): the largest size a file of size
      `size` can be similar to. */
  function NextSize(size: nat, threshold: real): (n: nat)
    requires 0.0 < threshold
    ensures n as real >= size as real / threshold
    ensures (n - 1) as real < size as real / threshold
  {
    var x := size as real / threshold;
    assert x * threshold == size as real;
    var c := Ceil(x);
    c
  }

  /** Pruning soundness: a candidate beyond next_size fails the ratio gate,
      so stopping the candidate scan there loses no similar pair. */
  lemma BeyondNextSizeFailsGate(size: nat, candidate: nat, threshold: real)
    requires 0.0 < threshold
    requires candidate > NextSize(size, threshold)
    ensures Gate(size, candidate, threshold) == Reject
  {
    var n := NextSize(size, threshold);
    assert candidate as real > size as real / threshold;
    assert candidate as real * threshold > size as real;
  }

  /** Inserts e into a sequence after every leading entry that is smaller. */
  function Insert(e: Entry, es: seq<Entry>): (r: seq<Entry>)
    ensures multiset(r) == multiset(es) + multiset{e}
    ensures |r| == |es| + 1
    ensures r[0] == e || (|es| > 0 && r[0] == es[0])
  {
    if |es| == 0 then [e]
    else if e.file.size <= es[0].file.size then [e] + es
    else
      assert es == [es[0]] + es[1..];
      [es[0]] + Insert(e, es[1..])
  }

  /** Inserting into a size-sorted sequence keeps it sorted. */
  lemma {:induction false} InsertKeepsOrder(e: Entry, es: seq<Entry>)
    requires SortedBySize(es)
    ensures SortedBySize(Insert(e, es))
  {
    if |es| > 0 && e.file.size > es[0].file.size {
      var rest := Insert(e, es[1..]);
      InsertKeepsOrder(e, es[1..]);
      assert es[0].file.size <= rest[0].file.size;
      var r := Insert(e, es);
      assert r == [es[0]] + rest;
      forall a, b | 0 <= a < b < |r|
        ensures r[a].file.size <= r[b].file.size
      {
        if a == 0 {
          assert r[b] == rest[b - 1];
        } else {
          assert r[a] == rest[a - 1] && r[b] == rest[b - 1];
        }
      }
    }
  }

  /** std::sort by size: some size-sorted permutation of the entries. */
  function SortBySize(es: seq<Entry>): (r: seq<Entry>)
    ensures SortedBySize(r)
    ensures multiset(r) == multiset(es)
  {
    if |es| == 0 then []
    else
      assert es == [es[0]] + es[1..];
      var rest := SortBySize(es[1..]);
      InsertKeepsOrder(es[0], rest);
      Insert(es[0], rest)
  }
}
