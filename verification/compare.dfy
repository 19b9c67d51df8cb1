/**
 The comparison driver (compare_files without its directory reads and its
 console output): an all-pairs exact pass, a sort of both collections by
 size, a forward similarity pass from the first collection into the second
 (candidates found with lower_bound), a backward pass from the second into the
 first (candidates found with upper_bound), and the files whose flag was never
 set, which are the unique ones.
 */
module Compare {
  import opened FileData
  import opened Similarity
  import opened SizeOrder

  /** A pair recorded by the exact pass, as positions in the first and second collection. */
  datatype IndexPair = IndexPair(i: nat, j: nat)

  /** Nested-loop order of the exact pass. */
  predicate PairBefore(p: IndexPair, q: IndexPair) {
    p.i < q.i || (p.i == q.i && p.j < q.j)
  }

  /** The files an entry sequence carries, in order. */
  function FilesOf(es: seq<Entry>): seq<FileRecord> {
    seq(|es|, k requires 0 <= k < |es| => es[k].file)
  }

  /** Reference list of one row of the exact pass: the equal pairs of f
      (position i of the first collection) with the first j files of the
      second collection, in loop order. */
  function RowPairs(f: FileRecord, i: nat, files2: seq<FileRecord>, j: nat): seq<IndexPair>
    requires j <= |files2|
  {
    if j == 0 then []
    else RowPairs(f, i, files2, j - 1) + (if Equals(f, files2[j - 1]) then [IndexPair(i, j - 1)] else [])
  }

  /** A reference row holds the equal pairs of f among the first j files
      once each, in increasing position. */
  lemma {:induction false} RowPairsInOrder(f: FileRecord, i: nat, files2: seq<FileRecord>, j: nat)
    requires j <= |files2|
    ensures forall p :: p in RowPairs(f, i, files2, j) <==> p.i == i && p.j < j && Equals(f, files2[p.j])
    ensures forall a, b :: 0 <= a < b < |RowPairs(f, i, files2, j)| ==>
              RowPairs(f, i, files2, j)[a].j < RowPairs(f, i, files2, j)[b].j
    ensures forall a :: 0 <= a < |RowPairs(f, i, files2, j)| ==> RowPairs(f, i, files2, j)[a].j < j
  {
    if j > 0 {
      var prev := RowPairs(f, i, files2, j - 1);
      var last: seq<IndexPair> := if Equals(f, files2[j - 1]) then [IndexPair(i, j - 1)] else [];
      assert RowPairs(f, i, files2, j) == prev + last;
      RowPairsInOrder(f, i, files2, j - 1);
      forall p: IndexPair
        ensures p in prev + last <==> p.i == i && p.j < j && Equals(f, files2[p.j])
      {
        assert p in prev + last <==> p in prev || p in last;
      }
      forall a | 0 <= a < |prev + last|
        ensures (prev + last)[a].j < j
      {
        if a >= |prev| {
          assert (prev + last)[a] == last[a - |prev|];
        }
      }
      forall a, b | 0 <= a < b < |prev + last|
        ensures (prev + last)[a].j < (prev + last)[b].j
      {
        if b >= |prev| {
          assert (prev + last)[b] == last[b - |prev|];
        }
      }
    }
  }

  /** Reference list of the exact pass over the first i rows: the rows of
      RowPairs one after the other. */
  function EqualIndexPairs(files1: seq<FileRecord>, files2: seq<FileRecord>, i: nat): seq<IndexPair>
    requires i <= |files1|
  {
    if i == 0 then []
    else EqualIndexPairs(files1, files2, i - 1) + RowPairs(files1[i - 1], i - 1, files2, |files2|)
  }

  /** The reference list holds every equal cross pair of the first i rows
      once, in nested-loop order. */
  lemma {:induction false} EqualIndexPairsInOrder(files1: seq<FileRecord>, files2: seq<FileRecord>, i: nat)
    requires i <= |files1|
    ensures forall p :: p in EqualIndexPairs(files1, files2, i) <==>
              p.i < i && p.j < |files2| && Equals(files1[p.i], files2[p.j])
    ensures forall a, b :: 0 <= a < b < |EqualIndexPairs(files1, files2, i)| ==>
              PairBefore(EqualIndexPairs(files1, files2, i)[a], EqualIndexPairs(files1, files2, i)[b])
    ensures forall a :: 0 <= a < |EqualIndexPairs(files1, files2, i)| ==> EqualIndexPairs(files1, files2, i)[a].i < i
  {
    if i > 0 {
      var prev := EqualIndexPairs(files1, files2, i - 1);
      var row := RowPairs(files1[i - 1], i - 1, files2, |files2|);
      assert EqualIndexPairs(files1, files2, i) == prev + row;
      EqualIndexPairsInOrder(files1, files2, i - 1);
      RowPairsInOrder(files1[i - 1], i - 1, files2, |files2|);
      RowsAppendInOrder(prev, row, i - 1);
      forall p: IndexPair
        ensures p in prev + row <==> p.i < i && p.j < |files2| && Equals(files1[p.i], files2[p.j])
      {
        assert p in prev + row <==> p in prev || p in row;
      }
    }
  }

  /** Appending row i after the rows before it keeps nested-loop order. */
  lemma RowsAppendInOrder(prev: seq<IndexPair>, row: seq<IndexPair>, i: nat)
    requires forall a, b :: 0 <= a < b < |prev| ==> PairBefore(prev[a], prev[b])
    requires forall a :: 0 <= a < |prev| ==> prev[a].i < i
    requires forall p :: p in row ==> p.i == i
    requires forall a, b :: 0 <= a < b < |row| ==> row[a].j < row[b].j
    ensures forall a, b :: 0 <= a < b < |prev + row| ==> PairBefore((prev + row)[a], (prev + row)[b])
    ensures forall a :: 0 <= a < |prev + row| ==> (prev + row)[a].i < i + 1
  {
    var all := prev + row;
    forall a, b | 0 <= a < b < |all|
      ensures PairBefore(all[a], all[b])
    {
      if b >= |prev| {
        assert all[b] == row[b - |prev|];
        assert row[b - |prev|] in row;
        if a >= |prev| {
          assert all[a] == row[a - |prev|];
          assert row[a - |prev|] in row;
        }
      }
    }
    forall a | 0 <= a < |all|
      ensures all[a].i < i + 1
    {
      if a >= |prev| {
        assert all[a] == row[a - |prev|];
        assert row[a - |prev|] in row;
      }
    }
  }

  /** Two lists in strict nested-loop order with the same members are the
      same list. */
  lemma {:induction false} SameMembersInOrder(xs: seq<IndexPair>, ys: seq<IndexPair>)
    requires forall a, b :: 0 <= a < b < |xs| ==> PairBefore(xs[a], xs[b])
    requires forall a, b :: 0 <= a < b < |ys| ==> PairBefore(ys[a], ys[b])
    requires forall p :: p in xs <==> p in ys
    ensures xs == ys
  {
    assert |ys| == 0 || ys[0] in ys;
    assert |xs| == 0 || xs[0] in xs;
    if |xs| > 0 {
      HeadIsLeast(xs, ys[0]);
      HeadIsLeast(ys, xs[0]);
      assert xs[0] == ys[0];
      forall p
        ensures p in xs[1..] <==> p in ys[1..]
      {
        if p in xs[1..] {
          var a :| 0 <= a < |xs[1..]| && xs[1..][a] == p;
          assert PairBefore(xs[0], xs[a + 1]);
          assert p in ys;
          var b :| 0 <= b < |ys| && ys[b] == p;
          assert b != 0;
          assert ys[1..][b - 1] == p;
        }
        if p in ys[1..] {
          var b :| 0 <= b < |ys[1..]| && ys[1..][b] == p;
          assert PairBefore(ys[0], ys[b + 1]);
          assert p in xs;
          var a :| 0 <= a < |xs| && xs[a] == p;
          assert a != 0;
          assert xs[1..][a - 1] == p;
        }
      }
      SameMembersInOrder(xs[1..], ys[1..]);
      assert xs == [xs[0]] + xs[1..] && ys == [ys[0]] + ys[1..];
    }
  }

  /** In a list in strict nested-loop order, every member is the head or
      comes after it. */
  lemma HeadIsLeast(xs: seq<IndexPair>, q: IndexPair)
    requires forall a, b :: 0 <= a < b < |xs| ==> PairBefore(xs[a], xs[b])
    requires q in xs
    ensures q == xs[0] || PairBefore(xs[0], q)
  {
    var a :| 0 <= a < |xs| && xs[a] == q;
    if a > 0 {
      assert PairBefore(xs[0], xs[a]);
    }
  }

  /** A pair recorded by a similarity pass, as positions in the receiver and
      candidate collections, with the similarity similar reported. */
  datatype Hit = Hit(receiver: nat, candidate: nat, similarity: real)

  /** Loop order of a similarity pass. */
  predicate HitBefore(h: Hit, g: Hit) {
    h.receiver < g.receiver || (h.receiver == g.receiver && h.candidate < g.candidate)
  }

  /** A similarity pass accepts a pair: the candidate is on the searched side
      of the receiver, and similar says yes. */
  ghost predicate Accepted(receiver: FileRecord, candidate: FileRecord, strict: bool, threshold: real) {
    Eligible(receiver.size, candidate.size, strict) && Similar(receiver, candidate, threshold).Accept?
  }

  /** One row of the exact pass: one file of the first collection against
      every file of the second, in order. */
  method ExactRow(receiver: Entry, i: nat, others: seq<Entry>)
    returns (row: seq<IndexPair>, re: Entry, os: seq<Entry>)
    ensures re.file == receiver.file
    ensures re.matched <==> (receiver.matched || exists l :: 0 <= l < |others| && Equals(receiver.file, others[l].file))
    ensures |os| == |others|
    ensures forall l :: 0 <= l < |os| ==> os[l].file == others[l].file
    ensures forall l :: 0 <= l < |os| ==> (os[l].matched <==> (others[l].matched || Equals(receiver.file, others[l].file)))
    ensures forall p :: p in row <==> p.i == i && p.j < |others| && Equals(receiver.file, others[p.j].file)
    ensures forall a, b :: 0 <= a < b < |row| ==> row[a].j < row[b].j
  {
    row, re, os := [], receiver, others;
    var j := 0;
    while j < |os|
      invariant RowState(receiver, i, others, j, row, re, os)
      decreases |os| - j
    {
      RowStep(receiver, i, others, j, row, re, os);
      if Equals(re.file, os[j].file) {
        row := row + [IndexPair(i, j)];
        re := re.(matched := true);
        os := os[j := os[j].(matched := true)];
      }
      j := j + 1;
    }
  }

  /** The loop state of ExactRow after the first j files of the second
      collection have been compared. */
  ghost predicate RowState(receiver: Entry, i: nat, others: seq<Entry>, j: nat,
                           row: seq<IndexPair>, re: Entry, os: seq<Entry>)
  {
    && j <= |os| == |others|
    && re.file == receiver.file
    && (re.matched <==> (receiver.matched || exists l :: 0 <= l < j && Equals(receiver.file, others[l].file)))
    && (forall l :: 0 <= l < |os| ==> os[l].file == others[l].file)
    && (forall l :: 0 <= l < |os| ==>
          (os[l].matched <==> (others[l].matched || (l < j && Equals(receiver.file, others[l].file)))))
    && (forall p :: p in row <==> p.i == i && p.j < j && Equals(receiver.file, others[p.j].file))
    && (forall a, b :: 0 <= a < b < |row| ==> row[a].j < row[b].j)
    && (forall a :: 0 <= a < |row| ==> row[a].j < j)
  }

  /** Comparing with file j keeps the loop state. */
  lemma RowStep(receiver: Entry, i: nat, others: seq<Entry>, j: nat,
                row: seq<IndexPair>, re: Entry, os: seq<Entry>)
    requires RowState(receiver, i, others, j, row, re, os)
    requires j < |os|
    ensures if Equals(re.file, os[j].file) then
              RowState(receiver, i, others, j + 1, row + [IndexPair(i, j)], re.(matched := true),
                       os[j := os[j].(matched := true)])
            else
              RowState(receiver, i, others, j + 1, row, re, os)
  {
  }

  /** The exact pass: every file of the first collection against every file
      of the second; each equal pair is recorded and both flags are set. */
  method ExactPass(files1: seq<FileRecord>, files2: seq<FileRecord>)
    returns (pairs: seq<IndexPair>, es1: seq<Entry>, es2: seq<Entry>)
    ensures |es1| == |files1| && |es2| == |files2|
    ensures forall i :: 0 <= i < |files1| ==> es1[i].file == files1[i]
    ensures forall j :: 0 <= j < |files2| ==> es2[j].file == files2[j]
    ensures forall i :: 0 <= i < |files1| ==>
              (es1[i].matched <==> exists j :: 0 <= j < |files2| && Equals(files1[i], files2[j]))
    ensures forall j :: 0 <= j < |files2| ==>
              (es2[j].matched <==> exists i :: 0 <= i < |files1| && Equals(files1[i], files2[j]))
    ensures forall p :: p in pairs <==> p.i < |files1| && p.j < |files2| && Equals(files1[p.i], files2[p.j])
    ensures forall a, b :: 0 <= a < b < |pairs| ==> PairBefore(pairs[a], pairs[b])
    ensures pairs == EqualIndexPairs(files1, files2, |files1|)
  {
    es1 := seq(|files1|, k requires 0 <= k < |files1| => Entry(files1[k], false));
    es2 := seq(|files2|, k requires 0 <= k < |files2| => Entry(files2[k], false));
    pairs := [];
    var i := 0;
    while i < |files1|
      invariant ExactState(files1, files2, i, pairs, es1, es2)
      decreases |files1| - i
    {
      var row, re, es2' := ExactRow(es1[i], i, es2);
      ExactStep(files1, files2, i, pairs, es1, es2, row, re, es2');
      pairs := pairs + row;
      es1 := es1[i := re];
      es2 := es2';
      i := i + 1;
    }
    EqualIndexPairsInOrder(files1, files2, |files1|);
    SameMembersInOrder(pairs, EqualIndexPairs(files1, files2, |files1|));
  }

  /** The loop state of ExactPass after the first i files of the first
      collection have been compared with the whole second collection. */
  ghost predicate ExactState(files1: seq<FileRecord>, files2: seq<FileRecord>, i: nat,
                             pairs: seq<IndexPair>, es1: seq<Entry>, es2: seq<Entry>)
  {
    && i <= |files1|
    && |es1| == |files1| && |es2| == |files2|
    && (forall k :: 0 <= k < |files1| ==> es1[k].file == files1[k])
    && (forall l :: 0 <= l < |files2| ==> es2[l].file == files2[l])
    && (forall k :: 0 <= k < |files1| ==>
          (es1[k].matched <==> (k < i && exists l :: 0 <= l < |files2| && Equals(files1[k], files2[l]))))
    && (forall l :: 0 <= l < |files2| ==>
          (es2[l].matched <==> exists k :: 0 <= k < i && Equals(files1[k], files2[l])))
    && (forall p :: p in pairs <==> p.i < i && p.j < |files2| && Equals(files1[p.i], files2[p.j]))
    && (forall a, b :: 0 <= a < b < |pairs| ==> PairBefore(pairs[a], pairs[b]))
    && (forall a :: 0 <= a < |pairs| ==> pairs[a].i < i)
  }

  /** Row i, as ExactRow describes it, extends the loop state to i + 1. */
  lemma ExactStep(files1: seq<FileRecord>, files2: seq<FileRecord>, i: nat,
                  pairs: seq<IndexPair>, es1: seq<Entry>, es2: seq<Entry>,
                  row: seq<IndexPair>, re: Entry, es2': seq<Entry>)
    requires ExactState(files1, files2, i, pairs, es1, es2)
    requires i < |files1|
    requires re.file == es1[i].file
    requires re.matched <==> (es1[i].matched || exists l :: 0 <= l < |es2| && Equals(es1[i].file, es2[l].file))
    requires |es2'| == |es2|
    requires forall l :: 0 <= l < |es2'| ==> es2'[l].file == es2[l].file
    requires forall l :: 0 <= l < |es2'| ==> (es2'[l].matched <==> (es2[l].matched || Equals(es1[i].file, es2[l].file)))
    requires forall p :: p in row <==> p.i == i && p.j < |es2| && Equals(es1[i].file, es2[p.j].file)
    requires forall a, b :: 0 <= a < b < |row| ==> row[a].j < row[b].j
    ensures ExactState(files1, files2, i + 1, pairs + row, es1[i := re], es2')
  {
    RowsAppendInOrder(pairs, row, i);
  }

  /** The state of the candidate loop of a receiver f after the candidates
      start..c-1 have been tried. */
  ghost predicate ProbeState(f: FileRecord, r: nat, candidates: seq<Entry>, strict: bool, threshold: real,
                             start: nat, c: nat, hits: seq<Hit>, cs: seq<Entry>)
  {
    && start <= c <= |cs| == |candidates|
    && (forall k :: 0 <= k < start ==> !Eligible(f.size, candidates[k].file.size, strict))
    && (forall k :: start <= k < |candidates| ==> Eligible(f.size, candidates[k].file.size, strict))
    && (forall k :: 0 <= k < |cs| ==> cs[k].file == candidates[k].file)
    && (forall k :: 0 <= k < |cs| ==>
          (cs[k].matched <==> candidates[k].matched || (k < c && Accepted(f, candidates[k].file, strict, threshold))))
    && (forall h :: h in hits <==>
          h.receiver == r && h.candidate < c
          && Accepted(f, candidates[h.candidate].file, strict, threshold)
          && h.similarity == Similar(f, candidates[h.candidate].file, threshold).similarity)
    && (forall a, b :: 0 <= a < b < |hits| ==> hits[a].candidate < hits[b].candidate)
    && (forall a :: 0 <= a < |hits| ==> hits[a].candidate < c)
  }

  /** Trying candidate c keeps the loop state. */
  lemma ProbeStep(f: FileRecord, r: nat, candidates: seq<Entry>, strict: bool, threshold: real,
                  start: nat, c: nat, hits: seq<Hit>, cs: seq<Entry>)
    requires ProbeState(f, r, candidates, strict, threshold, start, c, hits, cs)
    requires c < |cs|
    ensures var v := Similar(f, cs[c].file, threshold);
            if v.Accept? then
              ProbeState(f, r, candidates, strict, threshold, start, c + 1,
                         hits + [Hit(r, c, v.similarity)], cs[c := cs[c].(matched := true)])
            else
              ProbeState(f, r, candidates, strict, threshold, start, c + 1, hits, cs)
  {
  }

  /** The candidate loop of one receiver: candidates from the first eligible
      index on, stopping at the first one larger than next_size. The receiver's
      flag and the flag of every accepted candidate are set. */
  method Probe(receiver: Entry, r: nat, candidates: seq<Entry>, strict: bool, threshold: real)
    returns (hits: seq<Hit>, re: Entry, cs: seq<Entry>)
    requires 0.0 < threshold
    requires SortedBySize(candidates)
    ensures re.file == receiver.file
    ensures re.matched <==>
              (receiver.matched || exists k :: 0 <= k < |candidates| && Accepted(receiver.file, candidates[k].file, strict, threshold))
    ensures |cs| == |candidates|
    ensures forall k :: 0 <= k < |cs| ==> cs[k].file == candidates[k].file
    ensures forall k :: 0 <= k < |cs| ==>
              (cs[k].matched <==> candidates[k].matched || Accepted(receiver.file, candidates[k].file, strict, threshold))
    ensures forall h :: h in hits <==>
              h.receiver == r && h.candidate < |candidates|
              && Accepted(receiver.file, candidates[h.candidate].file, strict, threshold)
              && h.similarity == Similar(receiver.file, candidates[h.candidate].file, threshold).similarity
    ensures forall a, b :: 0 <= a < b < |hits| ==> hits[a].candidate < hits[b].candidate
  {
    var f := receiver.file;
    var next := NextSize(f.size, threshold);
    var start := FirstEligible(candidates, f.size, strict);
    var c: nat := start;
    hits, cs := [], candidates;
    while c < |cs| && cs[c].file.size <= next
      invariant ProbeState(f, r, candidates, strict, threshold, start, c, hits, cs)
      decreases |cs| - c
    {
      ProbeStep(f, r, candidates, strict, threshold, start, c, hits, cs);
      var v := Similar(f, cs[c].file, threshold);
      if v.Accept? {
        hits := hits + [Hit(r, c, v.similarity)];
        cs := cs[c := cs[c].(matched := true)];
      }
      c := c + 1;
    }
    PrunedTailRejects(f, candidates, c, strict, threshold);
    ProbeFinish(f, r, candidates, strict, threshold, start, c, hits, cs);
    // The receiver's flag is set on every acceptance; setting it once here
    // when anything was accepted gives the same final flag.
    re := receiver.(matched := receiver.matched || |hits| > 0);
  }

  /** When the loop stops, the untried candidates are all rejected, so the
      loop state describes every candidate. */
  lemma ProbeFinish(f: FileRecord, r: nat, candidates: seq<Entry>, strict: bool, threshold: real,
                    start: nat, c: nat, hits: seq<Hit>, cs: seq<Entry>)
    requires ProbeState(f, r, candidates, strict, threshold, start, c, hits, cs)
    requires forall k :: c <= k < |candidates| ==> !Accepted(f, candidates[k].file, strict, threshold)
    ensures |hits| > 0 <==> exists k :: 0 <= k < |candidates| && Accepted(f, candidates[k].file, strict, threshold)
    ensures forall k :: 0 <= k < |cs| ==>
              (cs[k].matched <==> candidates[k].matched || Accepted(f, candidates[k].file, strict, threshold))
    ensures forall h :: h in hits <==>
              h.receiver == r && h.candidate < |candidates|
              && Accepted(f, candidates[h.candidate].file, strict, threshold)
              && h.similarity == Similar(f, candidates[h.candidate].file, threshold).similarity
  {
    if |hits| > 0 {
      assert hits[0] in hits;
    }
    if exists k :: 0 <= k < |candidates| && Accepted(f, candidates[k].file, strict, threshold) {
      var k :| 0 <= k < |candidates| && Accepted(f, candidates[k].file, strict, threshold);
      assert Hit(r, k, Similar(f, candidates[k].file, threshold).similarity) in hits;
    }
  }

  /** Pruning soundness on a size-sorted sequence: once one candidate is
      larger than next_size, neither it nor any later candidate can be
      accepted, so the `break` loses no similar pair. */
  lemma PrunedTailRejects(f: FileRecord, candidates: seq<Entry>, c: nat, strict: bool, threshold: real)
    requires 0.0 < threshold
    requires SortedBySize(candidates)
    requires c <= |candidates|
    requires c < |candidates| ==> candidates[c].file.size > NextSize(f.size, threshold)
    ensures forall k :: c <= k < |candidates| ==> !Accepted(f, candidates[k].file, strict, threshold)
  {
    forall k | c <= k < |candidates|
      ensures !Accepted(f, candidates[k].file, strict, threshold)
    {
      assert candidates[c].file.size <= candidates[k].file.size;
      BeyondNextSizeFailsGate(f.size, candidates[k].file.size, threshold);
    }
  }

  /** The outcome of a finished pass: files kept in place, each flag set
      exactly when its file took part in an accepted pair of the pass (or was
      already set), and the hits exactly the accepted pairs with their scores. */
  ghost predicate PassDone(receivers: seq<Entry>, candidates: seq<Entry>, strict: bool, threshold: real,
                           hits: seq<Hit>, rs: seq<Entry>, cs: seq<Entry>)
  {
    && |rs| == |receivers| && |cs| == |candidates|
    && (forall k :: 0 <= k < |rs| ==> rs[k].file == receivers[k].file)
    && (forall k :: 0 <= k < |cs| ==> cs[k].file == candidates[k].file)
    && (forall k :: 0 <= k < |rs| ==>
          (rs[k].matched <==>
             (receivers[k].matched || exists c :: 0 <= c < |candidates| && Accepted(receivers[k].file, candidates[c].file, strict, threshold))))
    && (forall k :: 0 <= k < |cs| ==>
          (cs[k].matched <==>
             (candidates[k].matched || exists q :: 0 <= q < |receivers| && Accepted(receivers[q].file, candidates[k].file, strict, threshold))))
    && (forall h :: h in hits <==>
          h.receiver < |receivers| && h.candidate < |candidates|
          && Accepted(receivers[h.receiver].file, candidates[h.candidate].file, strict, threshold)
          && h.similarity == Similar(receivers[h.receiver].file, candidates[h.candidate].file, threshold).similarity)
  }

  /** One similarity pass: every receiver in turn probes the size-sorted
      candidates. */
  method PrunedPass(receivers: seq<Entry>, candidates: seq<Entry>, strict: bool, threshold: real)
    returns (hits: seq<Hit>, rs: seq<Entry>, cs: seq<Entry>)
    requires 0.0 < threshold
    requires SortedBySize(candidates)
    ensures PassDone(receivers, candidates, strict, threshold, hits, rs, cs)
    ensures forall a, b :: 0 <= a < b < |hits| ==> HitBefore(hits[a], hits[b])
  {
    hits, rs, cs := [], receivers, candidates;
    var r := 0;
    while r < |rs|
      invariant PassState(receivers, candidates, strict, threshold, r, hits, rs, cs)
      decreases |rs| - r
    {
      SameFilesKeepOrder(candidates, cs);
      var found, re, cs' := Probe(rs[r], r, cs, strict, threshold);
      PassStep(receivers, candidates, strict, threshold, r, hits, rs, cs, found, re, cs');
      hits := hits + found;
      rs := rs[r := re];
      cs := cs';
      r := r + 1;
    }
  }

  /** The loop state of PrunedPass after the first r receivers have probed. */
  ghost predicate PassState(receivers: seq<Entry>, candidates: seq<Entry>, strict: bool, threshold: real,
                            r: nat, hits: seq<Hit>, rs: seq<Entry>, cs: seq<Entry>)
  {
    && r <= |rs| == |receivers|
    && |cs| == |candidates|
    && (forall k :: 0 <= k < |rs| ==> rs[k].file == receivers[k].file)
    && (forall k :: 0 <= k < |cs| ==> cs[k].file == candidates[k].file)
    && (forall k :: 0 <= k < |rs| ==>
          (rs[k].matched <==>
             (receivers[k].matched || (k < r && exists c :: 0 <= c < |candidates| && Accepted(receivers[k].file, candidates[c].file, strict, threshold)))))
    && (forall k :: 0 <= k < |cs| ==>
          (cs[k].matched <==>
             (candidates[k].matched || exists q :: 0 <= q < r && Accepted(receivers[q].file, candidates[k].file, strict, threshold))))
    && (forall h :: h in hits <==>
          h.receiver < r && h.candidate < |candidates|
          && Accepted(receivers[h.receiver].file, candidates[h.candidate].file, strict, threshold)
          && h.similarity == Similar(receivers[h.receiver].file, candidates[h.candidate].file, threshold).similarity)
    && (forall a, b :: 0 <= a < b < |hits| ==> HitBefore(hits[a], hits[b]))
    && (forall a :: 0 <= a < |hits| ==> hits[a].receiver < r)
  }

  /** Receiver r's probe, as Probe describes it, extends the loop state to r + 1. */
  lemma PassStep(receivers: seq<Entry>, candidates: seq<Entry>, strict: bool, threshold: real,
                 r: nat, hits: seq<Hit>, rs: seq<Entry>, cs: seq<Entry>,
                 found: seq<Hit>, re: Entry, cs': seq<Entry>)
    requires PassState(receivers, candidates, strict, threshold, r, hits, rs, cs)
    requires r < |rs|
    requires re.file == rs[r].file
    requires re.matched <==>
               (rs[r].matched || exists k :: 0 <= k < |cs| && Accepted(rs[r].file, cs[k].file, strict, threshold))
    requires |cs'| == |cs|
    requires forall k :: 0 <= k < |cs'| ==> cs'[k].file == cs[k].file
    requires forall k :: 0 <= k < |cs'| ==>
               (cs'[k].matched <==> cs[k].matched || Accepted(rs[r].file, cs[k].file, strict, threshold))
    requires forall h :: h in found <==>
               h.receiver == r && h.candidate < |cs|
               && Accepted(rs[r].file, cs[h.candidate].file, strict, threshold)
               && h.similarity == Similar(rs[r].file, cs[h.candidate].file, threshold).similarity
    requires forall a, b :: 0 <= a < b < |found| ==> found[a].candidate < found[b].candidate
    ensures PassState(receivers, candidates, strict, threshold, r + 1, hits + found, rs[r := re], cs')
  {
    var hits' := hits + found;
    forall a, b | 0 <= a < b < |hits'|
      ensures HitBefore(hits'[a], hits'[b])
    {
      if b >= |hits| {
        assert hits'[b] == found[b - |hits|];
        assert found[b - |hits|] in found;
        if a >= |hits| {
          assert hits'[a] == found[a - |hits|];
        }
      }
    }
    forall a | 0 <= a < |hits'|
      ensures hits'[a].receiver < r + 1
    {
      if a >= |hits| {
        assert hits'[a] == found[a - |hits|];
        assert found[a - |hits|] in found;
      }
    }
  }

  /** Changing flags does not disturb the size order. */
  lemma SameFilesKeepOrder(es: seq<Entry>, es': seq<Entry>)
    requires SortedBySize(es)
    requires |es'| == |es| && forall k :: 0 <= k < |es| ==> es'[k].file == es[k].file
    ensures SortedBySize(es')
  {
  }

  /** A listing of files in size order. */
  ghost predicate SizeOrdered(fs: seq<FileRecord>) {
    forall a, b :: 0 <= a < b < |fs| ==> fs[a].size <= fs[b].size
  }

  /** The files whose flag was never set, in collection order (the last two
      listings of compare_files). */
  function Unmatched(es: seq<Entry>): (r: seq<FileRecord>)
    ensures forall f :: f in r <==> exists k :: 0 <= k < |es| && es[k].file == f && !es[k].matched
  {
    if |es| == 0 then []
    else
      var rest := Unmatched(es[1..]);
      assert forall k :: 1 <= k < |es| ==> es[k] == es[1..][k - 1];
      (if es[0].matched then [] else [es[0].file]) + rest
  }

  /** Unmatched lists exactly the unflagged positions, each once, in
      increasing position: idx[n] is the position that entry n comes from. */
  lemma {:induction false} UnmatchedPositions(es: seq<Entry>) returns (idx: seq<nat>)
    ensures |idx| == |Unmatched(es)|
    ensures forall n :: 0 <= n < |idx| ==>
              idx[n] < |es| && !es[idx[n]].matched && Unmatched(es)[n] == es[idx[n]].file
    ensures forall a, b :: 0 <= a < b < |idx| ==> idx[a] < idx[b]
    ensures forall k :: 0 <= k < |es| && !es[k].matched ==> k in idx
  {
    if |es| == 0 {
      idx := [];
    } else {
      var rest := UnmatchedPositions(es[1..]);
      var shifted := ShiftedPositions(es, rest);
      if es[0].matched {
        idx := shifted;
        assert Unmatched(es) == [] + Unmatched(es[1..]) == Unmatched(es[1..]);
        forall k | 0 <= k < |es| && !es[k].matched
          ensures k in idx
        {
          assert k != 0;
        }
      } else {
        idx := [0] + shifted;
        assert Unmatched(es) == [es[0].file] + Unmatched(es[1..]);
        PrependedPositions(es[0].file, Unmatched(es[1..]), shifted, idx, es);
      }
    }
  }

  /** The positions of es[1..] that rest lists, as positions of es. */
  lemma ShiftedPositions(es: seq<Entry>, rest: seq<nat>) returns (shifted: seq<nat>)
    requires |es| > 0
    requires |rest| == |Unmatched(es[1..])|
    requires forall n :: 0 <= n < |rest| ==>
               rest[n] < |es[1..]| && !es[1..][rest[n]].matched && Unmatched(es[1..])[n] == es[1..][rest[n]].file
    requires forall a, b :: 0 <= a < b < |rest| ==> rest[a] < rest[b]
    requires forall k :: 0 <= k < |es[1..]| && !es[1..][k].matched ==> k in rest
    ensures |shifted| == |Unmatched(es[1..])|
    ensures forall n :: 0 <= n < |shifted| ==>
              1 <= shifted[n] < |es| && !es[shifted[n]].matched && Unmatched(es[1..])[n] == es[shifted[n]].file
    ensures forall a, b :: 0 <= a < b < |shifted| ==> shifted[a] < shifted[b]
    ensures forall k :: 1 <= k < |es| && !es[k].matched ==> k in shifted
  {
    shifted := seq(|rest|, n requires 0 <= n < |rest| => rest[n] + 1);
    forall n | 0 <= n < |shifted|
      ensures 1 <= shifted[n] < |es| && !es[shifted[n]].matched && Unmatched(es[1..])[n] == es[shifted[n]].file
    {
      assert es[1..][rest[n]] == es[shifted[n]];
    }
    forall k | 1 <= k < |es| && !es[k].matched
      ensures k in shifted
    {
      assert es[1..][k - 1] == es[k];
      var n :| 0 <= n < |rest| && rest[n] == k - 1;
      assert shifted[n] == k;
    }
  }

  /** Putting the unflagged head in front of the listing of the rest. */
  lemma PrependedPositions(f: FileRecord, rest: seq<FileRecord>, shifted: seq<nat>, idx: seq<nat>, es: seq<Entry>)
    requires |es| > 0 && es[0].file == f && !es[0].matched
    requires |shifted| == |rest|
    requires forall n :: 0 <= n < |shifted| ==>
               1 <= shifted[n] < |es| && !es[shifted[n]].matched && rest[n] == es[shifted[n]].file
    requires forall a, b :: 0 <= a < b < |shifted| ==> shifted[a] < shifted[b]
    requires forall k :: 1 <= k < |es| && !es[k].matched ==> k in shifted
    requires idx == [0] + shifted
    ensures |idx| == |[f] + rest|
    ensures forall n :: 0 <= n < |idx| ==> idx[n] < |es| && !es[idx[n]].matched && ([f] + rest)[n] == es[idx[n]].file
    ensures forall a, b :: 0 <= a < b < |idx| ==> idx[a] < idx[b]
    ensures forall k :: 0 <= k < |es| && !es[k].matched ==> k in idx
  {
    forall n | 0 <= n < |idx|
      ensures idx[n] < |es| && !es[idx[n]].matched && ([f] + rest)[n] == es[idx[n]].file
    {
      if n > 0 {
        assert idx[n] == shifted[n - 1] && ([f] + rest)[n] == rest[n - 1];
      }
    }
    forall a, b | 0 <= a < b < |idx|
      ensures idx[a] < idx[b]
    {
      assert idx[b] == shifted[b - 1];
      if a > 0 {
        assert idx[a] == shifted[a - 1];
      }
    }
    forall k | 0 <= k < |es| && !es[k].matched
      ensures k in idx
    {
      if k > 0 {
        assert k in shifted;
      }
    }
  }

  /** The files of a concatenation are the files of its parts. */
  lemma FilesOfAppend(a: seq<Entry>, b: seq<Entry>)
    ensures FilesOf(a + b) == FilesOf(a) + FilesOf(b)
  {
  }

  /** How often Unmatched lists a file: never when the file's entries are
      flagged, and as often as it occurs when they are not. */
  lemma {:induction false} UnmatchedCount(es: seq<Entry>, f: FileRecord, flagged: bool)
    requires forall k :: 0 <= k < |es| && es[k].file == f ==> es[k].matched == flagged
    ensures multiset(Unmatched(es))[f] == if flagged then 0 else multiset(FilesOf(es))[f]
  {
    if |es| > 0 {
      forall k | 0 <= k < |es[1..]| && es[1..][k].file == f
        ensures es[1..][k].matched == flagged
      {
        assert es[1..][k] == es[k + 1];
      }
      UnmatchedCount(es[1..], f, flagged);
      assert FilesOf(es) == [es[0].file] + FilesOf(es[1..]);
      var head: seq<FileRecord> := if es[0].matched then [] else [es[0].file];
      assert Unmatched(es) == head + Unmatched(es[1..]);
    }
  }

  /** Taking the head of xs and its copy at position p of ys out of two
      permutations leaves permutations. */
  lemma RemoveMatchingHead(xs: seq<Entry>, ys: seq<Entry>, p: nat)
    requires multiset(xs) == multiset(ys)
    requires |xs| > 0 && p < |ys| && ys[p] == xs[0]
    ensures multiset(xs[1..]) == multiset(ys[..p] + ys[p + 1..])
  {
    assert xs == [xs[0]] + xs[1..];
    assert ys == ys[..p] + [ys[p]] + ys[p + 1..];
    var rest := ys[..p] + ys[p + 1..];
    assert multiset(ys) == multiset(rest) + multiset{ys[p]};
    assert multiset(xs) == multiset(xs[1..]) + multiset{xs[0]};
    assert multiset(xs[1..]) == multiset(xs) - multiset{xs[0]};
    assert multiset(rest) == multiset(ys) - multiset{ys[p]};
  }

  /** The files of es are those of es without position p, and the file at p. */
  lemma FilesWithout(es: seq<Entry>, p: nat)
    requires p < |es|
    ensures multiset(FilesOf(es)) == multiset(FilesOf(es[..p] + es[p + 1..])) + multiset{es[p].file}
  {
    var front, back := es[..p], es[p + 1..];
    assert es == front + [es[p]] + back;
    FilesOfAppend(front + [es[p]], back);
    FilesOfAppend(front, [es[p]]);
    FilesOfAppend(front, back);
    assert FilesOf([es[p]]) == [es[p].file];
  }

  /** Entry sequences that are permutations of each other carry the same
      files, counted with multiplicity. */
  lemma {:induction false} PermutedFiles(xs: seq<Entry>, ys: seq<Entry>)
    requires multiset(xs) == multiset(ys)
    ensures multiset(FilesOf(xs)) == multiset(FilesOf(ys))
  {
    if |xs| == 0 {
      assert |ys| == |multiset(ys)| == 0;
    } else {
      var x := xs[0];
      assert x in multiset(ys);
      var p :| 0 <= p < |ys| && ys[p] == x;
      RemoveMatchingHead(xs, ys, p);
      PermutedFiles(xs[1..], ys[..p] + ys[p + 1..]);
      FilesWithout(xs, 0);
      FilesWithout(ys, p);
      assert xs[..0] + xs[1..] == xs[1..];
    }
  }

  /** The unique files are listed in size order. */
  lemma {:induction false} UnmatchedInSizeOrder(es: seq<Entry>)
    requires SortedBySize(es)
    ensures SizeOrdered(Unmatched(es))
  {
    if |es| > 0 {
      var rest := Unmatched(es[1..]);
      assert SortedBySize(es[1..]);
      UnmatchedInSizeOrder(es[1..]);
      forall x | x in rest
        ensures es[0].file.size <= x.size
      {
        var k :| 0 <= k < |es[1..]| && es[1..][k].file == x && !es[1..][k].matched;
        assert es[1..][k] == es[k + 1];
      }
      assert Unmatched(es) == (if es[0].matched then [] else [es[0].file]) + rest;
    }
  }

  /** How the two passes together judge a cross pair (f1 from the first
      collection, f2 from the second): the smaller file is the receiver, and
      on a size tie the file of the first collection is. */
  function CrossVerdict(f1: FileRecord, f2: FileRecord, threshold: real): Verdict {
    if f1.size <= f2.size then Similar(f1, f2, threshold) else Similar(f2, f1, threshold)
  }

  /** A file of the first collection that some file of the second is equal or similar to. */
  ghost predicate MatchedFirst(f: FileRecord, files2: seq<FileRecord>, threshold: real) {
    exists g :: g in files2 && (Equals(f, g) || CrossVerdict(f, g, threshold).Accept?)
  }

  /** A file of the second collection that some file of the first is equal or similar to. */
  ghost predicate MatchedSecond(g: FileRecord, files1: seq<FileRecord>, threshold: real) {
    exists f :: f in files1 && (Equals(f, g) || CrossVerdict(f, g, threshold).Accept?)
  }

  datatype PathPair = PathPair(path1: Path, path2: Path)

  datatype SimilarPair = SimilarPair(path1: Path, path2: Path, similarity: real)

  /** What compare_files prints: equal pairs, similar pairs (first-collection
      path first), and the unique files of each collection. */
  datatype Outcome = Outcome(equal: seq<PathPair>, similar: seq<SimilarPair>,
                             unique1: seq<FileRecord>, unique2: seq<FileRecord>)

  /** The forward pass tests exactly the cross pairs whose first file is not
      larger, the backward pass exactly those whose first file is larger; each
      with the smaller file as receiver, so their acceptances together are the
      cross verdict. */
  lemma PassesSplitCrossPairs(f1: FileRecord, f2: FileRecord, threshold: real)
    ensures !(Accepted(f1, f2, false, threshold) && Accepted(f2, f1, true, threshold))
    ensures CrossVerdict(f1, f2, threshold).Accept? <==>
              (Accepted(f1, f2, false, threshold) || Accepted(f2, f1, true, threshold))
    ensures Accepted(f1, f2, false, threshold) ==> CrossVerdict(f1, f2, threshold) == Similar(f1, f2, threshold)
    ensures Accepted(f2, f1, true, threshold) ==> CrossVerdict(f1, f2, threshold) == Similar(f2, f1, threshold)
  {
  }

  /** Sorting entries keeps the set of files they carry. */
  lemma SortKeepsFiles(es: seq<Entry>, files: seq<FileRecord>, sorted: seq<Entry>)
    requires |es| == |files| && forall k :: 0 <= k < |es| ==> es[k].file == files[k]
    requires multiset(sorted) == multiset(es)
    ensures forall g :: g in files <==> exists c :: 0 <= c < |sorted| && sorted[c].file == g
    ensures forall c :: 0 <= c < |sorted| ==> exists k :: 0 <= k < |es| && sorted[c] == es[k]
  {
    forall c | 0 <= c < |sorted|
      ensures exists k :: 0 <= k < |es| && sorted[c] == es[k]
    {
      assert sorted[c] in multiset(es);
    }
    forall g | g in files
      ensures exists c :: 0 <= c < |sorted| && sorted[c].file == g
    {
      var k :| 0 <= k < |files| && files[k] == g;
      assert es[k] in multiset(sorted);
    }
  }

  /** Some file of `others` is equal to f. */
  ghost predicate EqualPartner(f: FileRecord, others: seq<FileRecord>) {
    exists g :: g in others && Equals(f, g)
  }

  /** The flags the exact pass set travel with their files through the sort. */
  lemma ExactFlagsSurviveSort(es: seq<Entry>, others: seq<FileRecord>, sorted: seq<Entry>)
    requires forall k :: 0 <= k < |es| ==> (es[k].matched <==> EqualPartner(es[k].file, others))
    requires multiset(sorted) == multiset(es)
    ensures forall c :: 0 <= c < |sorted| ==> (sorted[c].matched <==> EqualPartner(sorted[c].file, others))
  {
    forall c | 0 <= c < |sorted|
      ensures sorted[c].matched <==> EqualPartner(sorted[c].file, others)
    {
      assert sorted[c] in multiset(es);
      var k :| 0 <= k < |es| && es[k] == sorted[c];
    }
  }

  /** Pairs of a similarity pass as compare_files records them: the path
      from the first collection first. In the backward pass the receivers
      come from the second collection, so the order is swapped. */
  function Recorded(hits: seq<Hit>, rs: seq<Entry>, cs: seq<Entry>, backward: bool): (r: seq<SimilarPair>)
    requires forall h :: h in hits ==> h.receiver < |rs| && h.candidate < |cs|
    ensures |r| == |hits|
    ensures forall n :: 0 <= n < |hits| ==>
              && hits[n] in hits
              && r[n].similarity == hits[n].similarity
              && (!backward ==> r[n].path1 == rs[hits[n].receiver].file.path && r[n].path2 == cs[hits[n].candidate].file.path)
              && (backward ==> r[n].path1 == cs[hits[n].candidate].file.path && r[n].path2 == rs[hits[n].receiver].file.path)
  {
    seq(|hits|, n requires 0 <= n < |hits| =>
      var h := hits[n];
      if backward then SimilarPair(cs[h.candidate].file.path, rs[h.receiver].file.path, h.similarity)
      else SimilarPair(rs[h.receiver].file.path, cs[h.candidate].file.path, h.similarity))
  }

  /** Some file of the second collection, as a sorted entry sequence, passes
      the forward or backward pass together with f. */
  lemma FirstSideMatched(f: FileRecord, files2: seq<FileRecord>, sorted2: seq<Entry>, threshold: real)
    requires forall g :: g in files2 <==> exists c :: 0 <= c < |sorted2| && sorted2[c].file == g
    ensures MatchedFirst(f, files2, threshold) <==>
              EqualPartner(f, files2)
              || (exists d :: 0 <= d < |sorted2| && Accepted(f, sorted2[d].file, false, threshold))
              || (exists q :: 0 <= q < |sorted2| && Accepted(sorted2[q].file, f, true, threshold))
  {
    if MatchedFirst(f, files2, threshold) && !EqualPartner(f, files2) {
      var g :| g in files2 && (Equals(f, g) || CrossVerdict(f, g, threshold).Accept?);
      var c :| 0 <= c < |sorted2| && sorted2[c].file == g;
      PassesSplitCrossPairs(f, g, threshold);
    }
    if exists d :: 0 <= d < |sorted2| && Accepted(f, sorted2[d].file, false, threshold) {
      var d :| 0 <= d < |sorted2| && Accepted(f, sorted2[d].file, false, threshold);
      PassesSplitCrossPairs(f, sorted2[d].file, threshold);
    }
    if exists q :: 0 <= q < |sorted2| && Accepted(sorted2[q].file, f, true, threshold) {
      var q :| 0 <= q < |sorted2| && Accepted(sorted2[q].file, f, true, threshold);
      PassesSplitCrossPairs(f, sorted2[q].file, threshold);
    }
  }

  /** The mirror of FirstSideMatched for a file g of the second collection. */
  lemma SecondSideMatched(g: FileRecord, files1: seq<FileRecord>, sorted1: seq<Entry>, threshold: real)
    requires forall f :: f in files1 <==> exists c :: 0 <= c < |sorted1| && sorted1[c].file == f
    ensures MatchedSecond(g, files1, threshold) <==>
              EqualPartner(g, files1)
              || (exists q :: 0 <= q < |sorted1| && Accepted(sorted1[q].file, g, false, threshold))
              || (exists d :: 0 <= d < |sorted1| && Accepted(g, sorted1[d].file, true, threshold))
  {
    if MatchedSecond(g, files1, threshold) && !EqualPartner(g, files1) {
      var f :| f in files1 && (Equals(f, g) || CrossVerdict(f, g, threshold).Accept?);
      var c :| 0 <= c < |sorted1| && sorted1[c].file == f;
      PassesSplitCrossPairs(f, g, threshold);
    }
    if exists q :: 0 <= q < |sorted1| && Accepted(sorted1[q].file, g, false, threshold) {
      var q :| 0 <= q < |sorted1| && Accepted(sorted1[q].file, g, false, threshold);
      PassesSplitCrossPairs(sorted1[q].file, g, threshold);
    }
    if exists d :: 0 <= d < |sorted1| && Accepted(g, sorted1[d].file, true, threshold) {
      var d :| 0 <= d < |sorted1| && Accepted(g, sorted1[d].file, true, threshold);
      PassesSplitCrossPairs(sorted1[d].file, g, threshold);
    }
    if EqualPartner(g, files1) {
      var f :| f in files1 && Equals(g, f);
      assert Equals(f, g);
    }
  }

  /** Every pair the forward pass records is an accepted cross pair. */
  lemma ForwardRecordedSound(files1: seq<FileRecord>, files2: seq<FileRecord>, sorted1: seq<Entry>, sorted2: seq<Entry>,
                             forward: seq<Hit>, threshold: real)
    requires forall c :: 0 <= c < |sorted1| ==> sorted1[c].file in files1
    requires forall c :: 0 <= c < |sorted2| ==> sorted2[c].file in files2
    requires forall h :: h in forward ==>
               h.receiver < |sorted1| && h.candidate < |sorted2|
               && Accepted(sorted1[h.receiver].file, sorted2[h.candidate].file, false, threshold)
               && h.similarity == Similar(sorted1[h.receiver].file, sorted2[h.candidate].file, threshold).similarity
    ensures forall sp :: sp in Recorded(forward, sorted1, sorted2, false) ==>
              exists f1, f2 :: f1 in files1 && f2 in files2 && CrossVerdict(f1, f2, threshold) == Accept(sp.similarity)
                               && sp.path1 == f1.path && sp.path2 == f2.path
  {
    var listed := Recorded(forward, sorted1, sorted2, false);
    forall sp | sp in listed
      ensures exists f1, f2 :: f1 in files1 && f2 in files2 && CrossVerdict(f1, f2, threshold) == Accept(sp.similarity)
                               && sp.path1 == f1.path && sp.path2 == f2.path
    {
      var n :| 0 <= n < |listed| && listed[n] == sp;
      var h := forward[n];
      assert h in forward;
      var f1, f2 := sorted1[h.receiver].file, sorted2[h.candidate].file;
      PassesSplitCrossPairs(f1, f2, threshold);
    }
  }

  /** Every pair the backward pass records is an accepted cross pair, with
      the first-collection path first. */
  lemma BackwardRecordedSound(files1: seq<FileRecord>, files2: seq<FileRecord>, es1: seq<Entry>, es2: seq<Entry>,
                              backward: seq<Hit>, threshold: real)
    requires forall c :: 0 <= c < |es1| ==> es1[c].file in files1
    requires forall c :: 0 <= c < |es2| ==> es2[c].file in files2
    requires forall h :: h in backward ==>
               h.receiver < |es2| && h.candidate < |es1|
               && Accepted(es2[h.receiver].file, es1[h.candidate].file, true, threshold)
               && h.similarity == Similar(es2[h.receiver].file, es1[h.candidate].file, threshold).similarity
    ensures forall sp :: sp in Recorded(backward, es2, es1, true) ==>
              exists f1, f2 :: f1 in files1 && f2 in files2 && CrossVerdict(f1, f2, threshold) == Accept(sp.similarity)
                               && sp.path1 == f1.path && sp.path2 == f2.path
  {
    var listed := Recorded(backward, es2, es1, true);
    forall sp | sp in listed
      ensures exists f1, f2 :: f1 in files1 && f2 in files2 && CrossVerdict(f1, f2, threshold) == Accept(sp.similarity)
                               && sp.path1 == f1.path && sp.path2 == f2.path
    {
      var n :| 0 <= n < |listed| && listed[n] == sp;
      var h := backward[n];
      assert h in backward;
      var f1, f2 := es1[h.candidate].file, es2[h.receiver].file;
      PassesSplitCrossPairs(f1, f2, threshold);
    }
  }

  /** Every accepted cross pair is recorded by the forward pass (run over
      fwd1 and fwd2) or by the backward pass (run over bwd2 and bwd1). */
  lemma CrossPairsRecorded(files1: seq<FileRecord>, files2: seq<FileRecord>,
                           fwd1: seq<Entry>, fwd2: seq<Entry>, bwd1: seq<Entry>, bwd2: seq<Entry>,
                           forward: seq<Hit>, backward: seq<Hit>, threshold: real)
    requires forall f :: f in files1 ==> exists c :: 0 <= c < |fwd1| && fwd1[c].file == f
    requires forall g :: g in files2 ==> exists c :: 0 <= c < |fwd2| && fwd2[c].file == g
    requires forall f :: f in files1 ==> exists c :: 0 <= c < |bwd1| && bwd1[c].file == f
    requires forall g :: g in files2 ==> exists c :: 0 <= c < |bwd2| && bwd2[c].file == g
    requires forall h :: h in forward ==> h.receiver < |fwd1| && h.candidate < |fwd2|
    requires forall h :: h in backward ==> h.receiver < |bwd2| && h.candidate < |bwd1|
    requires forall h: Hit :: h.receiver < |fwd1| && h.candidate < |fwd2|
               && Accepted(fwd1[h.receiver].file, fwd2[h.candidate].file, false, threshold)
               && h.similarity == Similar(fwd1[h.receiver].file, fwd2[h.candidate].file, threshold).similarity
               ==> h in forward
    requires forall h: Hit :: h.receiver < |bwd2| && h.candidate < |bwd1|
               && Accepted(bwd2[h.receiver].file, bwd1[h.candidate].file, true, threshold)
               && h.similarity == Similar(bwd2[h.receiver].file, bwd1[h.candidate].file, threshold).similarity
               ==> h in backward
    ensures forall sp: SimilarPair, f1, f2 ::
              f1 in files1 && f2 in files2 && CrossVerdict(f1, f2, threshold) == Accept(sp.similarity)
              && sp.path1 == f1.path && sp.path2 == f2.path
              ==> sp in Recorded(forward, fwd1, fwd2, false) + Recorded(backward, bwd2, bwd1, true)
  {
    var listed := Recorded(forward, fwd1, fwd2, false) + Recorded(backward, bwd2, bwd1, true);
    forall sp: SimilarPair, f1, f2 | f1 in files1 && f2 in files2 && CrossVerdict(f1, f2, threshold) == Accept(sp.similarity)
                                     && sp.path1 == f1.path && sp.path2 == f2.path
      ensures sp in listed
    {
      PassesSplitCrossPairs(f1, f2, threshold);
      if Accepted(f1, f2, false, threshold) {
        var c1 :| 0 <= c1 < |fwd1| && fwd1[c1].file == f1;
        var c2 :| 0 <= c2 < |fwd2| && fwd2[c2].file == f2;
        var h := Hit(c1, c2, sp.similarity);
        assert h in forward;
        var n :| 0 <= n < |forward| && forward[n] == h;
        assert listed[n] == sp;
      } else {
        var c1 :| 0 <= c1 < |bwd1| && bwd1[c1].file == f1;
        var c2 :| 0 <= c2 < |bwd2| && bwd2[c2].file == f2;
        var h := Hit(c2, c1, sp.similarity);
        assert h in backward;
        var n :| 0 <= n < |backward| && backward[n] == h;
        assert listed[|forward| + n] == sp;
      }
    }
  }

  /** Entries with the same files cover the same files. */
  lemma SameFilesCover(files: seq<FileRecord>, es: seq<Entry>, es': seq<Entry>)
    requires forall f :: f in files <==> exists c :: 0 <= c < |es| && es[c].file == f
    requires |es'| == |es| && forall k :: 0 <= k < |es| ==> es'[k].file == es[k].file
    ensures forall f :: f in files <==> exists c :: 0 <= c < |es'| && es'[c].file == f
  {
    forall f | f in files
      ensures exists c :: 0 <= c < |es'| && es'[c].file == f
    {
      var c :| 0 <= c < |es| && es[c].file == f;
      assert es'[c].file == f;
    }
  }

  /** After both passes, the flag of a first-collection file records exactly
      whether something in the second collection is equal or similar to it. */
  lemma FirstFlagsClassified(files2: seq<FileRecord>, sorted1: seq<Entry>, sorted2: seq<Entry>,
                             s1: seq<Entry>, s2: seq<Entry>, t1: seq<Entry>, threshold: real)
    requires forall g :: g in files2 <==> exists c :: 0 <= c < |sorted2| && sorted2[c].file == g
    requires forall c :: 0 <= c < |sorted1| ==> (sorted1[c].matched <==> EqualPartner(sorted1[c].file, files2))
    requires |s1| == |sorted1| && |s2| == |sorted2| && |t1| == |s1|
    requires forall k :: 0 <= k < |s1| ==> s1[k].file == sorted1[k].file
    requires forall k :: 0 <= k < |s2| ==> s2[k].file == sorted2[k].file
    requires forall k :: 0 <= k < |t1| ==> t1[k].file == s1[k].file
    requires forall k :: 0 <= k < |s1| ==>
               (s1[k].matched <==>
                 (sorted1[k].matched || exists c :: 0 <= c < |sorted2| && Accepted(sorted1[k].file, sorted2[c].file, false, threshold)))
    requires forall k :: 0 <= k < |t1| ==>
               (t1[k].matched <==>
                 (s1[k].matched || exists q :: 0 <= q < |s2| && Accepted(s2[q].file, s1[k].file, true, threshold)))
    ensures forall c :: 0 <= c < |t1| ==>
              t1[c].file == sorted1[c].file && (t1[c].matched <==> MatchedFirst(t1[c].file, files2, threshold))
  {
    forall c | 0 <= c < |t1|
      ensures t1[c].matched <==> MatchedFirst(t1[c].file, files2, threshold)
    {
      var f := sorted1[c].file;
      FirstSideMatched(f, files2, sorted2, threshold);
      assert (exists q :: 0 <= q < |s2| && Accepted(s2[q].file, f, true, threshold))
         <==> (exists q :: 0 <= q < |sorted2| && Accepted(sorted2[q].file, f, true, threshold)) by {
        if exists q :: 0 <= q < |s2| && Accepted(s2[q].file, f, true, threshold) {
          var q :| 0 <= q < |s2| && Accepted(s2[q].file, f, true, threshold);
          assert s2[q].file == sorted2[q].file;
        }
        if exists q :: 0 <= q < |sorted2| && Accepted(sorted2[q].file, f, true, threshold) {
          var q :| 0 <= q < |sorted2| && Accepted(sorted2[q].file, f, true, threshold);
          assert s2[q].file == sorted2[q].file;
        }
      }
    }
  }

  /** The mirror of FirstFlagsClassified for the second collection. */
  lemma SecondFlagsClassified(files1: seq<FileRecord>, sorted1: seq<Entry>, sorted2: seq<Entry>,
                              s1: seq<Entry>, s2: seq<Entry>, t2: seq<Entry>, threshold: real)
    requires forall f :: f in files1 <==> exists c :: 0 <= c < |sorted1| && sorted1[c].file == f
    requires forall c :: 0 <= c < |sorted2| ==> (sorted2[c].matched <==> EqualPartner(sorted2[c].file, files1))
    requires |s1| == |sorted1| && |s2| == |sorted2| && |t2| == |s2|
    requires forall k :: 0 <= k < |s1| ==> s1[k].file == sorted1[k].file
    requires forall k :: 0 <= k < |s2| ==> s2[k].file == sorted2[k].file
    requires forall k :: 0 <= k < |t2| ==> t2[k].file == s2[k].file
    requires forall k :: 0 <= k < |s2| ==>
               (s2[k].matched <==>
                 (sorted2[k].matched || exists q :: 0 <= q < |sorted1| && Accepted(sorted1[q].file, sorted2[k].file, false, threshold)))
    requires forall k :: 0 <= k < |t2| ==>
               (t2[k].matched <==>
                 (s2[k].matched || exists c :: 0 <= c < |s1| && Accepted(s2[k].file, s1[c].file, true, threshold)))
    ensures forall c :: 0 <= c < |t2| ==>
              t2[c].file == sorted2[c].file && (t2[c].matched <==> MatchedSecond(t2[c].file, files1, threshold))
  {
    forall c | 0 <= c < |t2|
      ensures t2[c].matched <==> MatchedSecond(t2[c].file, files1, threshold)
    {
      var g := sorted2[c].file;
      SecondSideMatched(g, files1, sorted1, threshold);
      assert (exists d :: 0 <= d < |s1| && Accepted(g, s1[d].file, true, threshold))
         <==> (exists d :: 0 <= d < |sorted1| && Accepted(g, sorted1[d].file, true, threshold)) by {
        if exists d :: 0 <= d < |s1| && Accepted(g, s1[d].file, true, threshold) {
          var d :| 0 <= d < |s1| && Accepted(g, s1[d].file, true, threshold);
          assert s1[d].file == sorted1[d].file;
        }
        if exists d :: 0 <= d < |sorted1| && Accepted(g, sorted1[d].file, true, threshold) {
          var d :| 0 <= d < |sorted1| && Accepted(g, sorted1[d].file, true, threshold);
          assert s1[d].file == sorted1[d].file;
        }
      }
    }
  }

  /** Both similarity passes over the size-sorted collections, whose flags
      so far record exactly the equal pairs. */
  method SimilarityPasses(files1: seq<FileRecord>, files2: seq<FileRecord>,
                          sorted1: seq<Entry>, sorted2: seq<Entry>, threshold: real)
    returns (similar: seq<SimilarPair>, positions: seq<IndexPair>, t1: seq<Entry>, t2: seq<Entry>)
    requires 0.0 < threshold
    requires SortedBySize(sorted1) && SortedBySize(sorted2)
    requires forall f :: f in files1 <==> exists c :: 0 <= c < |sorted1| && sorted1[c].file == f
    requires forall g :: g in files2 <==> exists c :: 0 <= c < |sorted2| && sorted2[c].file == g
    requires forall c :: 0 <= c < |sorted1| ==> (sorted1[c].matched <==> EqualPartner(sorted1[c].file, files2))
    requires forall c :: 0 <= c < |sorted2| ==> (sorted2[c].matched <==> EqualPartner(sorted2[c].file, files1))
    ensures forall sp :: sp in similar <==>
              exists f1, f2 :: f1 in files1 && f2 in files2 && CrossVerdict(f1, f2, threshold) == Accept(sp.similarity)
                               && sp.path1 == f1.path && sp.path2 == f2.path
    ensures |t1| == |sorted1| && |t2| == |sorted2|
    ensures forall c :: 0 <= c < |t1| ==>
              t1[c].file == sorted1[c].file && (t1[c].matched <==> MatchedFirst(t1[c].file, files2, threshold))
    ensures forall c :: 0 <= c < |t2| ==>
              t2[c].file == sorted2[c].file && (t2[c].matched <==> MatchedSecond(t2[c].file, files1, threshold))
    ensures RecordedOnce(sorted1, sorted2, threshold, similar, positions)
    ensures exists m :: 0 <= m <= |positions| && InLoopOrder(positions, m) && SplitBySize(sorted1, sorted2, positions, m)
  {
    var forward, s1, s2 := PrunedPass(sorted1, sorted2, false, threshold);
    SameFilesKeepOrder(sorted1, s1);
    var backward;
    backward, t2, t1 := PrunedPass(s2, s1, true, threshold);
    similar := Recorded(forward, sorted1, sorted2, false) + Recorded(backward, s2, s1, true);
    PassesListPairs(files1, files2, sorted1, sorted2, s1, s2, t1, t2, forward, backward, threshold);
    PassesClassifyFlags(files1, files2, sorted1, sorted2, s1, s2, t1, t2, forward, backward, threshold);
    positions := Positions(forward, backward);
    ForwardEntriesSound(sorted1, sorted2, s1, s2, forward, threshold);
    BackwardEntriesSound(sorted1, sorted2, s1, s2, t1, t2, backward, threshold);
    PositionsSound(sorted1, sorted2, s1, s2, forward, backward, threshold);
    PositionsComplete(sorted1, sorted2, s1, s2, t1, t2, forward, backward, threshold);
    PositionsInLoopOrder(forward, backward);
    ForwardHitSizes(sorted1, sorted2, s1, s2, forward, threshold);
    BackwardHitSizes(sorted1, sorted2, s1, s2, t1, t2, backward, threshold);
    PositionsSplitBySize(sorted1, sorted2, forward, backward);
    PositionsDistinct(sorted1, sorted2, forward, backward);
    assert InLoopOrder(positions, |forward|) && SplitBySize(sorted1, sorted2, positions, |forward|);
  }

  /** The positions in the size-sorted collections that the recorded pairs
      come from: (receiver, candidate) for the forward pass, swapped for the
      backward pass, whose receivers are in the second collection. */
  function Positions(forward: seq<Hit>, backward: seq<Hit>): seq<IndexPair> {
    seq(|forward|, n requires 0 <= n < |forward| => IndexPair(forward[n].receiver, forward[n].candidate))
    + seq(|backward|, n requires 0 <= n < |backward| => IndexPair(backward[n].candidate, backward[n].receiver))
  }

  /** Entry n of the similar list comes from positions[n] of the size-sorted
      collections, whose cross verdict it carries; no pair of positions is
      listed twice, and every pair of positions the cross verdict accepts is
      listed. */
  ghost predicate RecordedOnce(sorted1: seq<Entry>, sorted2: seq<Entry>, threshold: real,
                               similar: seq<SimilarPair>, positions: seq<IndexPair>)
  {
    && |positions| == |similar|
    && (forall n :: 0 <= n < |similar| ==>
          && positions[n].i < |sorted1| && positions[n].j < |sorted2|
          && similar[n].path1 == sorted1[positions[n].i].file.path
          && similar[n].path2 == sorted2[positions[n].j].file.path
          && CrossVerdict(sorted1[positions[n].i].file, sorted2[positions[n].j].file, threshold)
             == Accept(similar[n].similarity))
    && (forall a, b :: 0 <= a < b < |positions| ==> positions[a] != positions[b])
    && (forall i, j :: 0 <= i < |sorted1| && 0 <= j < |sorted2|
                       && CrossVerdict(sorted1[i].file, sorted2[j].file, threshold).Accept? ==>
          IndexPair(i, j) in positions)
  }

  /** The first m positions are in the forward pass's loop order (receiver
      in the first collection, then candidate), the rest in the backward
      pass's (receiver in the second collection, then candidate). */
  ghost predicate InLoopOrder(positions: seq<IndexPair>, m: nat)
    requires m <= |positions|
  {
    && (forall a, b :: 0 <= a < b < m ==> PairBefore(positions[a], positions[b]))
    && (forall a, b :: m <= a < b < |positions| ==>
          PairBefore(IndexPair(positions[a].j, positions[a].i), IndexPair(positions[b].j, positions[b].i)))
  }

  /** The first m positions are exactly those whose first-collection file is
      no larger than its second-collection file: the pairs the forward pass
      (lower_bound) tests, the rest being those the backward pass
      (upper_bound) tests. */
  ghost predicate SplitBySize(sorted1: seq<Entry>, sorted2: seq<Entry>, positions: seq<IndexPair>, m: nat) {
    forall n :: 0 <= n < |positions| ==>
      && positions[n].i < |sorted1| && positions[n].j < |sorted2|
      && (n < m <==> sorted1[positions[n].i].file.size <= sorted2[positions[n].j].file.size)
  }

  /** Each recorded pair sits at its positions and carries their cross verdict. */
  lemma PositionsSound(sorted1: seq<Entry>, sorted2: seq<Entry>, s1: seq<Entry>, s2: seq<Entry>,
                       forward: seq<Hit>, backward: seq<Hit>, threshold: real)
    requires forall h :: h in forward ==> h.receiver < |sorted1| && h.candidate < |sorted2|
    requires forall h :: h in backward ==> h.receiver < |s2| && h.candidate < |s1|
    requires forall n :: 0 <= n < |forward| ==>
               var h := forward[n];
               var sp := Recorded(forward, sorted1, sorted2, false)[n];
               && h.receiver < |sorted1| && h.candidate < |sorted2|
               && sp.path1 == sorted1[h.receiver].file.path && sp.path2 == sorted2[h.candidate].file.path
               && CrossVerdict(sorted1[h.receiver].file, sorted2[h.candidate].file, threshold) == Accept(sp.similarity)
    requires forall n :: 0 <= n < |backward| ==>
               var h := backward[n];
               var sp := Recorded(backward, s2, s1, true)[n];
               && h.candidate < |sorted1| && h.receiver < |sorted2|
               && sp.path1 == sorted1[h.candidate].file.path && sp.path2 == sorted2[h.receiver].file.path
               && CrossVerdict(sorted1[h.candidate].file, sorted2[h.receiver].file, threshold) == Accept(sp.similarity)
    ensures forall n :: 0 <= n < |forward| + |backward| ==>
              var sp := (Recorded(forward, sorted1, sorted2, false) + Recorded(backward, s2, s1, true))[n];
              var p := Positions(forward, backward)[n];
              && p.i < |sorted1| && p.j < |sorted2|
              && sp.path1 == sorted1[p.i].file.path && sp.path2 == sorted2[p.j].file.path
              && CrossVerdict(sorted1[p.i].file, sorted2[p.j].file, threshold) == Accept(sp.similarity)
  {
    var rf: seq<SimilarPair> := Recorded(forward, sorted1, sorted2, false);
    var rb: seq<SimilarPair> := Recorded(backward, s2, s1, true);
    var pos := Positions(forward, backward);
    forall n | 0 <= n < |forward| + |backward|
      ensures && pos[n].i < |sorted1| && pos[n].j < |sorted2|
              && (rf + rb)[n].path1 == sorted1[pos[n].i].file.path
              && (rf + rb)[n].path2 == sorted2[pos[n].j].file.path
              && CrossVerdict(sorted1[pos[n].i].file, sorted2[pos[n].j].file, threshold) == Accept((rf + rb)[n].similarity)
    {
      if n < |forward| {
        assert pos[n] == IndexPair(forward[n].receiver, forward[n].candidate) && (rf + rb)[n] == rf[n];
      } else {
        var b := n - |forward|;
        assert pos[n] == IndexPair(backward[b].candidate, backward[b].receiver) && (rf + rb)[n] == rb[b];
      }
    }
  }

  /** Each pair the forward pass records carries the cross verdict of its
      receiver and candidate. */
  lemma ForwardEntriesSound(sorted1: seq<Entry>, sorted2: seq<Entry>, s1: seq<Entry>, s2: seq<Entry>,
                            forward: seq<Hit>, threshold: real)
    requires PassDone(sorted1, sorted2, false, threshold, forward, s1, s2)
    ensures forall n :: 0 <= n < |forward| ==>
              var h := forward[n];
              var sp := Recorded(forward, sorted1, sorted2, false)[n];
              && h.receiver < |sorted1| && h.candidate < |sorted2|
              && sp.path1 == sorted1[h.receiver].file.path && sp.path2 == sorted2[h.candidate].file.path
              && CrossVerdict(sorted1[h.receiver].file, sorted2[h.candidate].file, threshold) == Accept(sp.similarity)
  {
    forall n | 0 <= n < |forward|
      ensures && forward[n].receiver < |sorted1| && forward[n].candidate < |sorted2|
              && CrossVerdict(sorted1[forward[n].receiver].file, sorted2[forward[n].candidate].file, threshold)
                 == Accept(forward[n].similarity)
    {
      var h := forward[n];
      assert h in forward;
      PassesSplitCrossPairs(sorted1[h.receiver].file, sorted2[h.candidate].file, threshold);
    }
  }

  /** Each pair the backward pass records carries the cross verdict of its
      candidate (first collection) and receiver (second collection). */
  lemma BackwardEntriesSound(sorted1: seq<Entry>, sorted2: seq<Entry>, s1: seq<Entry>, s2: seq<Entry>,
                             t1: seq<Entry>, t2: seq<Entry>, backward: seq<Hit>, threshold: real)
    requires |s1| == |sorted1| && forall k :: 0 <= k < |s1| ==> s1[k].file == sorted1[k].file
    requires |s2| == |sorted2| && forall k :: 0 <= k < |s2| ==> s2[k].file == sorted2[k].file
    requires PassDone(s2, s1, true, threshold, backward, t2, t1)
    ensures forall n :: 0 <= n < |backward| ==>
              var h := backward[n];
              var sp := Recorded(backward, s2, s1, true)[n];
              && h.candidate < |sorted1| && h.receiver < |sorted2|
              && sp.path1 == sorted1[h.candidate].file.path && sp.path2 == sorted2[h.receiver].file.path
              && CrossVerdict(sorted1[h.candidate].file, sorted2[h.receiver].file, threshold) == Accept(sp.similarity)
  {
    forall n | 0 <= n < |backward|
      ensures && backward[n].candidate < |sorted1| && backward[n].receiver < |sorted2|
              && CrossVerdict(sorted1[backward[n].candidate].file, sorted2[backward[n].receiver].file, threshold)
                 == Accept(backward[n].similarity)
    {
      var h := backward[n];
      assert h in backward;
      PassesSplitCrossPairs(sorted1[h.candidate].file, sorted2[h.receiver].file, threshold);
    }
  }

  /** No pair of positions is recorded twice: each pass records a pair once,
      and the two passes test disjoint sets of pairs, the forward pass those
      whose first-collection file is no larger, the backward pass the rest. */
  lemma PositionsDistinct(sorted1: seq<Entry>, sorted2: seq<Entry>, forward: seq<Hit>, backward: seq<Hit>)
    requires forall h :: h in forward ==>
               h.receiver < |sorted1| && h.candidate < |sorted2|
               && sorted1[h.receiver].file.size <= sorted2[h.candidate].file.size
    requires forall h :: h in backward ==>
               h.candidate < |sorted1| && h.receiver < |sorted2|
               && sorted2[h.receiver].file.size < sorted1[h.candidate].file.size
    requires forall a, b :: 0 <= a < b < |forward| ==> HitBefore(forward[a], forward[b])
    requires forall a, b :: 0 <= a < b < |backward| ==> HitBefore(backward[a], backward[b])
    ensures forall a, b :: 0 <= a < b < |Positions(forward, backward)| ==>
              Positions(forward, backward)[a] != Positions(forward, backward)[b]
  {
    var pos := Positions(forward, backward);
    var nf := |forward|;
    forall a, b | 0 <= a < b < |pos|
      ensures pos[a] != pos[b]
    {
      if b < nf {
        assert HitBefore(forward[a], forward[b]);
      } else if a >= nf {
        assert HitBefore(backward[a - nf], backward[b - nf]);
      } else {
        var ha, hb := forward[a], backward[b - nf];
        assert ha in forward && hb in backward;
        assert pos[a] == IndexPair(ha.receiver, ha.candidate);
        assert pos[b] == IndexPair(hb.candidate, hb.receiver);
      }
    }
  }

  /** Every pair of positions that the cross verdict accepts is recorded. */
  lemma PositionsComplete(sorted1: seq<Entry>, sorted2: seq<Entry>, s1: seq<Entry>, s2: seq<Entry>,
                          t1: seq<Entry>, t2: seq<Entry>, forward: seq<Hit>, backward: seq<Hit>, threshold: real)
    requires PassDone(sorted1, sorted2, false, threshold, forward, s1, s2)
    requires PassDone(s2, s1, true, threshold, backward, t2, t1)
    ensures forall i, j :: 0 <= i < |sorted1| && 0 <= j < |sorted2|
                           && CrossVerdict(sorted1[i].file, sorted2[j].file, threshold).Accept? ==>
              IndexPair(i, j) in Positions(forward, backward)
  {
    forall i, j | 0 <= i < |sorted1| && 0 <= j < |sorted2|
                  && CrossVerdict(sorted1[i].file, sorted2[j].file, threshold).Accept?
      ensures IndexPair(i, j) in Positions(forward, backward)
    {
      PassesSplitCrossPairs(sorted1[i].file, sorted2[j].file, threshold);
      if Accepted(sorted1[i].file, sorted2[j].file, false, threshold) {
        var h := Hit(i, j, Similar(sorted1[i].file, sorted2[j].file, threshold).similarity);
        assert h in forward;
        HitPositioned(forward, backward, h, false);
      } else {
        assert s2[j].file == sorted2[j].file && s1[i].file == sorted1[i].file;
        var h := Hit(j, i, Similar(sorted2[j].file, sorted1[i].file, threshold).similarity);
        assert h in backward;
        HitPositioned(forward, backward, h, true);
      }
    }
  }

  /** A recorded hit's positions appear in the position list. */
  lemma HitPositioned(forward: seq<Hit>, backward: seq<Hit>, h: Hit, inBackward: bool)
    requires if inBackward then h in backward else h in forward
    ensures !inBackward ==> IndexPair(h.receiver, h.candidate) in Positions(forward, backward)
    ensures inBackward ==> IndexPair(h.candidate, h.receiver) in Positions(forward, backward)
  {
    var pos := Positions(forward, backward);
    if inBackward {
      var n :| 0 <= n < |backward| && backward[n] == h;
      assert pos[|forward| + n] == IndexPair(h.candidate, h.receiver);
    } else {
      var n :| 0 <= n < |forward| && forward[n] == h;
      assert pos[n] == IndexPair(h.receiver, h.candidate);
    }
  }

  /** The forward pass's pairs come first, in its loop order, then the
      backward pass's, in its own. */
  lemma PositionsInLoopOrder(forward: seq<Hit>, backward: seq<Hit>)
    requires forall a, b :: 0 <= a < b < |forward| ==> HitBefore(forward[a], forward[b])
    requires forall a, b :: 0 <= a < b < |backward| ==> HitBefore(backward[a], backward[b])
    ensures InLoopOrder(Positions(forward, backward), |forward|)
  {
    var pos := Positions(forward, backward);
    forall a, b | 0 <= a < b < |forward|
      ensures PairBefore(pos[a], pos[b])
    {
      assert HitBefore(forward[a], forward[b]);
    }
    forall a, b | |forward| <= a < b < |pos|
      ensures PairBefore(IndexPair(pos[a].j, pos[a].i), IndexPair(pos[b].j, pos[b].i))
    {
      assert HitBefore(backward[a - |forward|], backward[b - |forward|]);
    }
  }

  /** The position list splits at the end of the forward pass's entries by
      size: the forward pass only accepts candidates at least as large as the
      receiver, the backward pass only strictly larger ones. */
  lemma PositionsSplitBySize(sorted1: seq<Entry>, sorted2: seq<Entry>, forward: seq<Hit>, backward: seq<Hit>)
    requires forall h :: h in forward ==>
               h.receiver < |sorted1| && h.candidate < |sorted2|
               && sorted1[h.receiver].file.size <= sorted2[h.candidate].file.size
    requires forall h :: h in backward ==>
               h.candidate < |sorted1| && h.receiver < |sorted2|
               && sorted2[h.receiver].file.size < sorted1[h.candidate].file.size
    ensures SplitBySize(sorted1, sorted2, Positions(forward, backward), |forward|)
  {
    var pos := Positions(forward, backward);
    forall n | 0 <= n < |pos|
      ensures && pos[n].i < |sorted1| && pos[n].j < |sorted2|
              && (n < |forward| <==> sorted1[pos[n].i].file.size <= sorted2[pos[n].j].file.size)
    {
      if n < |forward| {
        var h := forward[n];
        assert h in forward;
        assert pos[n] == IndexPair(h.receiver, h.candidate);
      } else {
        var h := backward[n - |forward|];
        assert h in backward;
        assert pos[n] == IndexPair(h.candidate, h.receiver);
      }
    }
  }

  /** The forward pass (lower_bound) accepts only candidates at least as
      large as their receiver. */
  lemma ForwardHitSizes(sorted1: seq<Entry>, sorted2: seq<Entry>, s1: seq<Entry>, s2: seq<Entry>,
                        forward: seq<Hit>, threshold: real)
    requires PassDone(sorted1, sorted2, false, threshold, forward, s1, s2)
    ensures forall h :: h in forward ==>
              h.receiver < |sorted1| && h.candidate < |sorted2|
              && sorted1[h.receiver].file.size <= sorted2[h.candidate].file.size
  {
  }

  /** The backward pass (upper_bound) accepts only candidates strictly larger
      than their receiver. */
  lemma BackwardHitSizes(sorted1: seq<Entry>, sorted2: seq<Entry>, s1: seq<Entry>, s2: seq<Entry>,
                         t1: seq<Entry>, t2: seq<Entry>, backward: seq<Hit>, threshold: real)
    requires |s1| == |sorted1| && forall k :: 0 <= k < |s1| ==> s1[k].file == sorted1[k].file
    requires |s2| == |sorted2| && forall k :: 0 <= k < |s2| ==> s2[k].file == sorted2[k].file
    requires PassDone(s2, s1, true, threshold, backward, t2, t1)
    ensures forall h :: h in backward ==>
              h.candidate < |sorted1| && h.receiver < |sorted2|
              && sorted2[h.receiver].file.size < sorted1[h.candidate].file.size
  {
    forall h | h in backward
      ensures sorted2[h.receiver].file.size < sorted1[h.candidate].file.size
    {
      assert s1[h.candidate].file == sorted1[h.candidate].file;
      assert s2[h.receiver].file == sorted2[h.receiver].file;
    }
  }

  /** After the forward pass over (sorted1, sorted2) and the backward pass over
      (s2, s1), the recorded pairs are exactly the accepted cross pairs. */
  lemma PassesListPairs(files1: seq<FileRecord>, files2: seq<FileRecord>, sorted1: seq<Entry>, sorted2: seq<Entry>,
                        s1: seq<Entry>, s2: seq<Entry>, t1: seq<Entry>, t2: seq<Entry>,
                        forward: seq<Hit>, backward: seq<Hit>, threshold: real)
    requires forall f :: f in files1 <==> exists c :: 0 <= c < |sorted1| && sorted1[c].file == f
    requires forall g :: g in files2 <==> exists c :: 0 <= c < |sorted2| && sorted2[c].file == g
    requires PassDone(sorted1, sorted2, false, threshold, forward, s1, s2)
    requires PassDone(s2, s1, true, threshold, backward, t2, t1)
    ensures forall sp :: sp in Recorded(forward, sorted1, sorted2, false) + Recorded(backward, s2, s1, true) <==>
              exists f1, f2 :: f1 in files1 && f2 in files2 && CrossVerdict(f1, f2, threshold) == Accept(sp.similarity)
                               && sp.path1 == f1.path && sp.path2 == f2.path
  {
    SameFilesCover(files1, sorted1, s1);
    SameFilesCover(files2, sorted2, s2);
    ForwardRecordedSound(files1, files2, sorted1, sorted2, forward, threshold);
    BackwardRecordedSound(files1, files2, s1, s2, backward, threshold);
    CrossPairsRecorded(files1, files2, sorted1, sorted2, s1, s2, forward, backward, threshold);
  }

  /** After both passes, every flag records whether its file has an equal or
      similar partner in the other collection. */
  lemma PassesClassifyFlags(files1: seq<FileRecord>, files2: seq<FileRecord>, sorted1: seq<Entry>, sorted2: seq<Entry>,
                            s1: seq<Entry>, s2: seq<Entry>, t1: seq<Entry>, t2: seq<Entry>,
                            forward: seq<Hit>, backward: seq<Hit>, threshold: real)
    requires forall f :: f in files1 <==> exists c :: 0 <= c < |sorted1| && sorted1[c].file == f
    requires forall g :: g in files2 <==> exists c :: 0 <= c < |sorted2| && sorted2[c].file == g
    requires forall c :: 0 <= c < |sorted1| ==> (sorted1[c].matched <==> EqualPartner(sorted1[c].file, files2))
    requires forall c :: 0 <= c < |sorted2| ==> (sorted2[c].matched <==> EqualPartner(sorted2[c].file, files1))
    requires PassDone(sorted1, sorted2, false, threshold, forward, s1, s2)
    requires PassDone(s2, s1, true, threshold, backward, t2, t1)
    ensures |t1| == |sorted1| && |t2| == |sorted2|
    ensures forall c :: 0 <= c < |t1| ==>
              t1[c].file == sorted1[c].file && (t1[c].matched <==> MatchedFirst(t1[c].file, files2, threshold))
    ensures forall c :: 0 <= c < |t2| ==>
              t2[c].file == sorted2[c].file && (t2[c].matched <==> MatchedSecond(t2[c].file, files1, threshold))
  {
    FirstFlagsClassified(files2, sorted1, sorted2, s1, s2, t1, threshold);
    SecondFlagsClassified(files1, sorted1, sorted2, s1, s2, t2, threshold);
  }

  /** The flags of the exact pass, restated per file. */
  lemma ExactFlagsArePartners(files1: seq<FileRecord>, files2: seq<FileRecord>, es1: seq<Entry>, es2: seq<Entry>)
    requires |es1| == |files1| && |es2| == |files2|
    requires forall i :: 0 <= i < |files1| ==> es1[i].file == files1[i]
    requires forall j :: 0 <= j < |files2| ==> es2[j].file == files2[j]
    requires forall i :: 0 <= i < |files1| ==>
               (es1[i].matched <==> exists j :: 0 <= j < |files2| && Equals(files1[i], files2[j]))
    requires forall j :: 0 <= j < |files2| ==>
               (es2[j].matched <==> exists i :: 0 <= i < |files1| && Equals(files1[i], files2[j]))
    ensures forall k :: 0 <= k < |es1| ==> (es1[k].matched <==> EqualPartner(es1[k].file, files2))
    ensures forall k :: 0 <= k < |es2| ==> (es2[k].matched <==> EqualPartner(es2[k].file, files1))
  {
    forall k | 0 <= k < |es1|
      ensures es1[k].matched <==> EqualPartner(es1[k].file, files2)
    {
      if es1[k].matched {
        var j :| 0 <= j < |files2| && Equals(files1[k], files2[j]);
        assert files2[j] in files2;
      }
    }
    forall k | 0 <= k < |es2|
      ensures es2[k].matched <==> EqualPartner(es2[k].file, files1)
    {
      if es2[k].matched {
        var i :| 0 <= i < |files1| && Equals(files1[i], files2[k]);
        assert files1[i] in files1;
      }
    }
  }

  /** compare_files on two collections already read from disk. Equal pairs
      are exactly the cross pairs that equals accepts; similar pairs are
      exactly the cross pairs similar accepts with the smaller file as
      receiver, whether or not they are also equal; a file is unique exactly
      when nothing in the other collection is equal or similar to it. */
  method CompareFiles(files1: seq<FileRecord>, files2: seq<FileRecord>, threshold: real) returns (out: Outcome)
    requires 0.0 < threshold <= 1.0
    ensures forall pp :: pp in out.equal <==>
              exists f1, f2 :: f1 in files1 && f2 in files2 && Equals(f1, f2) && pp == PathPair(f1.path, f2.path)
    ensures out.equal == EqualPaths(files1, files2)
    ensures forall sp :: sp in out.similar <==>
              exists f1, f2 :: f1 in files1 && f2 in files2 && CrossVerdict(f1, f2, threshold) == Accept(sp.similarity)
                               && sp.path1 == f1.path && sp.path2 == f2.path
    ensures forall f :: f in out.unique1 <==> f in files1 && !MatchedFirst(f, files2, threshold)
    ensures forall g :: g in out.unique2 <==> g in files2 && !MatchedSecond(g, files1, threshold)
    ensures SizeOrdered(out.unique1) && SizeOrdered(out.unique2)
    ensures forall f :: multiset(out.unique1)[f] == if MatchedFirst(f, files2, threshold) then 0 else multiset(files1)[f]
    ensures forall g :: multiset(out.unique2)[g] == if MatchedSecond(g, files1, threshold) then 0 else multiset(files2)[g]
  {
    var pairs, es1, es2 := ExactPass(files1, files2);
    var equal := seq(|pairs|, n requires 0 <= n < |pairs| =>
                       PathPair(files1[pairs[n].i].path, files2[pairs[n].j].path));
    assert equal == EqualPaths(files1, files2);

    ExactFlagsArePartners(files1, files2, es1, es2);
    var sorted1 := SortBySize(es1);
    var sorted2 := SortBySize(es2);
    SortedSidePrepared(files1, files2, es1, sorted1);
    SortedSidePrepared(files2, files1, es2, sorted2);

    var similar, positions, t1, t2 := SimilarityPasses(files1, files2, sorted1, sorted2, threshold);
    UniqueFirst(files1, files2, sorted1, t1, threshold);
    UniqueSecond(files1, files2, sorted2, t2, threshold);
    out := Outcome(equal, similar, Unmatched(t1), Unmatched(t2));
  }

  /** Sorting one side of the exact pass's output keeps its files and the
      meaning of its flags, and orders it by size. */
  lemma SortedSidePrepared(files: seq<FileRecord>, others: seq<FileRecord>, es: seq<Entry>, sorted: seq<Entry>)
    requires |es| == |files| && forall k :: 0 <= k < |es| ==> es[k].file == files[k]
    requires forall k :: 0 <= k < |es| ==> (es[k].matched <==> EqualPartner(es[k].file, others))
    requires sorted == SortBySize(es)
    ensures SortedBySize(sorted)
    ensures forall f :: f in files <==> exists c :: 0 <= c < |sorted| && sorted[c].file == f
    ensures forall c :: 0 <= c < |sorted| ==> (sorted[c].matched <==> EqualPartner(sorted[c].file, others))
    ensures multiset(FilesOf(sorted)) == multiset(files)
  {
    SortKeepsFiles(es, files, sorted);
    ExactFlagsSurviveSort(es, others, sorted);
    PermutedFiles(sorted, es);
    assert FilesOf(es) == files;
  }

  /** The files of the first collection left unflagged after both passes are
      exactly those with no equal or similar partner, in size order. */
  lemma UniqueFirst(files1: seq<FileRecord>, files2: seq<FileRecord>, sorted1: seq<Entry>, t1: seq<Entry>, threshold: real)
    requires SortedBySize(sorted1)
    requires forall f :: f in files1 <==> exists c :: 0 <= c < |sorted1| && sorted1[c].file == f
    requires |t1| == |sorted1|
    requires forall c :: 0 <= c < |t1| ==>
               t1[c].file == sorted1[c].file && (t1[c].matched <==> MatchedFirst(t1[c].file, files2, threshold))
    requires multiset(FilesOf(sorted1)) == multiset(files1)
    ensures forall f :: f in Unmatched(t1) <==> f in files1 && !MatchedFirst(f, files2, threshold)
    ensures SizeOrdered(Unmatched(t1))
    ensures forall f :: multiset(Unmatched(t1))[f] == if MatchedFirst(f, files2, threshold) then 0 else multiset(files1)[f]
  {
    SameFilesKeepOrder(sorted1, t1);
    UnmatchedInSizeOrder(t1);
    assert FilesOf(t1) == FilesOf(sorted1);
    forall f
      ensures multiset(Unmatched(t1))[f] == if MatchedFirst(f, files2, threshold) then 0 else multiset(files1)[f]
    {
      UnmatchedCount(t1, f, MatchedFirst(f, files2, threshold));
    }
  }

  /** The mirror of UniqueFirst for the second collection. */
  lemma UniqueSecond(files1: seq<FileRecord>, files2: seq<FileRecord>, sorted2: seq<Entry>, t2: seq<Entry>, threshold: real)
    requires SortedBySize(sorted2)
    requires forall g :: g in files2 <==> exists c :: 0 <= c < |sorted2| && sorted2[c].file == g
    requires |t2| == |sorted2|
    requires forall c :: 0 <= c < |t2| ==>
               t2[c].file == sorted2[c].file && (t2[c].matched <==> MatchedSecond(t2[c].file, files1, threshold))
    requires multiset(FilesOf(sorted2)) == multiset(files2)
    ensures forall g :: g in Unmatched(t2) <==> g in files2 && !MatchedSecond(g, files1, threshold)
    ensures SizeOrdered(Unmatched(t2))
    ensures forall g :: multiset(Unmatched(t2))[g] == if MatchedSecond(g, files1, threshold) then 0 else multiset(files2)[g]
  {
    SameFilesKeepOrder(sorted2, t2);
    UnmatchedInSizeOrder(t2);
    assert FilesOf(t2) == FilesOf(sorted2);
    forall g
      ensures multiset(Unmatched(t2))[g] == if MatchedSecond(g, files1, threshold) then 0 else multiset(files2)[g]
    {
      UnmatchedCount(t2, g, MatchedSecond(g, files1, threshold));
    }
  }

  /** The exact pass's index pairs, turned into path pairs, are exactly the
      equal cross pairs. */
  lemma EqualListed(files1: seq<FileRecord>, files2: seq<FileRecord>, pairs: seq<IndexPair>, equal: seq<PathPair>)
    requires forall p :: p in pairs <==> p.i < |files1| && p.j < |files2| && Equals(files1[p.i], files2[p.j])
    requires |equal| == |pairs|
    requires forall n :: 0 <= n < |pairs| ==>
               pairs[n].i < |files1| && pairs[n].j < |files2|
               && equal[n] == PathPair(files1[pairs[n].i].path, files2[pairs[n].j].path)
    ensures forall pp :: pp in equal <==>
              exists f1, f2 :: f1 in files1 && f2 in files2 && Equals(f1, f2) && pp == PathPair(f1.path, f2.path)
  {
    forall pp | pp in equal
      ensures exists f1, f2 :: f1 in files1 && f2 in files2 && Equals(f1, f2) && pp == PathPair(f1.path, f2.path)
    {
      var n :| 0 <= n < |equal| && equal[n] == pp;
      assert pairs[n] in pairs;
      assert files1[pairs[n].i] in files1 && files2[pairs[n].j] in files2;
    }
    forall pp: PathPair, f1, f2 | f1 in files1 && f2 in files2 && Equals(f1, f2) && pp == PathPair(f1.path, f2.path)
      ensures pp in equal
    {
      var i :| 0 <= i < |files1| && files1[i] == f1;
      var j :| 0 <= j < |files2| && files2[j] == f2;
      assert IndexPair(i, j) in pairs;
      var n :| 0 <= n < |pairs| && pairs[n] == IndexPair(i, j);
      assert equal[n] == pp;
    }
  }

  /** The equal pairs as compare_files lists them: the paths of the
      reference index pairs, each equal cross pair once, in nested-loop order. */
  function EqualPaths(files1: seq<FileRecord>, files2: seq<FileRecord>): (r: seq<PathPair>)
    ensures |r| == |EqualIndexPairs(files1, files2, |files1|)|
    ensures forall pp :: pp in r <==>
              exists f1, f2 :: f1 in files1 && f2 in files2 && Equals(f1, f2) && pp == PathPair(f1.path, f2.path)
  {
    var pairs := EqualIndexPairs(files1, files2, |files1|);
    EqualIndexPairsInOrder(files1, files2, |files1|);
    var r := seq(|pairs|, n requires 0 <= n < |pairs| =>
                   assert pairs[n] in pairs;
                   PathPair(files1[pairs[n].i].path, files2[pairs[n].j].path));
    EqualListed(files1, files2, pairs, r);
    r
  }

  /** The similarity passes do not skip flagged files: two non-empty files
      with the same bytes form an equal pair and a similar pair (score 1). */
  lemma EqualPairAlsoSimilar(f1: FileRecord, f2: FileRecord, sha1: seq<byte> -> Digest, threshold: real)
    requires 0.0 < threshold <= 1.0
    requires Fingerprinted(f1, sha1) && Fingerprinted(f2, sha1)
    requires f1.content == f2.content && |f1.content| > 0
    ensures Equals(f1, f2)
    ensures CrossVerdict(f1, f2, threshold) == Accept(1.0)
  {
    SameContentEquals(f1, f2, sha1);
    SameContentSimilar(f1, f2, threshold);
  }
}
