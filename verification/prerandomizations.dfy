/** The block-shuffle ("pseudo-constrained") label sequence generator,
    `pseudo_label_mapper(labels, elements)`.

    The generator appends `elements` chunks, each a shuffled copy of
    `0 .. labels-1`. Before a chunk is appended, if its first entry equals the
    last entry appended so far, the chunk's first and last entries are
    exchanged. The shuffles are the caller's: `chunks[b]` is what
    `np.random.shuffle` left in the chunk of block `b`. */
module Prerandomizations {
  import opened Arith
  import opened Results

  /** A count argument as Python receives it: an `int`, or a `str` such as
      `'50'` (which the generator rejects). */
  datatype Count = IntCount(n: int) | TextCount(text: string)

  /** The exceptions the generator can raise. */
  datatype MapperError =
    | TypeError          // `range('50')` or `np.arange('10')`
    | IndexError         // `chunk[0]` on the empty chunk of `labels <= 0`
    | UnboundLocalError  // `label_list` never bound: the loop ran zero times

  /** `np.arange(n)`: `n` entries, and a value occurs in it exactly when it
      is one of `0 .. n-1`. */
  function Range(n: nat): (r: seq<int>)
    ensures |r| == n
    ensures forall v :: v in r <==> 0 <= v < n
  {
    var r := seq(n, i => i);
    forall v ensures v in r <==> 0 <= v < n {
      if 0 <= v < n {
        assert r[v] == v;
      }
    }
    r
  }

  /** `chunk` is some ordering of `0 .. labels-1`. */
  ghost predicate IsShuffle(chunk: seq<int>, labels: nat)
  {
    |chunk| == labels && multiset(chunk) == multiset(Range(labels))
  }

  ghost predicate AllShuffles(chunks: seq<seq<int>>, labels: nat)
  {
    forall b :: 0 <= b < |chunks| ==> IsShuffle(chunks[b], labels)
  }

  ghost predicate NoAdjacentRepeat(s: seq<int>)
  {
    forall j :: 0 < j < |s| ==> s[j - 1] != s[j]
  }

  /** `chunk[0], chunk[-1] = chunk[-1], chunk[0]`. */
  function SwapEnds(chunk: seq<int>): (r: seq<int>)
    requires |chunk| >= 1
    ensures |r| == |chunk|
    ensures multiset(r) == multiset(chunk)
    ensures r[0] == chunk[|chunk| - 1] && r[|r| - 1] == chunk[0]
    ensures forall k :: 0 < k < |chunk| - 1 ==> r[k] == chunk[k]
  {
    chunk[0 := chunk[|chunk| - 1]][|chunk| - 1 := chunk[0]]
  }

  /** The boundary check against the entry appended last. */
  function Fix(chunk: seq<int>, prev: int): (r: seq<int>)
    requires |chunk| >= 1
    ensures |r| == |chunk|
  {
    if chunk[0] == prev then SwapEnds(chunk) else chunk
  }

  /** The loop from its second iteration on: `built` is `label_list` so far,
      and each remaining chunk is checked against its last entry, then
      appended. */
  function Build(built: seq<int>, chunks: seq<seq<int>>): seq<int>
    requires |built| >= 1
    requires forall b :: 0 <= b < |chunks| ==> |chunks[b]| >= 1
    decreases |chunks|
  {
    if |chunks| == 0 then built
    else Build(built + Fix(chunks[0], built[|built| - 1]), chunks[1..])
  }

  /** The whole loop: on the first iteration `label_list[-1]` raises
      `NameError`, so the first chunk is appended exactly as shuffled. */
  function LabelList(chunks: seq<seq<int>>): seq<int>
    requires |chunks| >= 1
    requires forall b :: 0 <= b < |chunks| ==> |chunks[b]| >= 1
  {
    Build(chunks[0], chunks[1..])
  }

  /** What the caller's shuffles must be: one ordering of `0 .. labels-1`
      per block, whenever both counts are usable. */
  ghost predicate ShufflesFit(labels: Count, elements: Count, chunks: seq<seq<int>>)
  {
    (labels.IntCount? && elements.IntCount? && labels.n >= 1 && elements.n >= 1) ==>
      |chunks| == elements.n && AllShuffles(chunks, labels.n)
  }

  /** `pseudo_label_mapper(labels, elements)`, with the shuffles supplied. */
  function PseudoLabelMapper(labels: Count, elements: Count, chunks: seq<seq<int>>): (r: Result<seq<int>, MapperError>)
    requires ShufflesFit(labels, elements, chunks)
    ensures r.Success? <==> (labels.IntCount? && elements.IntCount? && labels.n >= 1 && elements.n >= 1)
    ensures elements.TextCount? ==> r == Failure(TypeError)
    ensures elements.IntCount? && elements.n <= 0 ==> r == Failure(UnboundLocalError)
    ensures elements.IntCount? && elements.n >= 1 && labels.TextCount? ==> r == Failure(TypeError)
    ensures elements.IntCount? && elements.n >= 1 && labels.IntCount? && labels.n <= 0 ==> r == Failure(IndexError)
    ensures r.Success? ==> |r.value| == labels.n * elements.n
    ensures r.Success? ==> forall v :: multiset(r.value)[v] == (if 0 <= v < labels.n then elements.n else 0)
    ensures r.Success? && labels.n >= 2 ==> NoAdjacentRepeat(r.value)
  {
    match elements
    case TextCount(_) => Failure(TypeError)
    case IntCount(e) =>
      if e <= 0 then Failure(UnboundLocalError)
      else match labels
        case TextCount(_) => Failure(TypeError)
        case IntCount(l) =>
          if l <= 0 then Failure(IndexError)
          else
            ShufflesHaveLength(chunks, l);
            var r := LabelList(chunks);
            LabelListLength(chunks, l);
            LabelListCounts(chunks, l);
            if l >= 2 then
              LabelListNoAdjacentRepeat(chunks, l);
              Success(r)
            else
              Success(r)
  }

  // ---------------------------------------------------------------------
  // Facts about a single chunk

  lemma {:induction false} RangeCount(n: nat, v: int)
    ensures multiset(Range(n))[v] == (if 0 <= v < n then 1 else 0)
  {
    if n > 0 {
      assert Range(n) == Range(n - 1) + [n - 1];
      RangeCount(n - 1, v);
    } else {
      assert Range(0) == [];
    }
  }

  /** A shuffle has `labels` entries, each in `0 .. labels-1`, no two equal. */
  lemma ShuffleFacts(chunk: seq<int>, labels: nat)
    requires IsShuffle(chunk, labels)
    ensures |chunk| == labels
    ensures forall k :: 0 <= k < |chunk| ==> 0 <= chunk[k] < labels
    ensures forall i, j :: 0 <= i < j < |chunk| ==> chunk[i] != chunk[j]
  {
    forall k | 0 <= k < |chunk| ensures 0 <= chunk[k] < labels {
      assert chunk[k] in multiset(chunk);
      RangeCount(labels, chunk[k]);
    }
    forall i, j | 0 <= i < j < |chunk| ensures chunk[i] != chunk[j] {
      if chunk[i] == chunk[j] {
        var v := chunk[i];
        assert chunk == chunk[..j] + chunk[j..];
        assert v in multiset(chunk[..j]);
        assert v in multiset(chunk[j..]);
        assert multiset(chunk)[v] == multiset(chunk[..j])[v] + multiset(chunk[j..])[v];
        RangeCount(labels, v);
        assert false;
      }
    }
  }

  lemma ShufflesHaveLength(chunks: seq<seq<int>>, labels: nat)
    requires AllShuffles(chunks, labels)
    ensures forall b :: 0 <= b < |chunks| ==> |chunks[b]| == labels
  {
  }

  /** What the boundary check does to any chunk: a chunk that does not
      start with the previous entry is left alone; otherwise its first entry
      becomes the old last one, so the checked chunk starts with the previous
      entry only if both its ends did. The contents and the interior never
      change. */
  lemma FixOutcome(chunk: seq<int>, prev: int)
    requires |chunk| >= 1
    ensures chunk[0] != prev ==> Fix(chunk, prev) == chunk
    ensures chunk[|chunk| - 1] != prev ==> Fix(chunk, prev)[0] != prev
    ensures multiset(Fix(chunk, prev)) == multiset(chunk)
    ensures forall k :: 0 < k < |chunk| - 1 ==> Fix(chunk, prev)[k] == chunk[k]
  {
  }

  /** The boundary check keeps the chunk a shuffle and, for two or more
      labels, never leaves its first entry equal to the previous entry. */
  lemma FixFacts(chunk: seq<int>, prev: int, labels: nat)
    requires IsShuffle(chunk, labels) && labels >= 1
    ensures IsShuffle(Fix(chunk, prev), labels)
    ensures labels >= 2 ==> Fix(chunk, prev)[0] != prev
  {
    ShuffleFacts(chunk, labels);
  }

  // ---------------------------------------------------------------------
  // Facts about the loop, for any list built so far

  lemma {:induction false} BuildPrefix(built: seq<int>, chunks: seq<seq<int>>, k: nat)
    requires |built| >= 1
    requires forall b :: 0 <= b < |chunks| ==> |chunks[b]| >= 1
    requires k <= |chunks|
    ensures built <= Build(built, chunks[..k]) <= Build(built, chunks)
    decreases |chunks|
  {
    if k == |chunks| {
      assert chunks[..k] == chunks;
      if k > 0 {
        BuildPrefix(built + Fix(chunks[0], built[|built| - 1]), chunks[1..], k - 1);
      }
    } else if k == 0 {
      assert chunks[..k] == [];
      BuildPrefix(built + Fix(chunks[0], built[|built| - 1]), chunks[1..], 0);
      assert chunks[1..][..0] == [];
    } else {
      var next := built + Fix(chunks[0], built[|built| - 1]);
      BuildPrefix(next, chunks[1..], k - 1);
      assert chunks[..k][0] == chunks[0];
      assert chunks[..k][1..] == chunks[1..][..k - 1];
    }
  }

  lemma {:induction false} BuildLength(built: seq<int>, chunks: seq<seq<int>>, labels: nat)
    requires |built| >= 1 && labels >= 1
    requires forall b :: 0 <= b < |chunks| ==> |chunks[b]| == labels
    ensures |Build(built, chunks)| == |built| + |chunks| * labels
    decreases |chunks|
  {
    if |chunks| > 0 {
      BuildLength(built + Fix(chunks[0], built[|built| - 1]), chunks[1..], labels);
      assert (|chunks| - 1) * labels + labels == |chunks| * labels;
    }
  }

  lemma {:induction false} BuildCounts(built: seq<int>, chunks: seq<seq<int>>, labels: nat, v: int)
    requires |built| >= 1 && labels >= 1 && AllShuffles(chunks, labels)
    ensures multiset(Build(built, chunks))[v]
            == multiset(built)[v] + (if 0 <= v < labels then |chunks| else 0)
    decreases |chunks|
  {
    if |chunks| > 0 {
      var fixed := Fix(chunks[0], built[|built| - 1]);
      FixFacts(chunks[0], built[|built| - 1], labels);
      RangeCount(labels, v);
      BuildCounts(built + fixed, chunks[1..], labels, v);
    }
  }

  lemma {:induction false} BuildNoAdjacentRepeat(built: seq<int>, chunks: seq<seq<int>>, labels: nat)
    requires |built| >= 1 && labels >= 2 && AllShuffles(chunks, labels)
    requires NoAdjacentRepeat(built)
    ensures NoAdjacentRepeat(Build(built, chunks))
    decreases |chunks|
  {
    if |chunks| > 0 {
      var fixed := Fix(chunks[0], built[|built| - 1]);
      FixFacts(chunks[0], built[|built| - 1], labels);
      ShuffleFacts(fixed, labels);
      var next := built + fixed;
      forall j | 0 < j < |next| ensures next[j - 1] != next[j] {
        if j < |built| {
          assert next[j - 1] == built[j - 1] && next[j] == built[j];
        } else if j == |built| {
          assert next[j - 1] == built[|built| - 1] && next[j] == fixed[0];
        } else {
          assert next[j - 1] == fixed[j - 1 - |built|] && next[j] == fixed[j - |built|];
        }
      }
      BuildNoAdjacentRepeat(next, chunks[1..], labels);
    }
  }

  /** Running the loop over `b + 1` chunks is running it over `b` chunks,
      then checking and appending chunk `b`. */
  lemma {:induction false} BuildStep(built: seq<int>, chunks: seq<seq<int>>, b: nat)
    requires |built| >= 1
    requires forall c :: 0 <= c < |chunks| ==> |chunks[c]| >= 1
    requires b < |chunks|
    ensures |Build(built, chunks[..b])| >= 1
    ensures Build(built, chunks[..b + 1])
            == Build(built, chunks[..b]) + Fix(chunks[b], Build(built, chunks[..b])[|Build(built, chunks[..b])| - 1])
    decreases b
  {
    BuildPrefix(built, chunks, b);
    var next := built + Fix(chunks[0], built[|built| - 1]);
    if b == 0 {
      assert chunks[..1] == [chunks[0]];
      assert chunks[..0] == [];
      assert chunks[..1][1..] == [];
    } else {
      BuildStep(next, chunks[1..], b - 1);
      assert chunks[..b + 1][1..] == chunks[1..][..b];
      assert chunks[..b][1..] == chunks[1..][..b - 1];
      assert chunks[..b + 1][0] == chunks[..b][0] == chunks[0];
    }
  }

  // ---------------------------------------------------------------------
  // Facts about the generated list

  /** `labels * elements` entries in all. */
  lemma LabelListLength(chunks: seq<seq<int>>, labels: nat)
    requires |chunks| >= 1 && labels >= 1
    requires forall b :: 0 <= b < |chunks| ==> |chunks[b]| == labels
    ensures |LabelList(chunks)| == |chunks| * labels
  {
    BuildLength(chunks[0], chunks[1..], labels);
    assert (|chunks| - 1) * labels + labels == |chunks| * labels;
  }

  /** Entries are only ever appended: the list built from the first `k`
      chunks is a prefix of the final list. */
  lemma LabelListPrefix(chunks: seq<seq<int>>, k: nat)
    requires forall b :: 0 <= b < |chunks| ==> |chunks[b]| >= 1
    requires 1 <= k <= |chunks|
    ensures LabelList(chunks[..k]) <= LabelList(chunks)
  {
    BuildPrefix(chunks[0], chunks[1..], k - 1);
    assert chunks[..k][1..] == chunks[1..][..k - 1];
  }

  /** The list after `b + 1` chunks is the list after `b` chunks followed by
      chunk `b` checked against its last entry. */
  lemma LabelListStep(chunks: seq<seq<int>>, b: nat)
    requires forall c :: 0 <= c < |chunks| ==> |chunks[c]| >= 1
    requires 0 < b < |chunks|
    ensures |LabelList(chunks[..b])| >= 1
    ensures LabelList(chunks[..b + 1])
            == LabelList(chunks[..b]) + Fix(chunks[b], LabelList(chunks[..b])[|LabelList(chunks[..b])| - 1])
  {
    var tail := chunks[1..];
    BuildStep(chunks[0], tail, b - 1);
    assert chunks[..b + 1][0] == chunks[..b][0] == chunks[0];
    assert chunks[..b + 1][1..] == tail[..b];
    assert chunks[..b][1..] == tail[..b - 1];
    assert tail[b - 1] == chunks[b];
  }

  /** The lengths of the lists after `b` and after `b + 1` chunks. */
  lemma LabelListPrefixLengths(chunks: seq<seq<int>>, labels: nat, b: nat)
    requires labels >= 1
    requires forall c :: 0 <= c < |chunks| ==> |chunks[c]| == labels
    requires 0 < b < |chunks|
    ensures |LabelList(chunks[..b])| == b * labels
    ensures |LabelList(chunks[..b + 1])| == b * labels + labels
    ensures b * labels + labels <= |LabelList(chunks)|
  {
    LabelListLength(chunks, labels);
    LabelListLength(chunks[..b], labels);
    LabelListLength(chunks[..b + 1], labels);
    MulSucc(b, labels);
    MulMonotone(b + 1, |chunks|, labels);
  }

  /** Block `b` of the output, for `b > 0`, is chunk `b` after the boundary
      check against the entry just before the block. */
  lemma LabelListLaterBlock(chunks: seq<seq<int>>, labels: nat, b: nat)
    requires labels >= 1
    requires forall c :: 0 <= c < |chunks| ==> |chunks[c]| == labels
    requires 0 < b < |chunks|
    ensures b * labels + labels <= |LabelList(chunks)|
    ensures LabelList(chunks)[b * labels..b * labels + labels]
            == Fix(chunks[b], LabelList(chunks)[b * labels - 1])
  {
    LabelListPrefixLengths(chunks, labels, b);
    LabelListPrefix(chunks, b + 1);
    LabelListStep(chunks, b);
    var before := LabelList(chunks[..b]);
    AppendedBlock(LabelList(chunks), before, Fix(chunks[b], before[|before| - 1]));
  }

  /** A list extended by `block` and then by more: the block sits right
      after the old list, whose last entry is unchanged. */
  lemma AppendedBlock(r: seq<int>, before: seq<int>, block: seq<int>)
    requires |before| >= 1 && before + block <= r
    ensures r[|before|..|before| + |block|] == block
    ensures r[|before| - 1] == before[|before| - 1]
  {
    var m := |before|;
    assert r[..m + |block|] == before + block;
    assert r[m..m + |block|] == (before + block)[m..];
  }

  /** The first block is the first chunk exactly as shuffled; block `b > 0`
      is chunk `b` after the boundary check against the entry just before
      the block, so it differs from the shuffle only when the shuffle's first
      entry repeats that entry, and then only in its two end positions. */
  lemma LabelListBlock(chunks: seq<seq<int>>, labels: nat, b: nat)
    requires labels >= 1
    requires forall c :: 0 <= c < |chunks| ==> |chunks[c]| == labels
    requires b < |chunks|
    ensures b * labels + labels <= |LabelList(chunks)|
    ensures b == 0 ==> LabelList(chunks)[..labels] == chunks[0]
    ensures b > 0 ==>
      var r := LabelList(chunks);
      var block := r[b * labels..b * labels + labels];
      && (chunks[b][0] != r[b * labels - 1] ==> block == chunks[b])
      && (chunks[b][0] == r[b * labels - 1] ==> block == SwapEnds(chunks[b]))
      && (forall k :: 0 < k < labels - 1 ==> block[k] == chunks[b][k])
  {
    if b == 0 {
      LabelListLength(chunks, labels);
      LabelListPrefix(chunks, 1);
      assert chunks[..1][1..] == [];
      assert LabelList(chunks[..1]) == chunks[0];
    } else {
      LabelListLaterBlock(chunks, labels, b);
    }
  }

  /** Every block of `labels` entries starting at a multiple of `labels` is
      itself an ordering of `0 .. labels-1`. */
  lemma LabelListBlocksAreShuffles(chunks: seq<seq<int>>, labels: nat, b: nat)
    requires labels >= 1 && AllShuffles(chunks, labels)
    requires b < |chunks|
    ensures b * labels + labels <= |LabelList(chunks)|
    ensures IsShuffle(LabelList(chunks)[b * labels..b * labels + labels], labels)
  {
    LabelListBlock(chunks, labels, b);
    var r := LabelList(chunks);
    if b == 0 {
      assert r[0..labels] == r[..labels];
    } else {
      FixFacts(chunks[b], r[b * labels - 1], labels);
    }
  }

  /** Every label `0 .. labels-1` occurs once per chunk, and no other value
      occurs. */
  lemma LabelListCounts(chunks: seq<seq<int>>, labels: nat)
    requires |chunks| >= 1 && labels >= 1 && AllShuffles(chunks, labels)
    ensures forall v :: multiset(LabelList(chunks))[v] == (if 0 <= v < labels then |chunks| else 0)
  {
    forall v ensures multiset(LabelList(chunks))[v] == (if 0 <= v < labels then |chunks| else 0) {
      RangeCount(labels, v);
      BuildCounts(chunks[0], chunks[1..], labels, v);
    }
  }

  /** With two or more labels no two neighbouring entries are equal: entries
      of one chunk are distinct, and the boundary check separates each chunk
      from the entry before it. */
  lemma LabelListNoAdjacentRepeat(chunks: seq<seq<int>>, labels: nat)
    requires |chunks| >= 1 && labels >= 2 && AllShuffles(chunks, labels)
    ensures NoAdjacentRepeat(LabelList(chunks))
  {
    ShuffleFacts(chunks[0], labels);
    BuildNoAdjacentRepeat(chunks[0], chunks[1..], labels);
  }

  /** With a single label the boundary swap has nothing to exchange, so the
      first two blocks repeat: `labels >= 2` is needed for the adjacency
      promise. */
  lemma SingleLabelRepeats(chunks: seq<seq<int>>)
    requires AllShuffles(chunks, 1) && |chunks| >= 2
    ensures |LabelList(chunks)| >= 2
    ensures LabelList(chunks)[0] == LabelList(chunks)[1]
  {
    ShuffleFacts(chunks[0], 1);
    ShuffleFacts(chunks[1], 1);
    LabelListBlock(chunks, 1, 0);
    LabelListBlock(chunks, 1, 1);
    var r := LabelList(chunks);
    assert r[0] == r[..1][0] == chunks[0][0] == 0;
    assert r[1] == r[1..2][0];
  }
}
