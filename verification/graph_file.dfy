/** One commit-graph file: an immutable byte buffer plus the resolved offsets of its
    chunks, and the accessors that slice ids and commit records out of it. */
module CommitGraphFile {
  import opened Results
  import opened Bytes
  import opened Oid

  newtype u32 = x: int | 0 <= x < 0x1_0000_0000

  /** The largest number of commits a graph may hold (the top position bits are reserved). */
  const MAX_COMMITS: u32 := 0x4000_0000 + 0x2000_0000 + 0x1000_0000 - 1

  /** Size of one CDAT record: root tree id, two 4-byte parent fields, 8-byte generation and time. */
  const COMMIT_DATA_ENTRY_SIZE: nat := SHA1_SIZE + 16

  /** The OIDF chunk: entry `b` counts the ids whose first byte is at most `b`. */
  type FanTable = s: seq<u32> | |s| == 256 witness seq(256, _ => 0)

  /** A half-open byte range `start..end` of the buffer. */
  datatype Range = Range(start: nat, end: nat)

  datatype GraphFile = GraphFile(
    data: Bytes,
    fan: FanTable,
    oidLookupOffset: nat,
    commitDataOffset: nat,
    extraEdgesListRange: Option<Range>,
    baseGraphsListOffset: Option<nat>,
    baseGraphCount: nat)
  {
    /** The number of commits is the last fan-out entry; valid positions are `0..NumCommits()`. */
    function NumCommits(): (n: u32)
      ensures FanMonotone() ==> forall b :: 0 <= b < 256 ==> fan[b] <= n
    {
      fan[255]
    }

    predicate OidLookupInBounds() {
      oidLookupOffset + NumCommits() as nat * SHA1_SIZE <= |data|
    }

    predicate CommitDataInBounds() {
      commitDataOffset + NumCommits() as nat * COMMIT_DATA_ENTRY_SIZE <= |data|
    }

    predicate ExtraEdgesInBounds() {
      extraEdgesListRange.Some? ==>
        extraEdgesListRange.value.start <= extraEdgesListRange.value.end <= |data|
    }

    predicate BaseGraphsInBounds() {
      baseGraphsListOffset.Some? ==> baseGraphsListOffset.value + SHA1_SIZE * baseGraphCount <= |data|
    }

    /** Every chunk the accessors slice lies inside the buffer. */
    predicate RegionsInBounds() {
      OidLookupInBounds() && CommitDataInBounds() && ExtraEdgesInBounds() && BaseGraphsInBounds()
    }

    ghost predicate FanMonotone() {
      forall i, j :: 0 <= i <= j < 256 ==> fan[i] <= fan[j]
    }

    /** What the accessors need to never panic: regions in bounds, a non-decreasing fan-out
        table and a commit count within `MAX_COMMITS`. */
    ghost predicate WellFormed() {
      RegionsInBounds() && FanMonotone() && NumCommits() <= MAX_COMMITS
    }

    /** First position of the fan-out bucket for leading byte `b`. */
    function BucketStart(b: bv8): u32 {
      if b == 0 then 0 else fan[b as int - 1]
    }

    /** One past the last position of the fan-out bucket for leading byte `b`. */
    function BucketEnd(b: bv8): u32 {
      fan[b as int]
    }

    ghost predicate IdsSorted()
      requires OidLookupInBounds()
    {
      forall i: u32, j: u32 :: i < j < NumCommits() ==> Compare(IdAt(i), IdAt(j)) == Less
    }

    ghost predicate IdsInBuckets()
      requires OidLookupInBounds()
    {
      forall p: u32 :: p < NumCommits() ==>
        BucketStart(IdAt(p)[0]) <= p < BucketEnd(IdAt(p)[0])
    }

    /** The well-formedness that file parsing establishes and the lookup relies on. */
    ghost predicate Valid() {
      WellFormed() && IdsSorted() && IdsInBuckets()
    }

    /** The id at lexicographic position `pos`; positions at or beyond `NumCommits()` panic. */
    function IdAt(pos: u32): Sha1
      requires pos < NumCommits()
      requires OidLookupInBounds()
    {
      var start := oidLookupOffset + pos as nat * SHA1_SIZE;
      data[start .. start + SHA1_SIZE]
    }

    /** The CDAT record of the commit at `pos`; positions at or beyond `NumCommits()` panic. */
    function CommitDataBytes(pos: u32): (record: Bytes)
      requires pos < NumCommits()
      requires CommitDataInBounds()
      ensures |record| == COMMIT_DATA_ENTRY_SIZE
    {
      var start := commitDataOffset + pos as nat * COMMIT_DATA_ENTRY_SIZE;
      data[start .. start + COMMIT_DATA_ENTRY_SIZE]
    }

    /** The whole EDGE chunk, absent exactly when the file has none. */
    function ExtraEdgesData(): (edges: Option<Bytes>)
      requires ExtraEdgesInBounds()
      ensures edges.None? <==> extraEdgesListRange.None?
      ensures edges.Some? ==>
        var range := extraEdgesListRange.value;
        |edges.value| == range.end - range.start && edges.value == data[range.start .. range.end]
    {
      match extraEdgesListRange
      case Some(range) => Some(data[range.start .. range.end])
      case None => None
    }

    /** All ids in position order. */
    function IterIds(): (ids: seq<Sha1>)
      requires OidLookupInBounds()
      ensures |ids| == NumCommits() as nat
      ensures forall i :: 0 <= i < |ids| ==> ids[i] == IdAt(i as u32)
    {
      seq(NumCommits() as nat, i requires 0 <= i < NumCommits() as nat => IdAt(i as u32))
    }

    /** All commit records in position order (the input `CommitData` decodes). */
    function IterCommits(): (records: seq<Bytes>)
      requires CommitDataInBounds()
      ensures |records| == NumCommits() as nat
      ensures forall i :: 0 <= i < |records| ==> records[i] == CommitDataBytes(i as u32)
    {
      seq(NumCommits() as nat, i requires 0 <= i < NumCommits() as nat => CommitDataBytes(i as u32))
    }

    /** The ids of the graphs this one is layered on; none when the BASE chunk is absent. */
    function IterBaseGraphIds(): (ids: seq<Sha1>)
      requires BaseGraphsInBounds()
      ensures baseGraphsListOffset.None? ==> ids == []
      ensures baseGraphsListOffset.Some? ==>
        var v := baseGraphsListOffset.value;
        |ids| == baseGraphCount && Flatten(ids) == data[v .. v + SHA1_SIZE * baseGraphCount]
    {
      match baseGraphsListOffset
      case Some(v) =>
        var list := data[v .. v + SHA1_SIZE * baseGraphCount];
        FlattenSplitIds(list);
        SplitIds(list)
      case None => []
    }
  }

  /** Every position holding `id` lies in `lower..upper`. */
  ghost predicate OnlyWithin(g: GraphFile, id: Sha1, lower: u32, upper: u32)
    requires g.OidLookupInBounds()
  {
    forall p: u32 :: p < g.NumCommits() && g.IdAt(p) == id ==> lower <= p < upper
  }

  /** On a valid file an id can only sit in the fan-out bucket of its first byte. */
  lemma OnlyWithinBucket(g: GraphFile, id: Sha1)
    requires g.Valid()
    ensures OnlyWithin(g, id, g.BucketStart(id[0]), g.BucketEnd(id[0]))
  {
  }

  /** An id smaller than the one at `mid` can only sit before `mid`. */
  lemma NarrowBelow(g: GraphFile, id: Sha1, lower: u32, upper: u32, mid: u32)
    requires g.Valid() && OnlyWithin(g, id, lower, upper)
    requires mid < g.NumCommits() && Compare(id, g.IdAt(mid)) == Less
    ensures OnlyWithin(g, id, lower, mid)
  {
    CompareAntisymmetric(id, g.IdAt(mid));
  }

  /** An id greater than the one at `mid` can only sit after `mid`. */
  lemma NarrowAbove(g: GraphFile, id: Sha1, lower: u32, upper: u32, mid: u32)
    requires g.Valid() && OnlyWithin(g, id, lower, upper)
    requires mid < g.NumCommits() && Compare(id, g.IdAt(mid)) == Greater
    ensures OnlyWithin(g, id, mid + 1, upper)
  {
  }

  /** Binary search for `id`, confined to the fan-out bucket of its first byte.
      A returned position always holds `id`; on a valid file the search also finds
      every id that is present, so `None` means absent. */
  method Lookup(g: GraphFile, id: Sha1) returns (r: Option<u32>)
    requires g.WellFormed()
    ensures r.Some? ==> r.value < g.NumCommits() && g.IdAt(r.value) == id
    ensures g.Valid() ==> (r.None? <==> forall p: u32 :: p < g.NumCommits() ==> g.IdAt(p) != id)
    ensures g.Valid() ==> forall p: u32 :: p < g.NumCommits() ==> (r == Some(p) <==> g.IdAt(p) == id)
  {
    var firstByte := id[0];
    var upperBound := g.fan[firstByte as int];
    var lowerBound := if firstByte != 0 then g.fan[firstByte as int - 1] else 0;
    if g.Valid() {
      OnlyWithinBucket(g, id);
    }
    while lowerBound < upperBound
      invariant lowerBound <= upperBound <= g.NumCommits()
      invariant g.Valid() ==> OnlyWithin(g, id, lowerBound, upperBound)
      decreases upperBound - lowerBound
    {
      var mid := (lowerBound + upperBound) / 2;
      var midId := g.IdAt(mid);
      match Compare(id, midId)
      case Less =>
        if g.Valid() {
          NarrowBelow(g, id, lowerBound, upperBound, mid);
        }
        upperBound := mid;
      case Equal =>
        if g.Valid() {
          PositionOfIdUnique(g, mid);
        }
        return Some(mid);
      case Greater =>
        if g.Valid() {
          NarrowAbove(g, id, lowerBound, upperBound, mid);
        }
        lowerBound := mid + 1;
    }
    return None;
  }

  /** On a valid file no two positions hold the same id. */
  lemma PositionOfIdUnique(g: GraphFile, p: u32)
    requires g.Valid()
    requires p < g.NumCommits()
    ensures forall q: u32 :: q < g.NumCommits() ==> (g.IdAt(q) == g.IdAt(p) <==> q == p)
  {
    forall q: u32 | q < g.NumCommits() && q != p
      ensures g.IdAt(q) != g.IdAt(p)
    {
      if q < p {
        assert Compare(g.IdAt(q), g.IdAt(p)) == Less;
      } else {
        assert Compare(g.IdAt(p), g.IdAt(q)) == Less;
      }
    }
  }

  /** Position order is strictly ascending lexicographic id order on a valid file. */
  lemma IterIdsAscending(g: GraphFile)
    requires g.Valid()
    ensures forall i, j :: 0 <= i < j < |g.IterIds()| ==> LexLess(g.IterIds()[i], g.IterIds()[j])
  {
    var ids := g.IterIds();
    forall i, j | 0 <= i < j < |ids| ensures LexLess(ids[i], ids[j]) {
      var a: Bytes, b: Bytes := g.IdAt(i as u32), g.IdAt(j as u32);
      assert Compare(a, b) == Less;
      CompareLessIsLexLess(a, b);
      assert LexLess(a, b);
      assert ids[i] == a && ids[j] == b;
    }
  }

  /** The ids, one per position, are exactly the OIDL chunk cut into 20-byte pieces. */
  lemma IdsTileLookupChunk(g: GraphFile)
    requires g.OidLookupInBounds()
    ensures var chunk := g.data[g.oidLookupOffset .. g.oidLookupOffset + g.NumCommits() as nat * SHA1_SIZE];
            g.IterIds() == SplitIds(chunk) && Flatten(g.IterIds()) == chunk
  {
    var chunk := g.data[g.oidLookupOffset .. g.oidLookupOffset + g.NumCommits() as nat * SHA1_SIZE];
    var ids, split := g.IterIds(), SplitIds(chunk);
    assert |ids| == |split|;
    forall i | 0 <= i < |ids| ensures ids[i] == split[i] {
      var lo := i * SHA1_SIZE;
      var start := g.oidLookupOffset + lo;
      assert lo + SHA1_SIZE <= |chunk|;
      SliceOfSlice(g.data, g.oidLookupOffset, g.oidLookupOffset + |chunk|, lo, lo + SHA1_SIZE);
      assert split[i] == g.data[start .. start + SHA1_SIZE];
      assert ids[i] == g.IdAt(i as u32);
    }
    FlattenSplitIds(chunk);
  }

  /** The records from position `i` on, glued together, are the rest of the CDAT chunk. */
  lemma {:induction false} RecordsTileFrom(g: GraphFile, i: nat)
    requires g.CommitDataInBounds()
    requires i <= g.NumCommits() as nat
    ensures Flatten(g.IterCommits()[i..]) ==
            g.data[g.commitDataOffset + i * COMMIT_DATA_ENTRY_SIZE ..
                   g.commitDataOffset + g.NumCommits() as nat * COMMIT_DATA_ENTRY_SIZE]
    decreases g.NumCommits() as nat - i
  {
    var records := g.IterCommits();
    var n := g.NumCommits() as nat;
    if i < n {
      var lo := g.commitDataOffset + i * COMMIT_DATA_ENTRY_SIZE;
      var mid := lo + COMMIT_DATA_ENTRY_SIZE;
      var end := g.commitDataOffset + n * COMMIT_DATA_ENTRY_SIZE;
      assert mid == g.commitDataOffset + (i + 1) * COMMIT_DATA_ENTRY_SIZE;
      assert mid <= end;
      assert records[i] == g.data[lo .. mid];
      RecordsTileFrom(g, i + 1);
      assert records[i..] == [records[i]] + records[i + 1..];
      FlattenCons(records[i], records[i + 1..]);
      SliceConcat(g.data, lo, mid, end);
    }
  }

  /** The commit records, one per position, tile the CDAT chunk with no gap or overlap. */
  lemma RecordsTileCommitData(g: GraphFile)
    requires g.CommitDataInBounds()
    ensures Flatten(g.IterCommits()) ==
            g.data[g.commitDataOffset .. g.commitDataOffset + g.NumCommits() as nat * COMMIT_DATA_ENTRY_SIZE]
  {
    RecordsTileFrom(g, 0);
  }
}
