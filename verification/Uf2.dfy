/** From a sparse address map to UF2 blocks, and what a bootloader that writes
    them in order ends up with (Microsoft UF2 specification, section "File
    format"). */
module Uf2 {
  import opened Basics
  import opened Bits

  const BLOCK_SIZE: nat := 256

  /** The parsed image: addresses and their bytes. */
  type Image = map<nat, byte>

  datatype Region = Region(start: nat, data: seq<byte>) {
    function End(): nat {
      start + |data|
    }
  }

  // ---- Contiguous regions -----------------------------------------------------

  predicate Increasing(s: seq<nat>) {
    forall i, j | 0 <= i < j < |s| :: s[i] < s[j]
  }

  /** The keys in ascending order. */
  method SortedKeys(image: Image) returns (addrs: seq<nat>)
    ensures Increasing(addrs) && forall a :: a in addrs <==> a in image
  {
    addrs := [];
    var rest := image.Keys;
    while rest != {}
      invariant rest <= image.Keys && Increasing(addrs)
      invariant forall a :: a in addrs <==> a in image && a !in rest
      decreases |rest|
    {
      var a :| a in rest;
      ghost var before := addrs;
      addrs := Insert(addrs, a);
      rest := rest - {a};
      assert forall b :: b in addrs <==> b in before || b == a;
    }
  }

  method Insert(s: seq<nat>, a: nat) returns (r: seq<nat>)
    requires Increasing(s) && a !in s
    ensures Increasing(r) && forall b :: b in r <==> b in s || b == a
  {
    var i := 0;
    while i < |s| && s[i] < a
      invariant i <= |s| && forall j | 0 <= j < i :: s[j] < a
    {
      i := i + 1;
    }
    if i < |s| {
      assert s[i] in s;
    }
    InsertedInOrder(s, a, i);
    r := s[..i] + [a] + s[i..];
  }

  lemma InsertedInOrder(s: seq<nat>, a: nat, i: nat)
    requires Increasing(s) && i <= |s|
    requires (forall j | 0 <= j < i :: s[j] < a) && (i < |s| ==> a < s[i])
    ensures var r := s[..i] + [a] + s[i..]; Increasing(r) && forall b :: b in r <==> b in s || b == a
  {
    var r := s[..i] + [a] + s[i..];
    forall j, k | 0 <= j < k < |r| ensures r[j] < r[k] {
      assert r[j] == (if j < i then s[j] else if j == i then a else s[j - 1]);
      assert r[k] == (if k < i then s[k] else if k == i then a else s[k - 1]);
    }
    assert s == s[..i] + s[i..];
  }

  predicate Maps(image: Image, a: nat, b: byte) {
    a in image && image[a] == b
  }

  /** The region's bytes are the image's. */
  predicate Holds(image: Image, r: Region) {
    r.data != [] && forall k | 0 <= k < |r.data| :: Maps(image, r.start + k, r.data[k])
  }

  predicate Within(a: nat, r: Region) {
    r.start <= a < r.End()
  }

  /** The regions are the image's maximal runs, in order: they hold its bytes,
      cover it, and never touch. */
  ghost predicate AreRegions(regions: seq<Region>, image: Image) {
    && (forall i | 0 <= i < |regions| :: Holds(image, regions[i]))
    && (forall a | a in image :: exists i :: 0 <= i < |regions| && Within(a, regions[i]))
    && (forall i, j | 0 <= i < j < |regions| :: regions[i].End() < regions[j].start)
  }

  /** What the loop has built when the first `n` addresses are done. */
  ghost predicate Building(image: Image, addrs: seq<nat>, n: nat, result: seq<Region>, start: nat, current: seq<byte>)
    requires n <= |addrs|
  {
    && n > 0 && Holds(image, Region(start, current)) && start + |current| == addrs[n - 1] + 1
    && (forall i | 0 <= i < |result| :: Holds(image, result[i]) && result[i].End() < start)
    && (forall i, j | 0 <= i < j < |result| :: result[i].End() < result[j].start)
    && (forall k | 0 <= k < n ::
          Within(addrs[k], Region(start, current)) || exists i :: 0 <= i < |result| && Within(addrs[k], result[i]))
  }

  lemma HoldsMore(image: Image, r: Region, a: nat, r': Region)
    requires Holds(image, r) && a in image && a == r.End() && r' == Region(r.start, r.data + [image[a]])
    ensures Holds(image, r')
  {
    forall k | 0 <= k < |r'.data| ensures Maps(image, r'.start + k, r'.data[k]) {
      if k < |r.data| {
        assert r'.data[k] == r.data[k];
      }
    }
  }

  lemma ExtendRun(image: Image, addrs: seq<nat>, n: nat, result: seq<Region>, start: nat, current: seq<byte>)
    requires 0 < n < |addrs| && addrs[n] in image && addrs[n] == addrs[n - 1] + 1
    requires Building(image, addrs, n, result, start, current)
    ensures Building(image, addrs, n + 1, result, start, current + [image[addrs[n]]])
  {
    var more := current + [image[addrs[n]]];
    HoldsMore(image, Region(start, current), addrs[n], Region(start, more));
    forall k | 0 <= k < n + 1
      ensures Within(addrs[k], Region(start, more)) || exists i :: 0 <= i < |result| && Within(addrs[k], result[i])
    {
      if k < n && Within(addrs[k], Region(start, current)) {
        assert Within(addrs[k], Region(start, more));
      }
    }
  }

  lemma StartRun(image: Image, addrs: seq<nat>, n: nat, result: seq<Region>, start: nat, current: seq<byte>)
    requires 0 < n < |addrs| && addrs[n] in image && Increasing(addrs) && addrs[n] != addrs[n - 1] + 1
    requires Building(image, addrs, n, result, start, current)
    ensures Building(image, addrs, n + 1, result + [Region(start, current)], addrs[n], [image[addrs[n]]])
  {
    var done := result + [Region(start, current)];
    assert addrs[n - 1] < addrs[n];
    assert done[|result|] == Region(start, current);
    forall k | 0 <= k < n + 1
      ensures Within(addrs[k], Region(addrs[n], [image[addrs[n]]]))
              || exists i :: 0 <= i < |done| && Within(addrs[k], done[i])
    {
      if k < n && !Within(addrs[k], Region(start, current)) {
        var i :| 0 <= i < |result| && Within(addrs[k], result[i]);
        assert done[i] == result[i];
      }
    }
  }

  lemma BuiltAll(image: Image, addrs: seq<nat>, result: seq<Region>, start: nat, current: seq<byte>)
    requires addrs != [] && (forall a :: a in addrs <==> a in image)
    requires Building(image, addrs, |addrs|, result, start, current)
    ensures AreRegions(result + [Region(start, current)], image)
  {
    var all := result + [Region(start, current)];
    assert all[|result|] == Region(start, current);
    forall a | a in image ensures exists i :: 0 <= i < |all| && Within(a, all[i]) {
      assert a in addrs;
      var k :| 0 <= k < |addrs| && addrs[k] == a;
      if !Within(a, Region(start, current)) {
        var i :| 0 <= i < |result| && Within(addrs[k], result[i]);
        assert all[i] == result[i];
      }
    }
  }

  method SegmentsToContiguous(image: Image) returns (result: seq<Region>)
    ensures AreRegions(result, image)
  {
    result := [];
    if image == map[] {
      return;
    }
    var addrs := SortedKeys(image);
    ghost var some :| some in image;
    assert some in addrs;
    assert addrs[0] in addrs;
    var start := addrs[0];
    var current := [image[start]];
    assert Building(image, addrs, 1, result, start, current);
    for i := 1 to |addrs|
      invariant Building(image, addrs, i, result, start, current)
    {
      assert addrs[i] in addrs;
      if addrs[i] == addrs[i - 1] + 1 {
        ExtendRun(image, addrs, i, result, start, current);
        current := current + [image[addrs[i]]];
      } else {
        StartRun(image, addrs, i, result, start, current);
        result := result + [Region(start, current)];
        start := addrs[i];
        current := [image[addrs[i]]];
      }
    }
    BuiltAll(image, addrs, result, start, current);
    result := result + [Region(start, current)];
  }

  // ---- Blocks ------------------------------------------------------------------

  /** The payload of one block: 256 bytes for this address. */
  datatype Chunk = Chunk(target: nat, data: seq<byte>)

  /** The 256 bytes from `offset` on, zero-padded. */
  function Padded(data: seq<byte>, offset: nat): (s: seq<byte>)
    ensures |s| == 256
  {
    seq(256, i requires 0 <= i < 256 => if offset + i < |data| then data[offset + i] else 0)
  }

  method PadChunk(data: seq<byte>, offset: nat) returns (chunk: seq<byte>)
    requires offset <= |data|
    ensures chunk == Padded(data, offset)
  {
    chunk := data[offset..Least(offset + 256, |data|)];
    if |chunk| < 256 {
      chunk := chunk + Zeros(256 - |chunk|);
    }
  }

  function ChunkCount(n: nat): nat {
    (n + 255) / 256
  }

  /** Block `k` of a region. */
  function ChunkOf(r: Region, k: nat): Chunk {
    Chunk(r.start + 256 * k, Padded(r.data, 256 * k))
  }

  /** The first `k` blocks of a region. */
  function RegionChunks(r: Region, k: nat): (cs: seq<Chunk>)
    requires k <= ChunkCount(|r.data|)
    ensures |cs| == k
  {
    seq(k, j requires 0 <= j < k => ChunkOf(r, j))
  }

  function Chunks(regions: seq<Region>): seq<Chunk> {
    if regions == [] then []
    else
      var r := regions[|regions| - 1];
      Chunks(regions[..|regions| - 1]) + RegionChunks(r, ChunkCount(|r.data|))
  }

  const MAGIC_START0: nat := 0x0A324655
  const MAGIC_START1: nat := 0x9E5D5157
  const MAGIC_END: nat := 0x0AB16F30
  const FLAG_FAMILY: nat := 0x00002000
  const NRF52840_FAMILY: nat := 0xADA52840
  const WORD: nat := 4

  predicate Word(v: nat) {
    v < 0x1_0000_0000
  }

  /** The eight header words. */
  function HeaderWord(target: nat, number: nat, total: nat, k: nat): nat {
    if k == 0 then MAGIC_START0
    else if k == 1 then MAGIC_START1
    else if k == 2 then FLAG_FAMILY
    else if k == 3 then target
    else if k == 4 then BLOCK_SIZE
    else if k == 5 then number
    else if k == 6 then total
    else NRF52840_FAMILY
  }

  function HeaderByte(target: nat, number: nat, total: nat, i: nat): byte {
    LeByte(WORD, HeaderWord(target, number, total, i / 4), i % 4)
  }

  /** Byte `i` of a block: header, payload, padding up to 476 bytes, end magic. */
  function BlockByte(c: Chunk, number: nat, total: nat, i: nat): byte
    requires |c.data| == 256 && i < 512
  {
    if i < 32 then HeaderByte(c.target, number, total, i)
    else if i < 288 then c.data[i - 32]
    else if i < 508 then 0
    else LeByte(WORD, MAGIC_END, i - 508)
  }

  function BlockBytes(c: Chunk, number: nat, total: nat): (s: seq<byte>)
    requires |c.data| == 256
    ensures |s| == 512
  {
    seq(512, i requires 0 <= i < 512 => BlockByte(c, number, total, i))
  }

  method PackHeader(target: nat, number: nat, total: nat) returns (s: seq<byte>)
    ensures s == seq(32, i requires 0 <= i < 32 => HeaderByte(target, number, total, i))
  {
    s := [];
    for k := 0 to 8
      invariant |s| == 4 * k && forall i | 0 <= i < 4 * k :: s[i] == HeaderByte(target, number, total, i)
    {
      ghost var before := s;
      s := s + Le(WORD, HeaderWord(target, number, total, k));
      forall i | 0 <= i < 4 * k + 4 ensures s[i] == HeaderByte(target, number, total, i) {
        if i >= 4 * k {
          assert i / 4 == k && i % 4 == i - 4 * k;
        }
      }
    }
  }

  method PackBlock(c: Chunk, number: nat, total: nat) returns (block: seq<byte>)
    requires |c.data| == 256
    ensures block == BlockBytes(c, number, total)
  {
    var padding := Zeros(476 - |c.data|);
    block := PackHeader(c.target, number, total);
    block := block + (c.data + padding);
    block := block + Le(WORD, MAGIC_END);
  }

  predicate AllWhole(cs: seq<Chunk>) {
    forall k | 0 <= k < |cs| :: |cs[k].data| == 256
  }

  /** The file for these blocks, the first of them numbered 0. */
  function FileOf(cs: seq<Chunk>, total: nat): (s: seq<byte>)
    requires AllWhole(cs)
    ensures |s| == 512 * |cs|
  {
    if cs == [] then []
    else FileOf(cs[..|cs| - 1], total) + BlockBytes(cs[|cs| - 1], |cs| - 1, total)
  }

  lemma {:induction false} ChunksAreWhole(regions: seq<Region>)
    ensures AllWhole(Chunks(regions))
  {
    if regions != [] {
      ChunksAreWhole(regions[..|regions| - 1]);
    }
  }

  function TotalBlocks(regions: seq<Region>): nat {
    if regions == [] then 0
    else TotalBlocks(regions[..|regions| - 1]) + ChunkCount(|regions[|regions| - 1].data|)
  }

  /** The count made beforehand is the number of blocks. */
  lemma {:induction false} CountIsExact(regions: seq<Region>)
    ensures |Chunks(regions)| == TotalBlocks(regions)
  {
    if regions != [] {
      CountIsExact(regions[..|regions| - 1]);
    }
  }

  /** Every number fits its 32-bit field. */
  predicate Packable(cs: seq<Chunk>, total: nat) {
    Word(total) && forall k | 0 <= k < |cs| :: Word(cs[k].target)
  }

  // ---- Growing the file -----------------------------------------------------------

  lemma ChunksGrow(regions: seq<Region>, i: nat)
    requires i < |regions|
    ensures Chunks(regions[..i + 1]) == Chunks(regions[..i]) + RegionChunks(regions[i], ChunkCount(|regions[i].data|))
    ensures TotalBlocks(regions[..i + 1]) == TotalBlocks(regions[..i]) + ChunkCount(|regions[i].data|)
  {
    assert regions[..i + 1][..i] == regions[..i];
  }

  lemma FileGrows(cs: seq<Chunk>, c: Chunk, total: nat)
    requires AllWhole(cs) && |c.data| == 256
    ensures AllWhole(cs + [c]) && FileOf(cs + [c], total) == FileOf(cs, total) + BlockBytes(c, |cs|, total)
  {
    assert (cs + [c])[..|cs|] == cs;
  }

  lemma PackableGrows(cs: seq<Chunk>, c: Chunk, total: nat)
    requires (cs == [] || Packable(cs, total)) && Word(c.target) && Word(total)
    ensures Packable(cs + [c], total)
  {}

  lemma MoreBlocks(n: nat, k: nat)
    ensures 256 * k < n <==> k < ChunkCount(n)
  {}

  lemma OneMoreChunk(r: Region, k: nat)
    requires k < ChunkCount(|r.data|)
    ensures 256 * k < |r.data|
    ensures RegionChunks(r, k + 1) == RegionChunks(r, k) + [ChunkOf(r, k)]
  {}

  /** Where chunk `k` of region `i` stands in the file. */
  lemma {:induction false} ChunkAt(regions: seq<Region>, i: nat, k: nat)
    requires i < |regions| && k < ChunkCount(|regions[i].data|)
    ensures 256 * k < |regions[i].data|
    ensures ChunkOf(regions[i], k) in Chunks(regions)
    decreases |regions|
  {
    var last := |regions| - 1;
    if i < last {
      ChunkAt(regions[..last], i, k);
    } else {
      var r := regions[last];
      assert RegionChunks(r, ChunkCount(|r.data|))[k] == ChunkOf(r, k);
    }
  }

  /** The file so far holds the blocks done so far, and the next number is theirs. */
  predicate Built(file: seq<byte>, done: seq<Chunk>, next: nat, total: nat) {
    && AllWhole(done) && next == |done| && file == FileOf(done, total)
    && (done == [] || Packable(done, total))
  }

  method AppendBlock(blocks: seq<byte>, ghost done: seq<Chunk>, c: Chunk, number: nat, total: nat)
    returns (file: seq<byte>)
    requires Built(blocks, done, number, total) && |c.data| == 256 && Word(c.target) && Word(total)
    ensures Built(file, done + [c], number + 1, total)
  {
    FileGrows(done, c, total);
    PackableGrows(done, c, total);
    var block := PackBlock(c, number, total);
    file := blocks + block;
  }

  /** Appends one region's blocks, unless a number does not fit. */
  method PackRegion(regions: seq<Region>, i: nat, total: nat, blocks: seq<byte>, number: nat, ghost done: seq<Chunk>)
    returns (ok: bool, file: seq<byte>, next: nat)
    requires i < |regions| && Built(blocks, done, number, total)
    ensures ok ==> Built(file, done + RegionChunks(regions[i], ChunkCount(|regions[i].data|)), next, total)
    ensures !ok ==> Chunks(regions) != [] && !Packable(Chunks(regions), total)
  {
    var r := regions[i];
    file, next := blocks, number;
    ghost var after := done;
    ghost var k := 0;
    var offset := 0;
    NoChunks(done, r);
    while offset < |r.data|
      invariant k <= ChunkCount(|r.data|) && offset == 256 * k
      invariant after == done + RegionChunks(r, k) && Built(file, after, next, total)
      decreases ChunkCount(|r.data|) - k
    {
      MoreBlocks(|r.data|, k);
      var chunk := PadChunk(r.data, offset);
      var c := Chunk(r.start + offset, chunk);
      if !(Word(c.target) && Word(total)) {
        ChunkAt(regions, i, k);
        return false, [], next;
      }
      OneMoreAfter(done, r, k, after, c);
      file := AppendBlock(file, after, c, next, total);
      after, k := after + [c], k + 1;
      offset := offset + 256;
      next := next + 1;
    }
    MoreBlocks(|r.data|, k);
    ok := true;
  }

  // ---- Loading the blocks ------------------------------------------------------------

  predicate Covers(c: Chunk, a: nat) {
    c.target <= a < c.target + |c.data|
  }

  /** The byte at `a` after the blocks are written in order, later ones winning. */
  function Load(cs: seq<Chunk>, a: nat): Option<byte> {
    if cs == [] then None
    else
      var c := cs[|cs| - 1];
      if Covers(c, a) then Some(c.data[a - c.target]) else Load(cs[..|cs| - 1], a)
  }

  /** Just behind a region, where its last block's padding may fall. */
  ghost predicate Behind(a: nat, regions: seq<Region>) {
    exists i :: 0 <= i < |regions| && regions[i].End() <= a < regions[i].End() + 255
  }

  /** At `a`, once the image is accounted for below `limit`: a mapped byte is in
      place; whatever else was written is zero and lies just behind a region. */
  ghost predicate Agrees(loaded: Option<byte>, a: nat, image: Image, regions: seq<Region>, limit: nat) {
    if a in image && a < limit then loaded == Some(image[a])
    else loaded.Some? ==> loaded.value == 0 && Behind(a, regions)
  }

  lemma LoadGrows(cs: seq<Chunk>, c: Chunk, all: seq<Chunk>, a: nat)
    requires all == cs + [c]
    ensures Load(all, a) == if Covers(c, a) then Some(c.data[a - c.target]) else Load(cs, a)
  {
    assert all[..|cs|] == cs;
  }

  lemma RegionByte(image: Image, r: Region, a: nat)
    requires Holds(image, r) && Within(a, r)
    ensures a in image && image[a] == r.data[a - r.start]
  {
    assert Maps(image, r.start + (a - r.start), r.data[a - r.start]);
  }

  /** One block of region `i`: its bytes, then zeros behind the region's end,
      which nothing mapped so far can suffer from. */
  lemma ChunkAgrees(loaded: Option<byte>, a: nat, image: Image, regions: seq<Region>, i: nat, k: nat, c: Chunk)
    requires i < |regions| && Holds(image, regions[i]) && 256 * k < |regions[i].data|
    requires c == ChunkOf(regions[i], k)
    requires Agrees(loaded, a, image, regions, c.target)
    ensures Agrees(if Covers(c, a) then Some(c.data[a - c.target]) else loaded, a, image, regions,
                   regions[i].start + Least(256 * (k + 1), |regions[i].data|))
  {
    var r := regions[i];
    if Covers(c, a) {
      if a < r.End() {
        RegionByte(image, r, a);
      } else {
        assert regions[i].End() <= a < regions[i].End() + 255;
      }
    }
  }

  lemma {:induction false} RegionAgrees(cs: seq<Chunk>, a: nat, image: Image, regions: seq<Region>, i: nat, k: nat)
    returns (all: seq<Chunk>)
    requires i < |regions| && Holds(image, regions[i]) && k <= ChunkCount(|regions[i].data|)
    requires Agrees(Load(cs, a), a, image, regions, regions[i].start)
    ensures all == cs + RegionChunks(regions[i], k)
    ensures Agrees(Load(all, a), a, image, regions, regions[i].start + Least(256 * k, |regions[i].data|))
    decreases k
  {
    if k == 0 {
      all := cs;
      NoChunks(cs, regions[i]);
    } else {
      var before := RegionAgrees(cs, a, image, regions, i, k - 1);
      var c := ChunkOf(regions[i], k - 1);
      all := before + [c];
      OneMoreAfter(cs, regions[i], k - 1, before, c);
      ChunkStep(before, c, all, a, image, regions, i, k - 1);
    }
  }

  lemma NoChunks(cs: seq<Chunk>, r: Region)
    ensures cs + RegionChunks(r, 0) == cs
  {}

  lemma OneMoreAfter(cs: seq<Chunk>, r: Region, k: nat, before: seq<Chunk>, c: Chunk)
    requires k < ChunkCount(|r.data|) && before == cs + RegionChunks(r, k) && c == ChunkOf(r, k)
    ensures 256 * k < |r.data| && cs + RegionChunks(r, k + 1) == before + [c]
  {
    OneMoreChunk(r, k);
    Associates(cs, RegionChunks(r, k), [c]);
  }

  lemma ChunkStep(before: seq<Chunk>, c: Chunk, all: seq<Chunk>, a: nat, image: Image, regions: seq<Region>, i: nat,
                  k: nat)
    requires i < |regions| && Holds(image, regions[i]) && 256 * k < |regions[i].data| && all == before + [c]
    requires c == ChunkOf(regions[i], k)
    requires Agrees(Load(before, a), a, image, regions, regions[i].start + Least(256 * k, |regions[i].data|))
    ensures Agrees(Load(all, a), a, image, regions, regions[i].start + Least(256 * (k + 1), |regions[i].data|))
  {
    LoadGrows(before, c, all, a);
    ChunkAgrees(Load(before, a), a, image, regions, i, k, c);
  }

  /** Up to where the first `n` regions account for the image. */
  function Limit(regions: seq<Region>, n: nat): nat
    requires n <= |regions|
  {
    if n == 0 then 0 else regions[n - 1].End()
  }

  lemma NothingBetween(image: Image, regions: seq<Region>, n: nat, a: nat)
    requires AreRegions(regions, image) && n < |regions| && a in image && a < regions[n].start
    ensures a < Limit(regions, n)
  {
    var i :| 0 <= i < |regions| && Within(a, regions[i]);
    assert i < n;
  }

  lemma {:induction false} RegionsAgree(image: Image, regions: seq<Region>, n: nat, a: nat)
    requires AreRegions(regions, image) && n <= |regions|
    ensures Agrees(Load(Chunks(regions[..n]), a), a, image, regions, Limit(regions, n))
  {
    if n == 0 {
      assert regions[..0] == [];
    } else {
      RegionsAgree(image, regions, n - 1, a);
      OneMoreRegion(image, regions, n - 1, a, Chunks(regions[..n - 1]));
    }
  }

  lemma OneMoreRegion(image: Image, regions: seq<Region>, n: nat, a: nat, cs: seq<Chunk>)
    requires AreRegions(regions, image) && n < |regions| && cs == Chunks(regions[..n])
    requires Agrees(Load(cs, a), a, image, regions, Limit(regions, n))
    ensures Agrees(Load(Chunks(regions[..n + 1]), a), a, image, regions, Limit(regions, n + 1))
  {
    var r := regions[n];
    NextRegion(image, regions, n, a, Load(cs, a));
    ChunksGrow(regions, n);
    var all := RegionAgrees(cs, a, image, regions, n, ChunkCount(|r.data|));
    AllBytes(|r.data|);
  }

  lemma AllBytes(n: nat)
    ensures Least(256 * ChunkCount(n), n) == n
  {}

  lemma NextRegion(image: Image, regions: seq<Region>, n: nat, a: nat, loaded: Option<byte>)
    requires AreRegions(regions, image) && n < |regions|
    requires Agrees(loaded, a, image, regions, Limit(regions, n))
    ensures Agrees(loaded, a, image, regions, regions[n].start) && Holds(image, regions[n])
  {
    if a in image && a < regions[n].start {
      NothingBetween(image, regions, n, a);
    }
    assert Limit(regions, n) <= regions[n].start;
  }

  lemma BelowLimit(image: Image, regions: seq<Region>, a: nat)
    requires AreRegions(regions, image) && a in image
    ensures a < Limit(regions, |regions|)
  {
    var i :| 0 <= i < |regions| && Within(a, regions[i]);
    assert i < |regions| - 1 ==> regions[i].End() < regions[|regions| - 1].start;
  }

  /** Loading the file's blocks puts every mapped byte in place. Whatever else it
      writes is zero, and lies within 255 bytes behind a region. */
  lemma LoadedImage(image: Image, regions: seq<Region>, a: nat)
    requires AreRegions(regions, image)
    ensures a in image ==> Load(Chunks(regions), a) == Some(image[a])
    ensures a !in image && Load(Chunks(regions), a).Some?
      ==> Load(Chunks(regions), a) == Some(0) && Behind(a, regions)
  {
    RegionsAgree(image, regions, |regions|, a);
    assert regions[..|regions|] == regions;
    if a in image {
      BelowLimit(image, regions, a);
    }
  }

  // ---- Reading the file back -----------------------------------------------------------

  function WordAt(file: seq<byte>, block: nat, k: nat): nat
    requires 512 * block + 4 * k + 4 <= |file|
  {
    LeAt(file, 512 * block + 4 * k, WORD)
  }

  /** What a bootloader checks of block `j` before it takes its payload: the three
      magic numbers, the flag for a family id and the nRF52840's, the payload
      size, the block's own number and the number of blocks. */
  predicate Accepts(file: seq<byte>, j: nat, n: nat)
    requires 512 * j + 512 <= |file|
  {
    && WordAt(file, j, 0) == 0x0A324655 && WordAt(file, j, 1) == 0x9E5D5157 && WordAt(file, j, 127) == 0x0AB16F30
    && WordAt(file, j, 2) == 0x00002000 && WordAt(file, j, 7) == 0xADA52840
    && WordAt(file, j, 4) == 256 && WordAt(file, j, 5) == j && WordAt(file, j, 6) == n
  }

  lemma {:induction false} BlockAt(cs: seq<Chunk>, total: nat, j: nat)
    requires AllWhole(cs) && j < |cs|
    ensures FileOf(cs, total)[512 * j..512 * j + 512] == BlockBytes(cs[j], j, total)
    decreases |cs|
  {
    var last := |cs| - 1;
    if j < last {
      BlockAt(cs[..last], total, j);
      var f, g := FileOf(cs[..last], total), BlockBytes(cs[last], last, total);
      assert FileOf(cs, total)[512 * j..512 * j + 512] == f[512 * j..512 * j + 512] by {
        assert FileOf(cs, total) == f + g;
      }
    }
  }

  lemma HeaderReads(file: seq<byte>, j: nat, c: Chunk, total: nat, k: nat)
    requires |c.data| == 256 && 512 * j + 512 <= |file| && file[512 * j..512 * j + 512] == BlockBytes(c, j, total)
    requires k < 8 && Word(HeaderWord(c.target, j, total, k))
    ensures WordAt(file, j, k) == HeaderWord(c.target, j, total, k)
  {
    var p, v := 512 * j + 4 * k, HeaderWord(c.target, j, total, k);
    forall i | 0 <= i < 4 ensures file[p..p + 4][i] == Le(WORD, v)[i] {
      assert file[p + i] == BlockBytes(c, j, total)[4 * k + i];
      assert (4 * k + i) / 4 == k && (4 * k + i) % 4 == i;
    }
    Ranges();
    LeReads(file, p, WORD, v);
  }

  lemma EndMagicReads(file: seq<byte>, j: nat, c: Chunk, total: nat)
    requires |c.data| == 256 && 512 * j + 512 <= |file| && file[512 * j..512 * j + 512] == BlockBytes(c, j, total)
    ensures WordAt(file, j, 127) == MAGIC_END
  {
    var p := 512 * j + 508;
    forall i | 0 <= i < 4 ensures file[p..p + 4][i] == Le(WORD, MAGIC_END)[i] {
      assert file[p + i] == BlockBytes(c, j, total)[508 + i];
    }
    Ranges();
    LeReads(file, p, WORD, MAGIC_END);
  }

  lemma PayloadReads(file: seq<byte>, j: nat, c: Chunk, total: nat)
    requires |c.data| == 256 && 512 * j + 512 <= |file| && file[512 * j..512 * j + 512] == BlockBytes(c, j, total)
    ensures file[512 * j + 32..512 * j + 288] == c.data
  {
    forall i | 0 <= i < 256 ensures file[512 * j + 32..512 * j + 288][i] == c.data[i] {
      assert file[512 * j..512 * j + 512][32 + i] == BlockByte(c, j, total, 32 + i);
    }
  }

  lemma HeaderAccepted(file: seq<byte>, j: nat, c: Chunk, total: nat)
    requires |c.data| == 256 && 512 * j + 512 <= |file| && file[512 * j..512 * j + 512] == BlockBytes(c, j, total)
    requires Word(c.target) && Word(total) && j < total
    ensures Accepts(file, j, total) && WordAt(file, j, 3) == c.target
  {
    HeaderReads(file, j, c, total, 0);
    HeaderReads(file, j, c, total, 1);
    HeaderReads(file, j, c, total, 2);
    HeaderReads(file, j, c, total, 3);
    HeaderReads(file, j, c, total, 4);
    HeaderReads(file, j, c, total, 5);
    HeaderReads(file, j, c, total, 6);
    HeaderReads(file, j, c, total, 7);
    EndMagicReads(file, j, c, total);
  }

  /** The block a bootloader reads at place `j`: its address and payload. */
  function BlockOf(file: seq<byte>, j: nat): Chunk
    requires 512 * j + 512 <= |file|
  {
    Chunk(WordAt(file, j, 3), file[512 * j + 32..512 * j + 288])
  }

  /** Every block of a converted file is accepted: it is numbered by its place,
      carries the exact total, and yields its address and all 256 bytes. */
  lemma BlocksReadBack(cs: seq<Chunk>, file: seq<byte>, j: nat)
    requires AllWhole(cs) && j < |cs| && Packable(cs, |cs|) && file == FileOf(cs, |cs|)
    ensures Accepts(file, j, |cs|) && BlockOf(file, j) == cs[j]
  {
    BlockAt(cs, |cs|, j);
    HeaderAccepted(file, j, cs[j], |cs|);
    PayloadReads(file, j, cs[j], |cs|);
  }

  // ---- The regions are determined by the image ------------------------------------------

  predicate Agree(p: seq<Region>, q: seq<Region>, n: nat) {
    n <= |p| && n <= |q| && forall j | 0 <= j < n :: p[j] == q[j]
  }

  /** Where a mapped byte lies. */
  lemma Locate(image: Image, p: seq<Region>, a: nat) returns (i: nat)
    requires AreRegions(p, image) && a in image
    ensures i < |p| && Within(a, p[i])
  {
    i :| 0 <= i < |p| && Within(a, p[i]);
  }

  lemma StartIsMapped(image: Image, p: seq<Region>, i: nat)
    requires AreRegions(p, image) && i < |p|
    ensures p[i].start in image && p[i].start < p[i].End()
  {
    RegionByte(image, p[i], p[i].start);
  }

  lemma SameStart(image: Image, p: seq<Region>, q: seq<Region>, i: nat)
    requires AreRegions(p, image) && AreRegions(q, image) && i < |p| && i < |q| && Agree(p, q, i)
    ensures q[i].start <= p[i].start
  {
    StartIsMapped(image, p, i);
    var j := Locate(image, q, p[i].start);
    if j < i {
      assert false;
    }
  }

  lemma SameEnd(image: Image, p: seq<Region>, q: seq<Region>, i: nat)
    requires AreRegions(p, image) && AreRegions(q, image) && i < |p| && i < |q| && p[i].start == q[i].start
    ensures q[i].End() <= p[i].End()
  {
    if p[i].End() < q[i].End() {
      RegionByte(image, q[i], p[i].End());
      var j := Locate(image, p, p[i].End());
      assert false;
    }
  }

  lemma SameBytes(image: Image, r: Region, s: Region)
    requires Holds(image, r) && Holds(image, s) && r.start == s.start && r.End() == s.End()
    ensures r == s
  {
    forall k | 0 <= k < |r.data| ensures r.data[k] == s.data[k] {
      RegionByte(image, r, r.start + k);
      RegionByte(image, s, r.start + k);
    }
    assert r.data == s.data;
  }

  lemma SameRegion(image: Image, p: seq<Region>, q: seq<Region>, i: nat)
    requires AreRegions(p, image) && AreRegions(q, image) && i < |p| && i < |q| && Agree(p, q, i)
    ensures p[i] == q[i]
  {
    SameStart(image, p, q, i);
    SameStart(image, q, p, i);
    SameEnd(image, p, q, i);
    SameEnd(image, q, p, i);
    SameBytes(image, p[i], q[i]);
  }

  lemma {:induction false} SamePrefix(image: Image, p: seq<Region>, q: seq<Region>, n: nat)
    requires AreRegions(p, image) && AreRegions(q, image) && n <= |p| && n <= |q|
    ensures Agree(p, q, n)
  {
    if n > 0 {
      SamePrefix(image, p, q, n - 1);
      SameRegion(image, p, q, n - 1);
    }
  }

  lemma NoneMissing(image: Image, p: seq<Region>, q: seq<Region>)
    requires AreRegions(p, image) && AreRegions(q, image) && Agree(p, q, |q|)
    ensures |p| <= |q|
  {
    if |q| < |p| {
      StartIsMapped(image, p, |q|);
      var j := Locate(image, q, p[|q|].start);
      assert false;
    }
  }

  /** An image has only one list of maximal runs, so the file for it is unique. */
  lemma RegionsAreUnique(image: Image, p: seq<Region>, q: seq<Region>)
    requires AreRegions(p, image) && AreRegions(q, image)
    ensures p == q
  {
    var n := if |p| <= |q| then |p| else |q|;
    SamePrefix(image, p, q, n);
    if n == |q| {
      NoneMissing(image, p, q);
    } else {
      NoneMissing(image, q, p);
    }
  }

  // ---- From the file's bytes back to the image --------------------------------------------

  /** The address and payload of every block in a file. */
  function BlocksOf(file: seq<byte>): (cs: seq<Chunk>)
    ensures |cs| == |file| / 512
  {
    seq(|file| / 512, j requires 0 <= j < |file| / 512 => BlockOf(file, j))
  }

  /** Just behind a mapped byte. */
  ghost predicate JustBehind(a: nat, image: Image) {
    exists b :: b in image && b < a <= b + 255
  }

  /** What the file leaves at `a`: a mapped byte, or nothing, or a zero that pads
      what is mapped just before. */
  ghost predicate LeavesAt(file: seq<byte>, a: nat, image: Image) {
    var loaded := Load(BlocksOf(file), a);
    if a in image then loaded == Some(image[a])
    else loaded == None || (loaded == Some(0) && JustBehind(a, image))
  }

  /** A bootloader accepts every block of the file, and having written them all
      in order holds the image. */
  ghost predicate Carries(file: seq<byte>, image: Image) {
    && AllAccepted(file, |file| / 512)
    && (forall a :: LeavesAt(file, a, image))
  }

  predicate AllAccepted(file: seq<byte>, n: nat) {
    |file| == 512 * n && forall j | 0 <= j < n :: Accepts(file, j, n)
  }

  lemma FileAccepted(cs: seq<Chunk>, file: seq<byte>)
    requires AllWhole(cs) && (cs == [] || Packable(cs, |cs|)) && file == FileOf(cs, |cs|)
    ensures AllAccepted(file, |cs|)
  {
    forall j | 0 <= j < |cs| ensures Accepts(file, j, |cs|) {
      BlocksReadBack(cs, file, j);
    }
  }

  lemma FileReadsBack(cs: seq<Chunk>, file: seq<byte>)
    requires AllWhole(cs) && (cs == [] || Packable(cs, |cs|)) && file == FileOf(cs, |cs|)
    ensures BlocksOf(file) == cs
  {
    forall j | 0 <= j < |cs| ensures BlockOf(file, j) == cs[j] {
      BlocksReadBack(cs, file, j);
    }
  }

  lemma BehindIsMapped(a: nat, image: Image, regions: seq<Region>)
    requires AreRegions(regions, image) && Behind(a, regions)
    ensures JustBehind(a, image)
  {
    var i :| 0 <= i < |regions| && regions[i].End() <= a < regions[i].End() + 255;
    RegionByte(image, regions[i], regions[i].End() - 1);
  }

  /** Read back from its bytes, the file of an image's blocks carries the image. */
  lemma FileCarries(image: Image, regions: seq<Region>, file: seq<byte>)
    requires AreRegions(regions, image) && AllWhole(Chunks(regions))
    requires Chunks(regions) == [] || Packable(Chunks(regions), |Chunks(regions)|)
    requires file == FileOf(Chunks(regions), |Chunks(regions)|)
    ensures Carries(file, image)
  {
    FileReadsBack(Chunks(regions), file);
    FileAccepted(Chunks(regions), file);
    forall a ensures LeavesAt(file, a, image) {
      LoadedImage(image, regions, a);
      if a !in image && Load(Chunks(regions), a).Some? {
        BehindIsMapped(a, image, regions);
      }
    }
  }

  // ---- The whole converter -------------------------------------------------------------

  /** The outcome for these regions: the numbered blocks, or nothing exactly when
      a number does not fit its 32-bit field. */
  ghost predicate Converts(regions: seq<Region>, r: Option<seq<byte>>) {
    var cs := Chunks(regions);
    && AllWhole(cs)
    && (r.Some? <==> cs == [] || Packable(cs, |cs|))
    && (r.Some? ==> r.value == FileOf(cs, |cs|))
  }

  method Pack(found: seq<Region>) returns (r: Option<seq<byte>>)
    ensures Converts(found, r)
  {
    ChunksAreWhole(found);
    var total := 0;
    for i := 0 to |found|
      invariant total == TotalBlocks(found[..i])
    {
      ChunksGrow(found, i);
      total := total + (|found[i].data| + 256 - 1) / 256;
    }
    assert found[..|found|] == found;
    CountIsExact(found);
    var blocks: seq<byte> := [];
    var number := 0;
    for i := 0 to |found|
      invariant Built(blocks, Chunks(found[..i]), number, total)
    {
      ChunksGrow(found, i);
      var ok;
      ok, blocks, number := PackRegion(found, i, total, blocks, number, Chunks(found[..i]));
      if !ok {
        return None;
      }
    }
    r := Some(blocks);
  }

  /** A file that is written loads back the image. Packing fails exactly when the
      address of some block, or their number, does not fit 32 bits; nothing is
      written then. */
  method Convert(image: Image) returns (r: Option<seq<byte>>)
    ensures exists regions :: AreRegions(regions, image) && Converts(regions, r)
    ensures r.Some? ==> Carries(r.value, image)
  {
    var found := SegmentsToContiguous(image);
    r := Pack(found);
    if r.Some? {
      FileCarries(image, found, r.value);
    }
  }
}
