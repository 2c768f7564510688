/** A file as a byte sequence laid out over the sectors of its cluster chain. */
module FileView {
  import opened Bytes
  import opened Layout
  import opened Chains

  /** Position in the chain of the cluster that holds byte `k` of a file. */
  function ClusterIndex(g: Geometry, k: nat): nat
    requires PowerOfTwo(g.csize)
  {
    k / SECTOR_SIZE / g.csize
  }

  /** Sector offset inside that cluster. */
  function SectorInCluster(g: Geometry, k: nat): (i: nat)
    requires PowerOfTwo(g.csize)
  {
    k / SECTOR_SIZE % g.csize
  }

  /** The chain is long enough for `n` bytes. */
  predicate Fits(g: Geometry, p: seq<nat>, n: nat)
    requires PowerOfTwo(g.csize)
  {
    n == 0 || ClusterIndex(g, n - 1) < |p|
  }

  /** How many clusters `n` bytes take. */
  function Clusters(g: Geometry, n: nat): nat
    requires PowerOfTwo(g.csize)
  {
    if n == 0 then 0 else ClusterIndex(g, n - 1) + 1
  }

  /** All clusters are on the volume and none occurs twice. */
  ghost predicate Placed(g: Geometry, p: seq<nat>) {
    && g.Valid()
    && (forall i :: 0 <= i < |p| ==> 2 <= p[i] < g.nFatEnt)
    && (forall i, j :: 0 <= i < j < |p| ==> p[i] != p[j])
  }

  lemma ChainIsPlaced(g: Geometry, t: seq<u32>, p: seq<nat>)
    requires g.Valid() && |t| == g.nFatEnt && IsChain(t, p)
    ensures Placed(g, p)
  {
    ChainIsAcyclic(t, p);
    forall i | 0 <= i < |p| ensures 2 <= p[i] < g.nFatEnt { assert Links(t, p, i); }
  }

  /** Arithmetic of positions: bytes of one cluster are consecutive. */
  lemma IndexMonotone(g: Geometry, k: nat, n: nat)
    requires PowerOfTwo(g.csize) && k <= n
    ensures ClusterIndex(g, k) <= ClusterIndex(g, n)
  {
    DivMonotone(k / SECTOR_SIZE, n / SECTOR_SIZE, g.csize);
  }

  lemma DivMonotone(a: nat, b: nat, c: int)
    requires PowerOfTwo(c) && a <= b
    ensures a / c <= b / c
  {
    if c == 1 {} else if c == 2 {} else if c == 4 {} else if c == 8 {}
    else if c == 16 {} else if c == 32 {} else if c == 64 {} else { assert c == 128; }
  }

  lemma DivParts(q: nat, c: int)
    requires PowerOfTwo(c)
    ensures q == c * (q / c) + q % c && 0 <= q % c < c && q / c >= 0
    ensures q / c * c == c * (q / c)
  {
    if c == 1 {} else if c == 2 {} else if c == 4 {} else if c == 8 {}
    else if c == 16 {} else if c == 32 {} else if c == 64 {} else { assert c == 128; }
  }

  /** The sector that holds byte `k`. */
  function SectorAt(g: Geometry, p: seq<nat>, k: nat): int
    requires g.Valid() && ClusterIndex(g, k) < |p|
  {
    g.ClusterToSector(p[ClusterIndex(g, k)]) + SectorInCluster(g, k)
  }

  /** Sector `s` belongs to a cluster of the chain. */
  predicate InChain(g: Geometry, p: seq<nat>, s: int) {
    g.csize > 0 && g.dataBase <= s < g.End() && g.SectorToCluster(s) in p
  }

  lemma SectorAtInChain(g: Geometry, p: seq<nat>, k: nat)
    requires Placed(g, p) && ClusterIndex(g, k) < |p|
    ensures g.dataBase <= SectorAt(g, p, k) < g.End()
    ensures g.SectorToCluster(SectorAt(g, p, k)) == p[ClusterIndex(g, k)]
    ensures (SectorAt(g, p, k) - g.dataBase) % g.csize == SectorInCluster(g, k)
    ensures InChain(g, p, SectorAt(g, p, k))
  {
    DivParts(k / SECTOR_SIZE, g.csize);
    SectorOfCluster(g, p[ClusterIndex(g, k)], SectorInCluster(g, k));
  }

  /** Two bytes share a sector exactly when they share a 512-byte block of the file. */
  lemma SectorAtInjective(g: Geometry, p: seq<nat>, k: nat, m: nat)
    requires Placed(g, p) && ClusterIndex(g, k) < |p| && ClusterIndex(g, m) < |p|
    ensures SectorAt(g, p, k) == SectorAt(g, p, m) <==> k / SECTOR_SIZE == m / SECTOR_SIZE
  {
    assert g.Valid() && PowerOfTwo(g.csize);
    hide Geometry.Valid, Geometry.ClusterToSector, Geometry.SectorToCluster, SectorAt, PowerOfTwo;
    if SectorAt(g, p, k) == SectorAt(g, p, m) {
      SectorAtInChain(g, p, k);
      SectorAtInChain(g, p, m);
      assert ClusterIndex(g, k) == ClusterIndex(g, m);
      DivParts(k / SECTOR_SIZE, g.csize);
      DivParts(m / SECTOR_SIZE, g.csize);
    } else if k / SECTOR_SIZE == m / SECTOR_SIZE {
      SameBlockSameSector(g, p, k, m);
    }
  }

  lemma SameBlockSameSector(g: Geometry, p: seq<nat>, k: nat, m: nat)
    requires g.Valid() && ClusterIndex(g, k) < |p| && k / SECTOR_SIZE == m / SECTOR_SIZE
    ensures ClusterIndex(g, m) < |p| && SectorAt(g, p, k) == SectorAt(g, p, m)
  {
  }

  /** Later sectors of the same cluster follow on the medium. */
  lemma SectorAtSteps(g: Geometry, p: seq<nat>, k: nat, j: nat)
    requires g.Valid() && ClusterIndex(g, k) < |p| && SectorInCluster(g, k) + j < g.csize
    ensures ClusterIndex(g, k + j * SECTOR_SIZE) == ClusterIndex(g, k)
    ensures SectorAt(g, p, k + j * SECTOR_SIZE) == SectorAt(g, p, k) + j
  {
    var q := k / SECTOR_SIZE;
    assert (k + j * SECTOR_SIZE) / SECTOR_SIZE == q + j;
    DivParts(q, g.csize);
    DivisionOfSpan(g.csize, q / g.csize, q % g.csize + j);
  }

  /** The image with the dirty file buffer laid over it. */
  function Overlay(img: seq<Sector>, dirty: bool, sect: int, buf: seq<byte>): (r: seq<Sector>)
    requires dirty ==> 0 <= sect < |img| && |buf| == SECTOR_SIZE
    ensures |r| == |img|
  {
    if dirty then img[sect := buf] else img
  }

  /** The first `n` bytes of the file with chain `p`. */
  ghost function Content(g: Geometry, img: seq<Sector>, p: seq<nat>, n: nat): (c: seq<byte>)
    requires Placed(g, p) && g.End() <= |img| && Fits(g, p, n)
    ensures |c| == n
    ensures forall k :: 0 <= k < n ==> c[k] == ByteAt(g, img, p, k)
  {
    seq(n, k requires 0 <= k < n => ByteAt(g, img, p, k))
  }

  /** Byte `k` of the file; 0 past the end of the chain. */
  ghost function ByteAt(g: Geometry, img: seq<Sector>, p: seq<nat>, k: nat): byte
    requires Placed(g, p) && g.End() <= |img|
  {
    if ClusterIndex(g, k) < |p| then
      SectorAtInChain(g, p, k);
      img[SectorAt(g, p, k)][k % SECTOR_SIZE]
    else 0
  }

  /** Content of a prefix. */
  lemma ContentPrefix(g: Geometry, img: seq<Sector>, p: seq<nat>, n: nat, m: nat)
    requires Placed(g, p) && g.End() <= |img| && Fits(g, p, n) && m <= n
    ensures Fits(g, p, m)
    ensures Content(g, img, p, m) == Content(g, img, p, n)[..m]
  {
    if m > 0 { IndexMonotone(g, m - 1, n - 1); }
  }

  /** A longer chain shows the same bytes. */
  lemma ContentGrows(g: Geometry, img: seq<Sector>, p: seq<nat>, p': seq<nat>, n: nat)
    requires Placed(g, p) && Placed(g, p') && p <= p' && g.End() <= |img| && Fits(g, p, n)
    ensures Fits(g, p', n)
    ensures Content(g, img, p', n) == Content(g, img, p, n)
  {
    assert PowerOfTwo(g.csize);
    forall k | 0 <= k < n
      ensures ByteAt(g, img, p', k) == ByteAt(g, img, p, k)
    {
      IndexMonotone(g, k, n - 1);
    }
  }

  /** Content only depends on the sectors of the chain. */
  lemma ContentFrame(g: Geometry, img: seq<Sector>, img': seq<Sector>, p: seq<nat>, n: nat)
    requires Placed(g, p) && g.End() <= |img| == |img'| && Fits(g, p, n)
    requires forall s :: 0 <= s < |img| && InChain(g, p, s) ==> img'[s] == img[s]
    ensures Content(g, img', p, n) == Content(g, img, p, n)
  {
    forall k | 0 <= k < n
      ensures ByteAt(g, img', p, k) == ByteAt(g, img, p, k)
    {
      IndexMonotone(g, k, n - 1);
      SectorAtInChain(g, p, k);
    }
  }

  /** `w` written over `c` at offset `o`, extending it if it reaches past the end. */
  function Splice(c: seq<byte>, o: nat, w: seq<byte>): (r: seq<byte>)
    requires o <= |c|
  {
    c[..o] + w + (if o + |w| < |c| then c[o + |w|..] else [])
  }

  lemma SpliceSplice(c: seq<byte>, o: nat, v: seq<byte>, w: seq<byte>)
    requires o <= |c|
    ensures o + |v| <= |Splice(c, o, v)|
    ensures Splice(Splice(c, o, v), o + |v|, w) == Splice(c, o, v + w)
  {
  }

  lemma SpliceNothing(c: seq<byte>, o: nat)
    requires o <= |c|
    ensures Splice(c, o, []) == c
  {
  }

  lemma SpliceAt(c: seq<byte>, o: nat, w: seq<byte>, k: nat)
    requires o <= |c| && k < Max(|c|, o + |w|)
    ensures |Splice(c, o, w)| == Max(|c|, o + |w|)
    ensures Splice(c, o, w)[k] == if o <= k < o + |w| then w[k - o] else c[k]
  {
  }

  function Max(a: nat, b: nat): nat {
    if a > b then a else b
  }

  /** Replacing one sector of the file by `d` writes `w` at byte `o`, provided `d` agrees with the
      old sector on the bytes of the file before and behind. */
  lemma WriteInSector(g: Geometry, img: seq<Sector>, p: seq<nat>, n: nat, o: nat, w: seq<byte>, d: Sector)
    requires Placed(g, p) && g.End() <= |img| && Fits(g, p, n) && o <= n && |w| > 0
    requires o % SECTOR_SIZE + |w| <= SECTOR_SIZE && ClusterIndex(g, o) < |p|
    requires 0 <= SectorAt(g, p, o) < |img|
    requires d[o % SECTOR_SIZE..o % SECTOR_SIZE + |w|] == w
    requires forall b ::
      0 <= b < SECTOR_SIZE && !(o % SECTOR_SIZE <= b < o % SECTOR_SIZE + |w|) && o - o % SECTOR_SIZE + b < n ==>
      d[b] == img[SectorAt(g, p, o)][b]
    ensures Fits(g, p, Max(n, o + |w|))
    ensures Content(g, img[SectorAt(g, p, o) := d], p, Max(n, o + |w|)) == Splice(Content(g, img, p, n), o, w)
  {
    assert g.Valid() && PowerOfTwo(g.csize);
    hide Placed, SectorAt, Geometry.Valid, PowerOfTwo, Splice, ByteAt, ClusterIndex, Content, Fits;
    var s, n' := SectorAt(g, p, o), Max(n, o + |w|);
    var img' := img[s := d];
    FitsSameSector(g, p, o, o + |w| - 1);
    var c := Content(g, img, p, n);
    var r := Splice(c, o, w);
    SpliceAt(c, o, w, o);
    forall k | 0 <= k < n'
      ensures ByteAt(g, img', p, k) == r[k]
    {
      IndexMonotone(g, k, n' - 1);
      ByteAfterWrite(g, img, p, o, d, k);
      SpliceAt(c, o, w, k);
      if o <= k < o + |w| {
        BlockOffset(o, |w|, k);
        assert d[k % SECTOR_SIZE] == d[o % SECTOR_SIZE..o % SECTOR_SIZE + |w|][k - o];
      } else if k / SECTOR_SIZE == o / SECTOR_SIZE {
        BlockOffsetOutside(o, |w|, k);
      }
    }
    assert Content(g, img', p, n') == r;
  }

  lemma BlockOffset(o: nat, len: nat, k: nat)
    requires o % SECTOR_SIZE + len <= SECTOR_SIZE && o <= k < o + len
    ensures k / SECTOR_SIZE == o / SECTOR_SIZE && k % SECTOR_SIZE == o % SECTOR_SIZE + (k - o)
  {
  }

  lemma BlockOffsetOutside(o: nat, len: nat, k: nat)
    requires o % SECTOR_SIZE + len <= SECTOR_SIZE && k / SECTOR_SIZE == o / SECTOR_SIZE && !(o <= k < o + len)
    ensures !(o % SECTOR_SIZE <= k % SECTOR_SIZE < o % SECTOR_SIZE + len)
    ensures o - o % SECTOR_SIZE + k % SECTOR_SIZE == k
  {
  }

  /** Replacing a whole sector of the file. */
  lemma WriteWholeSector(g: Geometry, img: seq<Sector>, p: seq<nat>, n: nat, o: nat, d: Sector)
    requires Placed(g, p) && g.End() <= |img| && Fits(g, p, n) && o <= n
    requires o % SECTOR_SIZE == 0 && ClusterIndex(g, o) < |p| && 0 <= SectorAt(g, p, o) < |img|
    ensures Fits(g, p, Max(n, o + SECTOR_SIZE))
    ensures Content(g, img[SectorAt(g, p, o) := d], p, Max(n, o + SECTOR_SIZE)) == Splice(Content(g, img, p, n), o, d)
  {
    assert d[0..SECTOR_SIZE] == d;
    hide Content, Splice, SectorAt, ClusterIndex;
    WriteInSector(g, img, p, n, o, d, d);
  }

  lemma FitsSameSector(g: Geometry, p: seq<nat>, o: nat, e: nat)
    requires PowerOfTwo(g.csize) && ClusterIndex(g, o) < |p| && e / SECTOR_SIZE == o / SECTOR_SIZE
    ensures ClusterIndex(g, e) < |p|
  {
  }

  lemma ByteAfterWrite(g: Geometry, img: seq<Sector>, p: seq<nat>, o: nat, d: Sector, k: nat)
    requires Placed(g, p) && g.End() <= |img| && ClusterIndex(g, o) < |p| && ClusterIndex(g, k) < |p|
    requires 0 <= SectorAt(g, p, o) < |img|
    ensures ByteAt(g, img[SectorAt(g, p, o) := d], p, k) ==
      if k / SECTOR_SIZE == o / SECTOR_SIZE then d[k % SECTOR_SIZE] else ByteAt(g, img, p, k)
    ensures k / SECTOR_SIZE == o / SECTOR_SIZE ==> ByteAt(g, img, p, k) == img[SectorAt(g, p, o)][k % SECTOR_SIZE]
  {
    SectorAtInjective(g, p, k, o);
    SectorAtInChain(g, p, k);
  }

  /** The sectors a direct transfer addresses are those of the file, and lie in the volume. */
  lemma DirectRange(g: Geometry, p: seq<nat>, o: nat, cc: nat)
    requires Placed(g, p) && ClusterIndex(g, o) < |p| && SectorInCluster(g, o) + cc <= g.csize
    ensures g.dataBase <= SectorAt(g, p, o) && SectorAt(g, p, o) + cc <= g.End()
    ensures forall s :: SectorAt(g, p, o) <= s < SectorAt(g, p, o) + cc ==> InChain(g, p, s)
  {
    var c, i := p[ClusterIndex(g, o)], SectorInCluster(g, o);
    DivParts(o / SECTOR_SIZE, g.csize);
    SectorOfCluster(g, c, i);
    if cc > 0 {
      SectorOfCluster(g, c, i + cc - 1);
    }
    forall s | SectorAt(g, p, o) <= s < SectorAt(g, p, o) + cc ensures InChain(g, p, s) {
      SectorOfCluster(g, c, i + (s - SectorAt(g, p, o)));
    }
  }

  /** A byte of a transfer of whole sectors inside one cluster. */
  lemma DirectByte(g: Geometry, img: seq<Sector>, p: seq<nat>, o: nat, cc: nat, k: nat)
    requires Placed(g, p) && g.End() <= |img|
    requires o % SECTOR_SIZE == 0 && ClusterIndex(g, o) < |p| && SectorInCluster(g, o) + cc <= g.csize
    requires k < cc * SECTOR_SIZE
    ensures 0 <= SectorAt(g, p, o) + k / SECTOR_SIZE < |img|
    ensures ClusterIndex(g, o + k) < |p|
    ensures ByteAt(g, img, p, o + k) == img[SectorAt(g, p, o) + k / SECTOR_SIZE][k % SECTOR_SIZE]
  {
    assert g.Valid() && PowerOfTwo(g.csize);
    hide Placed, Geometry.Valid, PowerOfTwo, SectorAt, ClusterIndex, SectorInCluster, InChain;
    var j := k / SECTOR_SIZE;
    DirectRange(g, p, o, cc);
    SectorAtSteps(g, p, o, j);
    BlockArithmetic(o, k);
    SameBlockSameSector(g, p, o + j * SECTOR_SIZE, o + k);
  }

  lemma BlockArithmetic(o: nat, k: nat)
    requires o % SECTOR_SIZE == 0
    ensures (o + k / SECTOR_SIZE * SECTOR_SIZE) / SECTOR_SIZE == (o + k) / SECTOR_SIZE
    ensures (o + k) % SECTOR_SIZE == k % SECTOR_SIZE
  {
  }

  /** A transfer of whole sectors inside one cluster moves consecutive bytes of the file. */
  lemma DirectBytes(g: Geometry, img: seq<Sector>, p: seq<nat>, n: nat, o: nat, cc: nat, data: seq<byte>)
    requires Placed(g, p) && g.End() <= |img| && Fits(g, p, n)
    requires o % SECTOR_SIZE == 0 && ClusterIndex(g, o) < |p| && SectorInCluster(g, o) + cc <= g.csize
    requires 0 <= SectorAt(g, p, o) && SectorAt(g, p, o) + cc <= |img|
    requires |data| == cc * SECTOR_SIZE && o + |data| <= n
    requires forall k :: 0 <= k < |data| ==> data[k] == img[SectorAt(g, p, o) + k / SECTOR_SIZE][k % SECTOR_SIZE]
    ensures data == Content(g, img, p, n)[o..o + |data|]
  {
    hide Placed, Geometry.Valid, PowerOfTwo, SectorAt, ClusterIndex, SectorInCluster, ByteAt, Fits;
    forall k | 0 <= k < |data|
      ensures data[k] == Content(g, img, p, n)[o + k]
    {
      DirectByte(g, img, p, o, cc, k);
    }
  }

  /** A byte of the sector that holds byte `o`. */
  lemma SectorByte(g: Geometry, img: seq<Sector>, p: seq<nat>, o: nat, k: nat)
    requires Placed(g, p) && g.End() <= |img|
    requires ClusterIndex(g, o) < |p| && o % SECTOR_SIZE + k < SECTOR_SIZE
    ensures 0 <= SectorAt(g, p, o) < |img|
    ensures ByteAt(g, img, p, o + k) == img[SectorAt(g, p, o)][o % SECTOR_SIZE + k]
  {
    assert g.Valid() && PowerOfTwo(g.csize);
    hide Placed, Geometry.Valid, PowerOfTwo, SectorAt, ClusterIndex, InChain;
    SectorAtInChain(g, p, o);
    BlockOffset(o, k + 1, o + k);
    SameBlockSameSector(g, p, o, o + k);
  }

  /** Bytes read from one sector are consecutive bytes of the file. */
  lemma SectorBytes(g: Geometry, img: seq<Sector>, p: seq<nat>, n: nat, o: nat, len: nat)
    requires Placed(g, p) && g.End() <= |img| && Fits(g, p, n)
    requires ClusterIndex(g, o) < |p| && o % SECTOR_SIZE + len <= SECTOR_SIZE && o + len <= n
    requires 0 <= SectorAt(g, p, o) < |img|
    ensures img[SectorAt(g, p, o)][o % SECTOR_SIZE..o % SECTOR_SIZE + len] == Content(g, img, p, n)[o..o + len]
  {
    hide Geometry.Valid, PowerOfTwo, SectorAt, ClusterIndex, ByteAt, Fits;
    var d := img[SectorAt(g, p, o)][o % SECTOR_SIZE..o % SECTOR_SIZE + len];
    var c := Content(g, img, p, n);
    forall k | 0 <= k < len
      ensures d[k] == c[o + k]
    {
      SectorByte(g, img, p, o, k);
    }
  }

  /** On a sector boundary the next byte opens a new cluster exactly when its sector offset is 0. */
  lemma NextCluster(g: Geometry, k: nat)
    requires PowerOfTwo(g.csize) && k % SECTOR_SIZE == 0
    ensures SectorInCluster(g, k) == 0 && k > 0 ==> ClusterIndex(g, k) == ClusterIndex(g, k - 1) + 1
    ensures k == 0 ==> ClusterIndex(g, k) == 0 && SectorInCluster(g, k) == 0
    ensures SectorInCluster(g, k) != 0 ==> k > 0 && ClusterIndex(g, k) == ClusterIndex(g, k - 1)
  {
    if k > 0 {
      var q := k / SECTOR_SIZE;
      assert (k - 1) / SECTOR_SIZE == q - 1;
      QuotientStep(q, g.csize);
    } else {
      DivParts(0, g.csize);
      QuotientZero(g.csize);
    }
  }

  lemma QuotientZero(c: int)
    requires PowerOfTwo(c)
    ensures 0 / c == 0 && 0 % c == 0
  {
  }

  lemma QuotientStep(q: nat, c: int)
    requires PowerOfTwo(c) && q > 0
    ensures q / c == (q - 1) / c + (if q % c == 0 then 1 else 0)
  {
    if c == 1 {} else if c == 2 {} else if c == 4 {} else if c == 8 {}
    else if c == 16 {} else if c == 32 {} else if c == 64 {} else { assert c == 128; }
  }

  /** Inside a sector the position stays in the cluster of the byte before it. */
  lemma SameCluster(g: Geometry, k: nat)
    requires PowerOfTwo(g.csize) && k % SECTOR_SIZE != 0
    ensures k > 0 && ClusterIndex(g, k) == ClusterIndex(g, k - 1) && k / SECTOR_SIZE == (k - 1) / SECTOR_SIZE
  {
  }

  /** The cursor after `len` bytes inside one sector. */
  lemma AdvanceInSector(g: Geometry, p: seq<nat>, o: nat, len: nat)
    requires g.Valid() && ClusterIndex(g, o) < |p| && o % SECTOR_SIZE + len <= SECTOR_SIZE && len > 0
    ensures ClusterIndex(g, o + len - 1) == ClusterIndex(g, o)
    ensures (o + len) % SECTOR_SIZE != 0 ==>
      ClusterIndex(g, o + len) == ClusterIndex(g, o) && SectorAt(g, p, o + len) == SectorAt(g, p, o)
  {
    BlockOffset(o, len, o + len - 1);
    if o % SECTOR_SIZE + len < SECTOR_SIZE {
      BlockOffset(o, len + 1, o + len);
    } else {
      assert (o + len) % SECTOR_SIZE == 0;
    }
  }

  /** The cursor after `cc` whole sectors inside one cluster. */
  lemma AdvanceSectors(g: Geometry, o: nat, cc: nat)
    requires PowerOfTwo(g.csize) && o % SECTOR_SIZE == 0 && cc > 0 && SectorInCluster(g, o) + cc <= g.csize
    ensures ClusterIndex(g, o + cc * SECTOR_SIZE - 1) == ClusterIndex(g, o)
    ensures (o + cc * SECTOR_SIZE) % SECTOR_SIZE == 0
  {
    var q := o / SECTOR_SIZE;
    assert (o + cc * SECTOR_SIZE - 1) / SECTOR_SIZE == q + cc - 1;
    DivParts(q, g.csize);
    DivisionOfSpan(g.csize, q / g.csize, q % g.csize + cc - 1);
  }

  /** Whole sectors that fit both the request and the cluster. */
  function WholeSectors(g: Geometry, csect: nat, len: nat): nat
    requires csect <= g.csize
  {
    if csect + len / SECTOR_SIZE > g.csize then g.csize - csect else len / SECTOR_SIZE
  }

  /** A direct transfer makes progress, stays in its cluster and within the request. */
  lemma WholeSectorsSpan(g: Geometry, o: nat, len: nat)
    requires PowerOfTwo(g.csize) && o % SECTOR_SIZE == 0 && len >= SECTOR_SIZE
    ensures 0 <= SectorInCluster(g, o) < g.csize
    ensures var cc := WholeSectors(g, SectorInCluster(g, o), len);
      && cc > 0 && SectorInCluster(g, o) + cc <= g.csize && cc * SECTOR_SIZE <= len
      && ClusterIndex(g, o + cc * SECTOR_SIZE - 1) == ClusterIndex(g, o)
      && (o + cc * SECTOR_SIZE) % SECTOR_SIZE == 0
  {
    DivParts(o / SECTOR_SIZE, g.csize);
    AdvanceSectors(g, o, WholeSectors(g, SectorInCluster(g, o), len));
  }

  /** Bytes per cluster. */
  function ClusterBytes(g: Geometry): nat {
    g.csize * SECTOR_SIZE
  }

  /** Division by the cluster size in bytes gives the position in the chain. */
  lemma ClusterBytesIndex(g: Geometry, x: nat)
    requires PowerOfTwo(g.csize)
    ensures x / ClusterBytes(g) == ClusterIndex(g, x)
    ensures x / ClusterBytes(g) * ClusterBytes(g) <= x < x / ClusterBytes(g) * ClusterBytes(g) + ClusterBytes(g)
  {
    var c := g.csize;
    if c == 1 {} else if c == 2 {} else if c == 4 {} else if c == 8 {}
    else if c == 16 {} else if c == 32 {} else if c == 64 {} else { assert c == 128; }
  }

  lemma BlocksOf(a: nat, r: nat)
    ensures (a * SECTOR_SIZE + r) / SECTOR_SIZE == a + r / SECTOR_SIZE
    ensures (a * SECTOR_SIZE + r) % SECTOR_SIZE == r % SECTOR_SIZE
  {
  }

  /** A position `r` bytes into the `k`-th cluster. */
  lemma PositionInCluster(g: Geometry, k: nat, r: nat)
    requires PowerOfTwo(g.csize) && 0 < r <= ClusterBytes(g)
    ensures k * ClusterBytes(g) >= 0
    ensures ClusterIndex(g, k * ClusterBytes(g) + r - 1) == k
    ensures (k * ClusterBytes(g) + r) % SECTOR_SIZE == r % SECTOR_SIZE
    ensures r % SECTOR_SIZE != 0 ==>
      ClusterIndex(g, k * ClusterBytes(g) + r) == k && SectorInCluster(g, k * ClusterBytes(g) + r) == r / SECTOR_SIZE
  {
    var c := g.csize;
    var a := c * k;
    assert k * ClusterBytes(g) == a * SECTOR_SIZE;
    hide PowerOfTwo;
    BlocksOf(a, r - 1);
    BlocksOf(a, r);
    DivisionOfSpan(c, k, (r - 1) / SECTOR_SIZE);
    if r % SECTOR_SIZE != 0 {
      DivisionOfSpan(c, k, r / SECTOR_SIZE);
    }
  }

  lemma IndexOf(g: Geometry, j: nat, i: nat, o: nat)
    requires PowerOfTwo(g.csize) && i < g.csize && o < SECTOR_SIZE
    ensures var k := (j * g.csize + i) * SECTOR_SIZE + o;
      k >= 0 && ClusterIndex(g, k) == j && SectorInCluster(g, k) == i && k % SECTOR_SIZE == o
  {
    Commutes(j, g.csize);
    BlocksOf(g.csize * j + i, o);
    DivisionOfSpan(g.csize, j, i);
  }

  lemma Commutes(a: nat, b: nat)
    ensures a * b == b * a && a * b >= 0
  {
  }

  /** Byte `o` of sector `i` of the `j`-th cluster of a file stands in that sector of that cluster. */
  lemma BytePlace(g: Geometry, img: seq<Sector>, p: seq<nat>, j: nat, i: nat, o: nat)
    requires Placed(g, p) && g.End() <= |img| && j < |p| && i < g.csize && o < SECTOR_SIZE
    ensures 0 <= g.dataBase + g.csize * (p[j] - 2) + i < |img|
    ensures var k := (j * g.csize + i) * SECTOR_SIZE + o;
      k >= 0 && ByteAt(g, img, p, k) == img[g.dataBase + g.csize * (p[j] - 2) + i][o]
  {
    assert g.Valid() && PowerOfTwo(g.csize) && 2 <= p[j] < g.nFatEnt;
    hide Placed, Geometry.Valid, PowerOfTwo, ClusterIndex, SectorInCluster, InChain;
    IndexOf(g, j, i, o);
    ClusterSpan(g.csize, p[j] - 2, g.nFatEnt - 2);
  }

  /** The bytes of a cluster. */
  function ClusterData(g: Geometry, img: seq<Sector>, c: nat): (b: seq<byte>)
    requires g.Valid() && g.End() <= |img| && 2 <= c < g.nFatEnt
    ensures |b| == g.csize * SECTOR_SIZE
  {
    ClusterSpan(g.csize, c - 2, g.nFatEnt - 2);
    var first := g.dataBase + g.csize * (c - 2);
    Joined(img[first..first + g.csize])
  }

  /** The bytes of the clusters of a chain, one cluster after the other. */
  ghost function ChainData(g: Geometry, img: seq<Sector>, p: seq<nat>): (b: seq<byte>)
    requires Placed(g, p) && g.End() <= |img|
    ensures |b| == |p| * ClusterBytes(g)
  {
    if p == [] then []
    else
      NextTimes(|p| - 1, ClusterBytes(g));
      ChainData(g, img, p[..|p| - 1]) + ClusterData(g, img, p[|p| - 1])
  }

  lemma {:induction false} ChainDataAt(g: Geometry, img: seq<Sector>, p: seq<nat>, j: nat, k: nat)
    requires Placed(g, p) && g.End() <= |img| && j < |p| && k < ClusterBytes(g)
    ensures 0 <= j * ClusterBytes(g) + k < |ChainData(g, img, p)|
    ensures ChainData(g, img, p)[j * ClusterBytes(g) + k] == ClusterData(g, img, p[j])[k]
    decreases |p|
  {
    hide ClusterData;
    var n := |p| - 1;
    NextTimes(n, ClusterBytes(g));
    if j < n {
      ChainDataAt(g, img, p[..n], j, k);
    }
  }

  lemma NextTimes(n: nat, b: nat)
    ensures (n + 1) * b == n * b + b && n * b >= 0
  {
  }

  lemma ClusterDataAt(g: Geometry, img: seq<Sector>, c: nat, i: nat, o: nat)
    requires g.Valid() && g.End() <= |img| && 2 <= c < g.nFatEnt && i < g.csize && o < SECTOR_SIZE
    ensures 0 <= g.dataBase + g.csize * (c - 2) + i < |img| && i * SECTOR_SIZE + o < g.csize * SECTOR_SIZE
    ensures ClusterData(g, img, c)[i * SECTOR_SIZE + o] == img[g.dataBase + g.csize * (c - 2) + i][o]
  {
    ClusterSpan(g.csize, c - 2, g.nFatEnt - 2);
    var first := g.dataBase + g.csize * (c - 2);
    JoinedAt(img[first..first + g.csize], i * SECTOR_SIZE + o);
    BlocksOf(i, o);
  }

  /** The place of a byte: cluster, sector and offset. */
  lemma PlaceOf(g: Geometry, k: nat)
    requires PowerOfTwo(g.csize)
    ensures var i := SectorInCluster(g, k);
      && 0 <= i < g.csize && ClusterIndex(g, k) >= 0
      && k == (ClusterIndex(g, k) * g.csize + i) * SECTOR_SIZE + k % SECTOR_SIZE
      && k == ClusterIndex(g, k) * ClusterBytes(g) + (i * SECTOR_SIZE + k % SECTOR_SIZE)
  {
    DivParts(k / SECTOR_SIZE, g.csize);
    var j := ClusterIndex(g, k);
    assert j * g.csize * SECTOR_SIZE == j * ClusterBytes(g);
  }

  lemma ClusterOnVolume(g: Geometry, p: seq<nat>, k: nat)
    requires Placed(g, p) && ClusterIndex(g, k) < |p|
    ensures g.Valid() && PowerOfTwo(g.csize) && 2 <= p[ClusterIndex(g, k)] < g.nFatEnt
  {
  }

  lemma ByteOfCluster(g: Geometry, img: seq<Sector>, p: seq<nat>, k: nat)
    requires Placed(g, p) && g.End() <= |img| && ClusterIndex(g, k) < |p|
    ensures k < |ChainData(g, img, p)| && ChainData(g, img, p)[k] == ByteAt(g, img, p, k)
  {
    hide Placed, Geometry.Valid, Geometry.End, PowerOfTwo, ByteAt, ChainData, ClusterData, ClusterIndex,
         SectorInCluster;
    ClusterOnVolume(g, p, k);
    var j, i, o := ClusterIndex(g, k), SectorInCluster(g, k), k % SECTOR_SIZE;
    PlaceOf(g, k);
    BytePlace(g, img, p, j, i, o);
    ClusterDataAt(g, img, p[j], i, o);
    ChainDataAt(g, img, p, j, i * SECTOR_SIZE + o);
  }

  /** A file is the bytes of its clusters in the order of the chain, up to its size. */
  lemma ContentIsClusters(g: Geometry, img: seq<Sector>, p: seq<nat>, n: nat)
    requires Placed(g, p) && g.End() <= |img| && Fits(g, p, n)
    ensures n <= |ChainData(g, img, p)| && Content(g, img, p, n) == ChainData(g, img, p)[..n]
  {
    assert PowerOfTwo(g.csize);
    hide Placed, ByteAt, ChainData, Geometry.Valid, PowerOfTwo;
    if n > 0 { ByteOfCluster(g, img, p, n - 1); }
    forall k | 0 <= k < n
      ensures Content(g, img, p, n)[k] == ChainData(g, img, p)[k]
    {
      IndexMonotone(g, k, n - 1);
      ByteOfCluster(g, img, p, k);
    }
  }
}
