/**
 What a Merkle Mountain Range over a list of leaves holds: the digest of every perfect
 subtree, the peaks, and the write-once log of all nodes in position order.
 */
module MmrForest {
  import opened Binary
  import opened Bytes
  import opened MmrShape

  type Leaf = seq<Byte>

  /** Root of the perfect tree over leaves Shl(j, h) .. Shl(j + 1, h). */
  function NodeDigest(sha: Hash, s: seq<Leaf>, h: nat, j: nat): Digest
    decreases h
  {
    if h == 0 then sha(if j < |s| then s[j] else [])
    else HashPair(sha, NodeDigest(sha, s, h - 1, 2 * j), NodeDigest(sha, s, h - 1, 2 * j + 1))
  }

  function Digests(sha: Hash, s: seq<Leaf>, nodes: seq<Node>): (ds: seq<Digest>)
    ensures |ds| == |nodes|
    ensures forall k :: 0 <= k < |nodes| ==> ds[k] == NodeDigest(sha, s, nodes[k].height, nodes[k].index)
  {
    seq(|nodes|, k requires 0 <= k < |nodes| => NodeDigest(sha, s, nodes[k].height, nodes[k].index))
  }

  /** The peaks of the whole list, high to low. */
  function Peaks(sha: Hash, s: seq<Leaf>): seq<Digest> {
    Digests(sha, s, PeakNodes(|s|, 0))
  }

  /** Digests written by the append of the last leaf, from node (h, pos) upwards. */
  function Burst(sha: Hash, s: seq<Leaf>, h: nat, pos: nat): (ds: seq<Digest>)
    ensures |ds| >= 1
    decreases pos
  {
    [NodeDigest(sha, s, h, pos)] + if pos % 2 == 1 then Burst(sha, s, h + 1, pos / 2) else []
  }

  /** All nodes in the order they are written. */
  function Log(sha: Hash, s: seq<Leaf>): seq<Digest> {
    if s == [] then [] else Log(sha, s[..|s| - 1]) + Burst(sha, s, 0, |s| - 1)
  }

  /** Log entries with their positions, from position `lo` on. */
  function Entries(log: seq<Digest>, lo: nat): (es: seq<(nat, Digest)>)
    requires lo <= |log|
    ensures |es| == |log| - lo
    ensures forall k :: 0 <= k < |es| ==> es[k] == (lo + k, log[lo + k])
  {
    seq(|log| - lo, k requires 0 <= k < |log| - lo => (lo + k, log[lo + k]))
  }

  // ---------------------------------------------------------------- stability

  /** A complete node's digest does not depend on later leaves. */
  lemma {:induction false} DigestStable(sha: Hash, s: seq<Leaf>, t: seq<Leaf>, h: nat, j: nat)
    requires s <= t && Complete(|s|, h, j)
    ensures NodeDigest(sha, s, h, j) == NodeDigest(sha, t, h, j)
    decreases h
  {
    if h > 0 {
      ParentComplete(|s|, h - 1, 2 * j);
      DigestStable(sha, s, t, h - 1, 2 * j);
      DigestStable(sha, s, t, h - 1, 2 * j + 1);
    }
  }

  // ---------------------------------------------------------------- the log

  lemma {:induction false} BurstLength(sha: Hash, s: seq<Leaf>, h: nat, pos: nat)
    ensures |Burst(sha, s, h, pos)| == NodeCount(pos + 1) - NodeCount(pos)
    decreases pos
  {
    hide NodeDigest, PopCount;
    var m := pos / 2;
    PopCountDouble(m);
    if pos == 2 * m + 1 {
      PopCountDouble(m + 1);
      BurstLength(sha, s, h + 1, m);
    }
  }

  /** After n appends the log has 2n - popcount(n) entries. */
  lemma {:induction false} LogLength(sha: Hash, s: seq<Leaf>)
    ensures |Log(sha, s)| == NodeCount(|s|)
  {
    if s != [] {
      LogLength(sha, s[..|s| - 1]);
      BurstLength(sha, s, 0, |s| - 1);
    }
  }

  lemma {:induction false} BurstAt(sha: Hash, s: seq<Leaf>, h0: nat, pos: nat, h: nat, j: nat)
    requires h >= h0 && Shl(j + 1, h - h0) == pos + 1
    ensures h - h0 < |Burst(sha, s, h0, pos)|
    ensures Burst(sha, s, h0, pos)[h - h0] == NodeDigest(sha, s, h, j)
    decreases pos
  {
    hide NodeDigest, Shl;
    if h == h0 {
      ShlZero(j + 1);
    } else {
      ShlDouble(j + 1, h - h0 - 1);
      BurstAt(sha, s, h0 + 1, pos / 2, h, j);
    }
  }

  /** The log holds every complete node's digest at that node's position. */
  lemma {:induction false} LogAt(sha: Hash, s: seq<Leaf>, h: nat, j: nat)
    requires Complete(|s|, h, j)
    ensures NodePos(h, j) < |Log(sha, s)|
    ensures Log(sha, s)[NodePos(h, j)] == NodeDigest(sha, s, h, j)
    decreases |s|
  {
    hide NodePos, NodeCount, NodeDigest, Burst, Shl;
    LogLength(sha, s);
    PosInUse(|s|, h, j);
    WrittenWithLastLeaf(h, j);
    var front := s[..|s| - 1];
    LogLength(sha, front);
    if Complete(|front|, h, j) {
      LogAt(sha, front, h, j);
      DigestStable(sha, front, s, h, j);
    } else {
      BurstAt(sha, s, 0, |s| - 1, h, j);
    }
  }

  /** Positions already written never change: the log only grows at its end. */
  lemma {:induction false} LogGrows(sha: Hash, s: seq<Leaf>, t: seq<Leaf>)
    ensures Log(sha, s) <= Log(sha, s + t)
    decreases |t|
  {
    if t == [] {
      assert s + t == s;
    } else {
      var t' := t[..|t| - 1];
      LogGrows(sha, s, t');
      assert (s + t)[..|s + t| - 1] == s + t';
    }
  }

  /** Some complete node of the first n leaves sits at position p. */
  ghost predicate Occupied(n: nat, p: nat) {
    exists h, j :: Complete(n, h, j) && NodePos(h, j) == p
  }

  /** Every position up to the node count, and no other, belongs to a complete node. */
  lemma LogCovers(sha: Hash, s: seq<Leaf>, p: nat)
    ensures p < |Log(sha, s)| <==> Occupied(|s|, p)
  {
    LogLength(sha, s);
    if p < NodeCount(|s|) {
      var h, j := PosCovered(|s|, p);
    } else if Occupied(|s|, p) {
      var h, j :| Complete(|s|, h, j) && NodePos(h, j) == p;
      PosInUse(|s|, h, j);
    }
  }

  /** The accumulator's peaks are the log entries at the listed peak positions. */
  lemma PeaksInLog(sha: Hash, s: seq<Leaf>, k: nat)
    requires k < |Peaks(sha, s)|
    ensures Positions(PeakNodes(|s|, 0))[k] < |Log(sha, s)|
    ensures Peaks(sha, s)[k] == Log(sha, s)[Positions(PeakNodes(|s|, 0))[k]]
  {
    PeaksArePeaks(|s|, 0);
    var p := PeakNodes(|s|, 0)[k];
    assert p in PeakNodes(|s|, 0);
    LogAt(sha, s, p.height, p.index);
  }

  lemma EntriesJoin(a: seq<Digest>, b: seq<Digest>, lo: nat)
    requires lo <= |a| && a <= b
    ensures Entries(a, lo) + Entries(b, |a|) == Entries(b, lo)
  {
  }

  lemma DigestsSnoc(sha: Hash, s: seq<Leaf>, nodes: seq<Node>, p: Node)
    ensures Digests(sha, s, nodes + [p]) == Digests(sha, s, nodes) + [NodeDigest(sha, s, p.height, p.index)]
  {
  }
}
