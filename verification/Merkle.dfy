/** Merkle roots: the row-by-row reduction, an independent definition of the tree, and the branch
    fold (lib/mining/MerkleRoot.cpp, lib/mining/MerkleBranch.cpp). */
module Merkle {
  import opened ByteStrings
  import opened Hash256

  /** The hash plugin, `sha256d`: any function from bytes to 32 bytes. */
  type Hasher = seq<byte> -> Hash

  function Join(left: Hash, right: Hash): (b: seq<byte>)
    ensures |b| == 64
  {
    var l: seq<byte>, r: seq<byte> := left, right;
    l + r
  }

  // ---------- The tree ----------

  /** How many nodes stand at `level` above `n` leaves. */
  function Width(n: nat, level: nat): nat {
    if level == 0 then n else (Width(n, level - 1) + 1) / 2
  }

  lemma {:induction false} WidthPositive(n: nat, level: nat)
    requires n > 0
    ensures 0 < Width(n, level) <= n
  {
    if level == 0 {
    } else {
      WidthPositive(n, level - 1);
    }
  }

  /** Node `i` of `level`: a leaf, or the hash of its two children; a missing right child is the left one. */
  function Node(hasher: Hasher, leaves: seq<Hash>, level: nat, i: nat): Hash
    requires i < Width(|leaves|, level)
    decreases level
  {
    if level == 0 then leaves[i]
    else
      var left := Node(hasher, leaves, level - 1, 2 * i);
      var right := if 2 * i + 1 < Width(|leaves|, level - 1) then Node(hasher, leaves, level - 1, 2 * i + 1) else left;
      hasher(Join(left, right))
  }

  /** The lowest level with a single node. */
  function Height(n: nat): (h: nat)
    requires n > 0
    ensures Width(n, h) == 1
    ensures forall l :: 0 <= l < h ==> Width(n, l) > 1
  {
    HeightFrom(n, 0)
  }

  function HeightFrom(n: nat, level: nat): (h: nat)
    requires n > 0
    requires forall l :: 0 <= l < level ==> Width(n, l) > 1
    ensures level <= h && Width(n, h) == 1
    ensures forall l :: 0 <= l < h ==> Width(n, l) > 1
    decreases Width(n, level)
  {
    WidthPositive(n, level);
    if Width(n, level) == 1 then level else HeightFrom(n, level + 1)
  }

  function Root(hasher: Hasher, leaves: seq<Hash>): Hash
    requires leaves != []
  {
    Node(hasher, leaves, Height(|leaves|), 0)
  }

  // ---------- Reduction by rows ----------

  /** The row above `row`. */
  function NextRow(hasher: Hasher, row: seq<Hash>): (r: seq<Hash>)
    ensures |r| == (|row| + 1) / 2
  {
    if row == [] then []
    else if |row| == 1 then [hasher(Join(row[0], row[0]))]
    else [hasher(Join(row[0], row[1]))] + NextRow(hasher, row[2..])
  }

  function Reduced(hasher: Hasher, row: seq<Hash>): Hash
    requires row != []
    decreases |row|
  {
    if |row| == 1 then row[0] else Reduced(hasher, NextRow(hasher, row))
  }

  lemma {:induction false} NextRowAt(hasher: Hasher, row: seq<Hash>, i: nat)
    requires i < (|row| + 1) / 2
    ensures NextRow(hasher, row)[i] == hasher(Join(row[2 * i], if 2 * i + 1 < |row| then row[2 * i + 1] else row[2 * i]))
  {
    if i == 0 {
    } else {
      NextRowAt(hasher, row[2..], i - 1);
    }
  }

  ghost predicate IsRow(hasher: Hasher, leaves: seq<Hash>, level: nat, row: seq<Hash>) {
    && |row| == Width(|leaves|, level)
    && forall i :: 0 <= i < |row| ==> row[i] == Node(hasher, leaves, level, i)
  }

  lemma NextRowIsRow(hasher: Hasher, leaves: seq<Hash>, level: nat, row: seq<Hash>)
    requires IsRow(hasher, leaves, level, row)
    ensures IsRow(hasher, leaves, level + 1, NextRow(hasher, row))
  {
    var next := NextRow(hasher, row);
    forall i | 0 <= i < |next| ensures next[i] == Node(hasher, leaves, level + 1, i) {
      NextRowAt(hasher, row, i);
    }
  }

  lemma {:induction false} ReducedFromLevel(hasher: Hasher, leaves: seq<Hash>, level: nat, row: seq<Hash>)
    requires leaves != [] && IsRow(hasher, leaves, level, row) && level <= Height(|leaves|)
    ensures row != [] && Reduced(hasher, row) == Root(hasher, leaves)
    decreases Height(|leaves|) - level
  {
    WidthPositive(|leaves|, level);
    if level == Height(|leaves|) {
    } else {
      NextRowIsRow(hasher, leaves, level, row);
      ReducedFromLevel(hasher, leaves, level + 1, NextRow(hasher, row));
    }
  }

  /** Reducing rows gives the root of the tree. */
  lemma ReducedIsRoot(hasher: Hasher, leaves: seq<Hash>)
    requires leaves != []
    ensures Reduced(hasher, leaves) == Root(hasher, leaves)
  {
    ReducedFromLevel(hasher, leaves, 0, leaves);
  }

  // ---------- The reduction on raw bytes ----------

  /** Hashes one behind the other. */
  function Blob(ids: seq<Hash>): (b: seq<byte>)
    ensures |b| == 32 * |ids|
  {
    if ids == [] then []
    else
      var first: seq<byte> := ids[0];
      first + Blob(ids[1..])
  }

  /** A blob of whole hashes cut up again. */
  function Ids(blob: seq<byte>): (ids: seq<Hash>)
    requires |blob| % 32 == 0
    ensures |ids| == |blob| / 32
  {
    if blob == [] then [] else [blob[..32]] + Ids(blob[32..])
  }

  lemma {:induction false} IdsOfBlob(ids: seq<Hash>)
    ensures Ids(Blob(ids)) == ids
  {
    if ids == [] {
    } else {
      IdsOfBlob(ids[1..]);
      assert Blob(ids)[..32] == ids[0] && Blob(ids)[32..] == Blob(ids[1..]);
    }
  }

  lemma {:induction false} BlobAppend(ids: seq<Hash>, id: Hash)
    ensures Blob(ids + [id]) == Blob(ids) + id
  {
    if ids == [] {
      assert Blob([id]) == id + Blob([id][1..]);
    } else {
      BlobAppend(ids[1..], id);
      assert (ids + [id])[1..] == ids[1..] + [id];
    }
  }

  lemma IdsOfPair(left: Hash, right: Hash)
    ensures Ids(Join(left, right)) == [left, right]
    ensures forall hasher: Hasher :: Reduced(hasher, [left, right]) == hasher(Join(left, right))
  {
    var b := Join(left, right);
    assert b[..32] == left && b[32..] == right && right[..32] == right && right[32..] == [];
    forall hasher: Hasher ensures Reduced(hasher, [left, right]) == hasher(Join(left, right)) {
      assert [left, right][2..] == [];
    }
  }

  /** Result of the C++ function: a node, or the exception on a blob that is no whole number of hashes. */
  datatype NodeResult = Hashed(hash: Hash) | InvalidSize

  lemma ReducedSmall(hasher: Hasher, txids: seq<byte>)
    requires |txids| == 32 || |txids| == 64
    ensures |txids| == 32 ==> Reduced(hasher, Ids(txids)) == txids
    ensures |txids| == 64 ==> Reduced(hasher, Ids(txids)) == hasher(txids)
  {
    if |txids| == 32 {
      assert txids[..32] == txids;
    } else {
      IdsOfPair(txids[..32], txids[32..]);
      assert txids == Join(txids[..32], txids[32..]);
    }
  }

  /** `fromRawTxIdBlob`. On an empty blob the source calls itself with an empty row for ever. */
  method FromRawTxIdBlob(hasher: Hasher, txids: seq<byte>) returns (r: NodeResult)
    requires txids != []
    ensures |txids| % 32 != 0 ==> r == InvalidSize
    ensures |txids| % 32 == 0 ==> r == Hashed(Reduced(hasher, Ids(txids)))
    decreases |txids|, 1
  {
    if |txids| % 32 != 0 {
      return InvalidSize;
    }
    if |txids| == 32 {
      ReducedSmall(hasher, txids);
      return Hashed(txids);
    }
    if |txids| == 64 {
      ReducedSmall(hasher, txids);
      return Hashed(hasher(txids));
    }
    var row := RowAbove(hasher, txids);
    IdsOfBlob(NextRow(hasher, Ids(txids)));
    r := FromRawTxIdBlob(hasher, row);
  }

  /** The loop of its default branch: pairs are hashed, an odd last id against itself. */
  method RowAbove(hasher: Hasher, txids: seq<byte>) returns (row: seq<byte>)
    requires |txids| > 64 && |txids| % 32 == 0
    ensures row == Blob(NextRow(hasher, Ids(txids)))
    decreases |txids|, 0
  {
    hide NextRow, Reduced, Ids, Blob, Join;
    row := [];
    ghost var nodes: seq<Hash> := [];
    ghost var rest := txids;
    StartRow(hasher, txids);
    var processed := 0;
    while processed < |txids|
      invariant rest == if processed < |txids| then txids[processed..] else []
      invariant |rest| % 32 == 0
      invariant nodes + NextRow(hasher, Ids(rest)) == NextRow(hasher, Ids(txids))
      invariant row == Blob(nodes)
      decreases |txids| - processed
    {
      var left := txids[processed..processed + 32];
      var right := if |txids| - processed >= 64 then txids[processed + 32..processed + 64] else left;
      var node := FromRawTxIdBlob(hasher, Join(left, right));
      IdsOfPair(left, right);
      row := row + node.hash;
      StepRow(hasher, rest, left, right, nodes, node.hash);
      nodes := nodes + [node.hash];
      processed := processed + 64;
      rest := if |rest| >= 64 then rest[64..] else [];
    }
    assert nodes + [] == nodes;
  }

  lemma StartRow(hasher: Hasher, txids: seq<byte>)
    requires |txids| % 32 == 0
    ensures [] + NextRow(hasher, Ids(txids)) == NextRow(hasher, Ids(txids)) && Blob([]) == [] && NextRow(hasher, Ids([])) == []
  {
  }

  lemma FirstId(blob: seq<byte>)
    requires |blob| % 32 == 0 && blob != []
    ensures Ids(blob) == [blob[..32]] + Ids(blob[32..])
  {
  }

  lemma SecondHash(blob: seq<byte>)
    requires |blob| >= 64
    ensures blob[32..][..32] == blob[32..64] && blob[32..][32..] == blob[64..]
  {
  }

  lemma FirstTwoIds(blob: seq<byte>)
    requires |blob| % 32 == 0 && |blob| >= 64
    ensures Ids(blob) == [blob[..32], blob[32..64]] + Ids(blob[64..])
  {
    hide Ids;
    FirstId(blob);
    FirstId(blob[32..]);
    SecondHash(blob);
    InFront(blob[..32], blob[32..64], Ids(blob[64..]));
  }

  lemma InFront(a: Hash, b: Hash, others: seq<Hash>)
    ensures [a] + ([b] + others) == [a, b] + others
  {
  }

  lemma OnlyId(blob: seq<byte>)
    requires |blob| == 32
    ensures Ids(blob) == [blob]
  {
    assert blob[..32] == blob && blob[32..] == [];
  }

  lemma NextRowOfPair(hasher: Hasher, left: Hash, right: Hash, others: seq<Hash>)
    ensures NextRow(hasher, [left, right] + others) == [hasher(Join(left, right))] + NextRow(hasher, others)
  {
    assert ([left, right] + others)[2..] == others;
  }

  lemma StepRow(hasher: Hasher, rest: seq<byte>, left: Hash, right: Hash, nodes: seq<Hash>, hash: Hash)
    requires |rest| % 32 == 0 && rest != []
    requires left == rest[..32] && right == if |rest| >= 64 then rest[32..64] else left
    requires hash == hasher(Join(left, right))
    ensures nodes + NextRow(hasher, Ids(rest))
            == nodes + [hash] + NextRow(hasher, Ids(if |rest| >= 64 then rest[64..] else []))
    ensures Blob(nodes + [hash]) == Blob(nodes) + hash
  {
    BlobAppend(nodes, hash);
    if |rest| >= 64 {
      hide NextRow, Ids, Blob, Join;
      FirstTwoIds(rest);
      NextRowOfPair(hasher, left, right, Ids(rest[64..]));
      Associate(nodes, [hash], NextRow(hasher, Ids(rest[64..])));
    } else {
      OnlyId(rest);
      assert rest == left;
    }
  }

  /** `fromTxIds` for a non-empty list: the root of the tree over the ids. */
  method FromTxIds(hasher: Hasher, txs: seq<Hash>) returns (root: Hash)
    requires txs != []
    ensures root == Root(hasher, txs)
  {
    var rawBuffer: seq<byte> := [];
    for i := 0 to |txs|
      invariant rawBuffer == Blob(txs[..i])
    {
      assert txs[..i + 1] == txs[..i] + [txs[i]];
      BlobAppend(txs[..i], txs[i]);
      rawBuffer := rawBuffer + txs[i];
    }
    assert txs[..|txs|] == txs;
    IdsOfBlob(txs);
    var r := FromRawTxIdBlob(hasher, rawBuffer);
    ReducedIsRoot(hasher, txs);
    root := r.hash;
  }

  // ---------- Branches ----------

  /** `getRoot`: `hashRecursive` along the branch. */
  function GetRoot(hasher: Hasher, leaf: Hash, branch: seq<Hash>): Hash
    decreases |branch|
  {
    if branch == [] then leaf else GetRoot(hasher, hasher(Join(leaf, branch[0])), branch[1..])
  }

  /** The siblings met on the way from leaf 0 to the root of the tree, lowest level first. */
  function SiblingPath(hasher: Hasher, leaves: seq<Hash>, level: nat): (path: seq<Hash>)
    requires leaves != [] && level <= Height(|leaves|)
    ensures |path| == Height(|leaves|) - level
    decreases Height(|leaves|) - level
  {
    if level == Height(|leaves|) then []
    else [Node(hasher, leaves, level, 1)] + SiblingPath(hasher, leaves, level + 1)
  }

  lemma {:induction false} BranchFromLevel(hasher: Hasher, leaves: seq<Hash>, level: nat)
    requires leaves != [] && level <= Height(|leaves|)
    ensures Width(|leaves|, level) > 0
    ensures GetRoot(hasher, Node(hasher, leaves, level, 0), SiblingPath(hasher, leaves, level)) == Root(hasher, leaves)
    decreases Height(|leaves|) - level
  {
    WidthPositive(|leaves|, level);
    if level == Height(|leaves|) {
    } else {
      BranchFromLevel(hasher, leaves, level + 1);
      var path := SiblingPath(hasher, leaves, level);
      assert path[1..] == SiblingPath(hasher, leaves, level + 1);
    }
  }

  /** Folding the first leaf along its sibling path gives the root of the whole tree. */
  lemma BranchGivesRoot(hasher: Hasher, leaf: Hash, others: seq<Hash>)
    ensures GetRoot(hasher, leaf, SiblingPath(hasher, [leaf] + others, 0)) == Root(hasher, [leaf] + others)
    ensures GetRoot(hasher, leaf, SiblingPath(hasher, [leaf] + others, 0)) == Reduced(hasher, [leaf] + others)
  {
    BranchFromLevel(hasher, [leaf] + others, 0);
    ReducedIsRoot(hasher, [leaf] + others);
  }

  /** Node 0 is the only node of a level that the first leaf reaches. */
  lemma {:induction false} OtherNodesAgree(hasher: Hasher, a: Hash, b: Hash, others: seq<Hash>, level: nat, i: nat)
    requires 0 < i < Width(1 + |others|, level)
    ensures Node(hasher, [a] + others, level, i) == Node(hasher, [b] + others, level, i)
    decreases level
  {
    if level == 0 {
    } else {
      OtherNodesAgree(hasher, a, b, others, level - 1, 2 * i);
      if 2 * i + 1 < Width(1 + |others|, level - 1) {
        OtherNodesAgree(hasher, a, b, others, level - 1, 2 * i + 1);
      }
    }
  }

  /** The path does not depend on the leaf, so one branch serves every coinbase. */
  lemma {:induction false} PathIgnoresLeaf(hasher: Hasher, a: Hash, b: Hash, others: seq<Hash>, level: nat)
    requires level <= Height(1 + |others|)
    ensures SiblingPath(hasher, [a] + others, level) == SiblingPath(hasher, [b] + others, level)
    decreases Height(1 + |others|) - level
  {
    if level == Height(1 + |others|) {
    } else {
      OtherNodesAgree(hasher, a, b, others, level, 1);
      PathIgnoresLeaf(hasher, a, b, others, level + 1);
    }
  }
}
