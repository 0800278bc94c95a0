/** SSZ Merkleization (ssz.go): the in-place fold over an array, the recursive
    tree it computes, composition of trees, and binding up to an explicit
    SHA-256 collision. SHA-256 is an arbitrary function from byte strings to
    roots, so nothing below depends on a property of the hash. */
module Merkle {
  import opened Bytes

  type Hash = seq<byte> -> Root

  /** The 64 bytes a parent hashes. */
  function Input(left: Root, right: Root): seq<byte> {
    left + right
  }

  function Node(sha: Hash, left: Root, right: Root): Root {
    sha(Input(left, right))
  }

  /** The root of the perfect tree over 2^depth leaves. */
  function TreeRoot(sha: Hash, leaves: seq<Root>, depth: nat): Root
    requires |leaves| == Pow2(depth)
  {
    if depth == 0 then leaves[0]
    else
      var half := Pow2(depth - 1);
      Node(sha, TreeRoot(sha, leaves[..half], depth - 1), TreeRoot(sha, leaves[half..], depth - 1))
  }

  function ZeroPad(chunks: seq<Root>, size: nat): (leaves: seq<Root>)
    requires |chunks| <= size
    ensures |leaves| == size
  {
    chunks + seq(size - |chunks|, _ => ZERO_ROOT)
  }

  /** The chunks zero-padded to 2^depth leaves. */
  function PaddedRoot(sha: Hash, chunks: seq<Root>, depth: nat): Root
    requires |chunks| <= Pow2(depth)
  {
    TreeRoot(sha, ZeroPad(chunks, Pow2(depth)), depth)
  }

  /** SSZ `merkleize` without a limit: pad to the least power of two. */
  function MerkleRoot(sha: Hash, chunks: seq<Root>): Root {
    PaddedRoot(sha, chunks, Depth(|chunks|))
  }

  // ---- The in-place fold ----

  /** One pass of the fold: every adjacent pair becomes its parent. */
  function Pass(sha: Hash, level: seq<Root>, half: nat): (parents: seq<Root>)
    requires |level| == 2 * half
    ensures |parents| == half
  {
    if half == 0 then []
    else Pass(sha, level[..2 * half - 2], half - 1) + [Node(sha, level[2 * half - 2], level[2 * half - 1])]
  }

  /** The roots of the aligned blocks of 2^k leaves, in order. */
  function BlockRoots(sha: Hash, leaves: seq<Root>, depth: nat, k: nat): (roots: seq<Root>)
    requires k <= depth && |leaves| == Pow2(depth)
    ensures |roots| == Pow2(depth - k)
    decreases depth
  {
    if depth == k then [TreeRoot(sha, leaves, k)]
    else
      var half := Pow2(depth - 1);
      BlockRoots(sha, leaves[..half], depth - 1, k) + BlockRoots(sha, leaves[half..], depth - 1, k)
  }

  lemma {:induction false} LeavesAreBlocks(sha: Hash, leaves: seq<Root>, depth: nat)
    requires |leaves| == Pow2(depth)
    ensures BlockRoots(sha, leaves, depth, 0) == leaves
  {
    if depth > 0 {
      var half := Pow2(depth - 1);
      LeavesAreBlocks(sha, leaves[..half], depth - 1);
      LeavesAreBlocks(sha, leaves[half..], depth - 1);
    }
  }

  lemma {:induction false} PassConcat(sha: Hash, a: seq<Root>, b: seq<Root>, m: nat, n: nat)
    requires |a| == 2 * m && |b| == 2 * n
    ensures Pass(sha, a + b, m + n) == Pass(sha, a, m) + Pass(sha, b, n)
    decreases n
  {
    if n == 0 {
      assert a + b == a;
    } else {
      var front := b[..2 * n - 2];
      assert (a + b)[..2 * (m + n) - 2] == a + front;
      PassConcat(sha, a, front, m, n - 1);
    }
  }

  /** A pass turns the roots of the blocks of 2^k leaves into those of the blocks
      of 2^(k+1) leaves. */
  lemma {:induction false} PassMergesBlocks(sha: Hash, leaves: seq<Root>, depth: nat, k: nat)
    requires k < depth && |leaves| == Pow2(depth)
    ensures Pass(sha, BlockRoots(sha, leaves, depth, k), Pow2(depth - k - 1)) == BlockRoots(sha, leaves, depth, k + 1)
    decreases depth
  {
    var half := Pow2(depth - 1);
    var left, right := leaves[..half], leaves[half..];
    if depth == k + 1 {
      assert BlockRoots(sha, leaves, depth, k) == [TreeRoot(sha, left, k), TreeRoot(sha, right, k)];
    } else {
      PassMergesBlocks(sha, left, depth - 1, k);
      PassMergesBlocks(sha, right, depth - 1, k);
      var quarter := Pow2(depth - 1 - k - 1);
      PassConcat(sha, BlockRoots(sha, left, depth - 1, k), BlockRoots(sha, right, depth - 1, k), quarter, quarter);
    }
  }

  lemma PassLowers(sha: Hash, leaves: seq<Root>, depth: nat, height: nat, below: seq<Root>)
    requires 0 < height <= depth && |leaves| == Pow2(depth)
    requires below == BlockRoots(sha, leaves, depth, depth - height)
    ensures |below| == 2 * Pow2(height - 1)
    ensures Pass(sha, below, Pow2(height - 1)) == BlockRoots(sha, leaves, depth, depth - (height - 1))
  {
    PassMergesBlocks(sha, leaves, depth, depth - height);
  }

  lemma PassSnoc(sha: Hash, level: seq<Root>, half: nat)
    requires 2 * half + 2 <= |level|
    ensures Pass(sha, level[..2 * half + 2], half + 1)
         == Pass(sha, level[..2 * half], half) + [Node(sha, level[2 * half], level[2 * half + 1])]
  {
    assert level[..2 * half + 2][..2 * half] == level[..2 * half];
  }

  /** One round of the inner loop. Cells still to be read are never overwritten,
      so every cell ends up holding the parent of its old pair. */
  method FoldPass(sha: Hash, level: array<Root>, width: nat, ghost half: nat)
    requires width == 2 * half <= level.Length
    modifies level
    ensures level[..half] == Pass(sha, old(level[..width]), half)
  {
    ghost var before := level[..width];
    var index := 0;
    ghost var cell := 0;
    while index < width
      invariant 0 <= cell <= half && index == 2 * cell
      invariant level[index..width] == before[index..]
      invariant level[..cell] == Pass(sha, before[..index], cell)
    {
      assert level[index] == before[index] && level[index + 1] == before[index + 1] by {
        assert level[index..width][0] == before[index..][0] && level[index..width][1] == before[index..][1];
      }
      PassSnoc(sha, before, cell);
      level[index / 2] := Node(sha, level[index], level[index + 1]);
      index := index + 2;
      cell := cell + 1;
    }
    assert before[..width] == before;
  }

  /** The width the chunks are padded to. */
  method LeastWidth(length: nat) returns (width: nat)
    ensures width == Pow2(Depth(length))
  {
    width := 1;
    ghost var depth := 0;
    while width < length
      invariant width == Pow2(depth)
      invariant depth > 0 ==> Pow2(depth - 1) < length
    {
      width := width * 2;
      depth := depth + 1;
    }
    DepthUnique(length, depth);
  }

  method PaddedLevel(chunks: seq<Root>) returns (level: array<Root>)
    ensures fresh(level) && level[..] == ZeroPad(chunks, Pow2(Depth(|chunks|)))
  {
    var width := LeastWidth(|chunks|);
    level := new Root[width](i => if 0 <= i < |chunks| then chunks[i] else ZERO_ROOT);
  }

  /** One turn of the outer loop: after pass k, cell i is the root of the i-th aligned
      block of 2^k leaves. */
  method FoldLevel(sha: Hash, level: array<Root>, width: nat,
                   ghost leaves: seq<Root>, ghost depth: nat, ghost height: nat)
    requires 0 < height <= depth && |leaves| == Pow2(depth)
    requires width == Pow2(height) <= level.Length
    requires level[..width] == BlockRoots(sha, leaves, depth, depth - height)
    modifies level
    ensures Pow2(height - 1) <= level.Length
    ensures level[..Pow2(height - 1)] == BlockRoots(sha, leaves, depth, depth - (height - 1))
  {
    PassLowers(sha, leaves, depth, height, level[..width]);
    FoldPass(sha, level, width, Pow2(height - 1));
  }

  /** The passes over an array that holds the padded leaves. */
  method FoldToRoot(sha: Hash, level: array<Root>, ghost depth: nat) returns (root: Root)
    requires level.Length == Pow2(depth)
    modifies level
    ensures root == TreeRoot(sha, old(level[..]), depth)
  {
    ghost var leaves := level[..];
    LeavesAreBlocks(sha, leaves, depth);
    var width := level.Length;
    ghost var height: nat := depth;
    while width > 1
      invariant height <= depth && width == Pow2(height) <= level.Length
      invariant level[..width] == BlockRoots(sha, leaves, depth, depth - height)
    {
      FoldLevel(sha, level, width, leaves, depth, height);
      width, height := width / 2, height - 1;
    }
    assert height == 0;
    root := level[0];
    assert level[..1] == [root];
  }

  method Merkleize(sha: Hash, chunks: seq<Root>) returns (root: Root)
    ensures root == MerkleRoot(sha, chunks)
  {
    var level := PaddedLevel(chunks);
    root := FoldToRoot(sha, level, Depth(|chunks|));
  }

  // ---- Composition and padding ----

  /** A power of two of chunks followed by at most as many more: the whole is the
      parent of the two halves, the second padded to the first one's depth. */
  lemma Composition(sha: Hash, a: seq<Root>, b: seq<Root>, k: nat)
    requires |a| == Pow2(k) && 0 < |b| <= Pow2(k)
    ensures MerkleRoot(sha, a + b) == Node(sha, MerkleRoot(sha, a), PaddedRoot(sha, b, k))
  {
    DepthUnique(|a + b|, k + 1);
    DepthUnique(|a|, k);
    var whole := ZeroPad(a + b, Pow2(k + 1));
    assert whole[..Pow2(k)] == ZeroPad(a, Pow2(k));
    assert whole[Pow2(k)..] == ZeroPad(b, Pow2(k));
  }

  /** Trailing zero chunks do not show in the root while the width stays the same,
      so roots bind chunk lists of one length only. */
  lemma PaddingIsInvisible(sha: Hash, chunks: seq<Root>)
    requires 0 < |chunks| < Pow2(Depth(|chunks|))
    ensures MerkleRoot(sha, chunks + [ZERO_ROOT]) == MerkleRoot(sha, chunks)
  {
    var depth := Depth(|chunks|);
    DepthUnique(|chunks| + 1, depth);
    assert ZeroPad(chunks + [ZERO_ROOT], Pow2(depth)) == ZeroPad(chunks, Pow2(depth));
  }

  // ---- Binding ----

  predicate IsCollision(sha: Hash, pair: (seq<byte>, seq<byte>)) {
    pair.0 != pair.1 && sha(pair.0) == sha(pair.1)
  }

  /** Where two trees first differ in their children but not in their root: the two
      hash inputs met on the way down to the first difference. */
  function TreeCollision(sha: Hash, a: seq<Root>, b: seq<Root>, depth: nat): (seq<byte>, seq<byte>)
    requires |a| == |b| == Pow2(depth)
  {
    if depth == 0 then ([], [])
    else
      var half := Pow2(depth - 1);
      var inputA := Input(TreeRoot(sha, a[..half], depth - 1), TreeRoot(sha, a[half..], depth - 1));
      var inputB := Input(TreeRoot(sha, b[..half], depth - 1), TreeRoot(sha, b[half..], depth - 1));
      if inputA != inputB then (inputA, inputB)
      else if a[..half] != b[..half] then TreeCollision(sha, a[..half], b[..half], depth - 1)
      else TreeCollision(sha, a[half..], b[half..], depth - 1)
  }

  lemma SplitInput(a: Root, b: Root, c: Root, d: Root)
    requires Input(a, b) == Input(c, d)
    ensures a == c && b == d
  {
    assert a == Input(a, b)[..ROOT_LENGTH] && c == Input(c, d)[..ROOT_LENGTH];
    assert b == Input(a, b)[ROOT_LENGTH..] && d == Input(c, d)[ROOT_LENGTH..];
  }

  lemma {:induction false} TreeBinding(sha: Hash, a: seq<Root>, b: seq<Root>, depth: nat)
    requires |a| == |b| == Pow2(depth)
    requires a != b && TreeRoot(sha, a, depth) == TreeRoot(sha, b, depth)
    ensures IsCollision(sha, TreeCollision(sha, a, b, depth))
  {
    if depth > 0 {
      var half := Pow2(depth - 1);
      var leftA, rightA := TreeRoot(sha, a[..half], depth - 1), TreeRoot(sha, a[half..], depth - 1);
      var leftB, rightB := TreeRoot(sha, b[..half], depth - 1), TreeRoot(sha, b[half..], depth - 1);
      if Input(leftA, rightA) == Input(leftB, rightB) {
        SplitInput(leftA, rightA, leftB, rightB);
        assert a == a[..half] + a[half..] && b == b[..half] + b[half..];
        if a[..half] != b[..half] {
          TreeBinding(sha, a[..half], b[..half], depth - 1);
        } else {
          TreeBinding(sha, a[half..], b[half..], depth - 1);
        }
      }
    }
  }

  function ChunksCollision(sha: Hash, a: seq<Root>, b: seq<Root>): (seq<byte>, seq<byte>)
    requires |a| == |b|
  {
    var depth := Depth(|a|);
    TreeCollision(sha, ZeroPad(a, Pow2(depth)), ZeroPad(b, Pow2(depth)), depth)
  }

  /** Chunk lists of one length with one root are equal, or exhibit a collision. */
  lemma ChunksBinding(sha: Hash, a: seq<Root>, b: seq<Root>)
    requires |a| == |b| && MerkleRoot(sha, a) == MerkleRoot(sha, b)
    ensures a == b || IsCollision(sha, ChunksCollision(sha, a, b))
  {
    var depth := Depth(|a|);
    var leavesA, leavesB := ZeroPad(a, Pow2(depth)), ZeroPad(b, Pow2(depth));
    if a != b {
      assert a == leavesA[..|a|] && b == leavesB[..|b|];
      TreeBinding(sha, leavesA, leavesB, depth);
    }
  }
}
