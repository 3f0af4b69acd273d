/** The Merkle root of src/normalize/merkle.cc. */
module Merkle {
  import opened Words
  import Cpu = CpuVerify

  type Node = s: seq<byte> | |s| == 32 witness Zeros(32)

  /** The 64 bytes hashed for two nodes. */
  function Pair(a: Node, b: Node): (x: seq<byte>)
    ensures |x| == 64 && x[..32] == a && x[32..] == b
  {
    a + b
  }

  /** SHA-256 twice. */
  function Parent(a: Node, b: Node): Node {
    Cpu.Digest(Cpu.Digest(Pair(a, b)))
  }

  lemma ParentIs(a: Node, b: Node)
    ensures var left: seq<byte>, right: seq<byte> := a, b; Parent(a, b) == Cpu.Digest(Cpu.Digest(left + right))
  {
    hide Cpu.Digest;
  }

  /** One pass of the loop: pairs are hashed and an odd last node is hashed with itself. */
  function NextLevel(level: seq<Node>): (next: seq<Node>)
    ensures |next| == (|level| + 1) / 2
  {
    if |level| == 0 then []
    else if |level| == 1 then [Parent(level[0], level[0])]
    else
      assert |level[2..]| == |level| - 2;
      [Parent(level[0], level[1])] + NextLevel(level[2..])
  }

  function Root(level: seq<Node>): Node
    requires |level| > 0
    decreases |level|
  {
    if |level| == 1 then level[0] else Root(NextLevel(level))
  }

  lemma {:induction false} NextLevelAt(level: seq<Node>, i: nat)
    requires i < (|level| + 1) / 2
    ensures
      var left: seq<byte> := level[2*i];
      var right: seq<byte> := if 2 * i + 1 < |level| then level[2*i+1] else left;
      NextLevel(level)[i] == Cpu.Digest(Cpu.Digest(left + right))
    decreases |level|
  {
    hide Cpu.Digest;
    if i > 0 {
      NextLevelAt(level[2..], i - 1);
    }
  }

  /** One transaction is its own root, and two are hashed together. */
  lemma SmallRoots(a: Node, b: Node)
    ensures Root([a]) == a && Root([a, b]) == Cpu.Digest(Cpu.Digest(a + b))
  {
    hide Cpu.Digest;
    NextLevelAt([a, b], 0);
    assert |NextLevel([a, b])| == 1;
    assert Root([a, b]) == Root(NextLevel([a, b]));
  }

  /** compute_merkle_root_be. */
  method ComputeMerkleRootBe(txids: seq<Node>, out32: array<byte>)
    requires out32.Length == 32
    modifies out32
    ensures out32[..] == if |txids| == 0 then Zeros(32) else Root(txids)
  {
    hide Cpu.Digest, NextLevel;
    if |txids| == 0 {
      for i := 0 to 32
        invariant out32[..i] == Zeros(i)
      {
        out32[i] := 0;
      }
      assert out32[..32] == out32[..];
      return;
    }
    var level := txids;
    while |level| > 1
      modifies {}
      invariant |level| > 0 && Root(level) == Root(txids)
      decreases |level|
    {
      var next: seq<Node> := [];
      var i := 0;
      while i < |level|
        modifies {}
        invariant i == 2 * |next| && |next| <= (|level| + 1) / 2
        invariant next == NextLevel(level)[..|next|]
      {
        var a, b := level[i], if i + 1 < |level| then level[i+1] else level[i];
        var h := new byte[32];
        Cpu.Sha256d(Pair(a, b), h);
        NextLevelAt(level, |next|);
        next := next + [h[..]];
        i := i + 2;
      }
      assert next == NextLevel(level);
      level := next;
    }
    for i := 0 to 32
      invariant out32[..i] == level[0][..i]
    {
      out32[i] := level[0][i];
    }
    assert out32[..32] == out32[..] && level[0][..32] == level[0];
  }

  // ---- Binding ----

  predicate IsCollision(x: seq<byte>, y: seq<byte>) {
    |x| == 64 && |y| == 64 && x != y && Cpu.Digest(Cpu.Digest(x)) == Cpu.Digest(Cpu.Digest(y))
  }

  /** Looks through two levels of one length for the first pair of different concatenations with one hash. */
  function LevelCollision(a: seq<Node>, b: seq<Node>): (seq<byte>, seq<byte>)
    requires |a| == |b|
  {
    if |a| == 0 then ([], [])
    else
      var x := Pair(a[0], if |a| == 1 then a[0] else a[1]);
      var y := Pair(b[0], if |b| == 1 then b[0] else b[1]);
      if IsCollision(x, y) then (x, y)
      else if |a| == 1 then ([], [])
      else LevelCollision(a[2..], b[2..])
  }

  /** Recomputes both trees level by level and returns the first colliding pair it meets. */
  function FindCollision(a: seq<Node>, b: seq<Node>): (seq<byte>, seq<byte>)
    requires |a| == |b| > 0
    decreases |a|
  {
    var pair := LevelCollision(a, b);
    if |a| == 1 || IsCollision(pair.0, pair.1) then pair else FindCollision(NextLevel(a), NextLevel(b))
  }

  lemma {:induction false} LevelBinding(a: seq<Node>, b: seq<Node>)
    requires |a| == |b|
    ensures NextLevel(a) == NextLevel(b) ==>
      a == b || (var pair := LevelCollision(a, b); IsCollision(pair.0, pair.1))
    decreases |a|
  {
    hide Cpu.Digest, Pair;
    if |a| > 0 && NextLevel(a) == NextLevel(b) {
      var x := Pair(a[0], if |a| == 1 then a[0] else a[1]);
      var y := Pair(b[0], if |b| == 1 then b[0] else b[1]);
      assert NextLevel(a)[0] == Cpu.Digest(Cpu.Digest(x)) && NextLevel(b)[0] == Cpu.Digest(Cpu.Digest(y));
      if x == y {
        assert a[0] == x[..32] && b[0] == y[..32];
        if |a| > 1 {
          assert a[1] == x[32..] && b[1] == y[32..];
          assert NextLevel(a)[1..] == NextLevel(a[2..]) && NextLevel(b)[1..] == NextLevel(b[2..]);
          LevelBinding(a[2..], b[2..]);
          assert a == [a[0], a[1]] + a[2..] && b == [b[0], b[1]] + b[2..];
        }
      }
    }
  }

  /** The root binds the list: two lists of one length with one root are equal, or a collision is in hand. */
  lemma {:induction false} RootBinding(a: seq<Node>, b: seq<Node>)
    requires |a| == |b| > 0
    ensures Root(a) == Root(b) ==> a == b || (var pair := FindCollision(a, b); IsCollision(pair.0, pair.1))
    decreases |a|
  {
    hide Cpu.Digest, IsCollision, LevelCollision, NextLevel;
    if |a| > 1 {
      RootBinding(NextLevel(a), NextLevel(b));
      if NextLevel(a) == NextLevel(b) {
        LevelBinding(a, b);
      }
    }
  }

  // ---- The tree the loop builds ----

  /** The root of a perfect binary tree with 2^k leaves. */
  function PerfectRoot(leaves: seq<Node>, k: nat): Node
    requires |leaves| == Pow2(k)
    decreases k
  {
    if k == 0 then leaves[0]
    else
      var half := Pow2(k - 1);
      Parent(PerfectRoot(leaves[..half], k - 1), PerfectRoot(leaves[half..], k - 1))
  }

  ghost predicate BlocksOf(blocks: seq<seq<Node>>, k: nat) {
    forall i :: 0 <= i < |blocks| ==> |blocks[i]| == Pow2(k)
  }

  /** Joins blocks two by two; at an odd level the last block is repeated. */
  function JoinBlocks(blocks: seq<seq<Node>>): (joined: seq<seq<Node>>)
    ensures |joined| == (|blocks| + 1) / 2
  {
    if |blocks| == 0 then []
    else if |blocks| == 1 then [blocks[0] + blocks[0]]
    else
      assert |blocks[2..]| == |blocks| - 2;
      [blocks[0] + blocks[1]] + JoinBlocks(blocks[2..])
  }

  /** The leaves with the last 2^k-leaf block repeated at every odd level, starting from blocks of one leaf. */
  function PadLeaves(blocks: seq<seq<Node>>): seq<Node>
    requires |blocks| > 0
    decreases |blocks|
  {
    if |blocks| == 1 then blocks[0] else PadLeaves(JoinBlocks(blocks))
  }

  function Singletons(leaves: seq<Node>): (blocks: seq<seq<Node>>)
    ensures |blocks| == |leaves|
  {
    seq(|leaves|, i requires 0 <= i < |leaves| => [leaves[i]])
  }

  /** The number of levels above a level of m nodes. */
  function Height(m: nat): nat {
    if m <= 1 then 0 else 1 + Height((m + 1) / 2)
  }

  function Roots(blocks: seq<seq<Node>>, k: nat): (level: seq<Node>)
    requires BlocksOf(blocks, k)
    ensures |level| == |blocks|
  {
    seq(|blocks|, i requires 0 <= i < |blocks| => PerfectRoot(blocks[i], k))
  }

  lemma {:induction false} JoinBlocksAt(blocks: seq<seq<Node>>, i: nat)
    requires i < (|blocks| + 1) / 2
    ensures JoinBlocks(blocks)[i] == blocks[2*i] + (if 2 * i + 1 < |blocks| then blocks[2*i+1] else blocks[2*i])
    decreases |blocks|
  {
    if i > 0 {
      JoinBlocksAt(blocks[2..], i - 1);
    }
  }

  /** One pass of the loop over the roots of blocks gives the roots of the joined blocks. */
  lemma JoinRoots(blocks: seq<seq<Node>>, k: nat)
    requires BlocksOf(blocks, k)
    ensures BlocksOf(JoinBlocks(blocks), k + 1)
    ensures NextLevel(Roots(blocks, k)) == Roots(JoinBlocks(blocks), k + 1)
  {
    hide Parent, NextLevel, JoinBlocks, Cpu.Digest;
    var joined, level := JoinBlocks(blocks), Roots(blocks, k);
    forall i | 0 <= i < |joined|
      ensures |joined[i]| == Pow2(k + 1) && NextLevel(level)[i] == PerfectRoot(joined[i], k + 1)
    {
      JoinBlocksAt(blocks, i);
      NextLevelAt(level, i);
      var left := blocks[2*i];
      var right := if 2 * i + 1 < |blocks| then blocks[2*i+1] else blocks[2*i];
      assert (left + right)[..Pow2(k)] == left && (left + right)[Pow2(k)..] == right;
      ParentIs(level[2*i], if 2 * i + 1 < |level| then level[2*i+1] else level[2*i]);
    }
  }

  lemma {:induction false} RootOfBlocks(blocks: seq<seq<Node>>, k: nat)
    requires |blocks| > 0 && BlocksOf(blocks, k)
    ensures |PadLeaves(blocks)| == Pow2(k + Height(|blocks|))
    ensures Root(Roots(blocks, k)) == PerfectRoot(PadLeaves(blocks), k + Height(|blocks|))
    decreases |blocks|
  {
    hide NextLevel, JoinBlocks, PerfectRoot;
    if |blocks| > 1 {
      JoinRoots(blocks, k);
      RootOfBlocks(JoinBlocks(blocks), k + 1);
      assert k + Height(|blocks|) == k + 1 + Height(|JoinBlocks(blocks)|);
    }
  }

  /** The root is the root of a perfect binary tree over the padded leaves, of which the transactions are the first. */
  lemma RootIsPerfect(leaves: seq<Node>)
    requires |leaves| > 0
    ensures |PadLeaves(Singletons(leaves))| == Pow2(Height(|leaves|))
    ensures leaves <= PadLeaves(Singletons(leaves))
    ensures Root(leaves) == PerfectRoot(PadLeaves(Singletons(leaves)), Height(|leaves|))
  {
    hide NextLevel, JoinBlocks, Root, PadLeaves, Parent;
    var blocks := Singletons(leaves);
    assert BlocksOf(blocks, 0) && Roots(blocks, 0) == leaves;
    hide PerfectRoot;
    RootOfBlocks(blocks, 0);
    FlattenSingletons(leaves);
    PadKeepsLeaves(blocks);
  }

  function Flatten(blocks: seq<seq<Node>>): seq<Node> {
    if |blocks| == 0 then [] else blocks[0] + Flatten(blocks[1..])
  }

  lemma {:induction false} FlattenSingletons(leaves: seq<Node>)
    ensures Flatten(Singletons(leaves)) == leaves
  {
    if |leaves| > 0 {
      assert Singletons(leaves)[1..] == Singletons(leaves[1..]);
      FlattenSingletons(leaves[1..]);
    }
  }

  lemma {:induction false} JoinKeepsLeaves(blocks: seq<seq<Node>>)
    ensures Flatten(blocks) <= Flatten(JoinBlocks(blocks))
  {
    if |blocks| == 1 {
      assert Flatten(blocks) == blocks[0] + Flatten([]);
      assert Flatten(JoinBlocks(blocks)) == (blocks[0] + blocks[0]) + Flatten([]);
    } else if |blocks| > 1 {
      JoinKeepsLeaves(blocks[2..]);
      assert blocks[1..][1..] == blocks[2..];
      assert Flatten(blocks) == blocks[0] + blocks[1] + Flatten(blocks[2..]);
      assert JoinBlocks(blocks)[1..] == JoinBlocks(blocks[2..]);
    }
  }

  lemma {:induction false} PadKeepsLeaves(blocks: seq<seq<Node>>)
    requires |blocks| > 0
    ensures Flatten(blocks) <= PadLeaves(blocks)
    decreases |blocks|
  {
    hide JoinBlocks;
    if |blocks| == 1 {
      assert Flatten(blocks) == blocks[0] + Flatten(blocks[1..]) && Flatten(blocks[1..]) == [];
    } else {
      JoinKeepsLeaves(blocks);
      PadKeepsLeaves(JoinBlocks(blocks));
    }
  }

  // ---- Lists the root does not tell apart ----

  /** n is an odd multiple of 2^k, and not 2^k itself. */
  predicate OddBlocks(n: nat, k: nat) {
    if k == 0 then n % 2 == 1 && n > 1 else n % 2 == 0 && OddBlocks(n / 2, k - 1)
  }

  lemma {:induction false} OddBlocksSize(n: nat, k: nat)
    requires OddBlocks(n, k)
    ensures Pow2(k) < n
  {
    if k > 0 {
      OddBlocksSize(n / 2, k - 1);
    }
  }

  lemma {:induction false} NextLevelConcat(a: seq<Node>, b: seq<Node>)
    requires |a| % 2 == 0
    ensures NextLevel(a + b) == NextLevel(a) + NextLevel(b)
    decreases |a|
  {
    hide Parent;
    if |a| == 0 {
      assert a + b == b;
    } else {
      assert (a + b)[2..] == a[2..] + b;
      NextLevelConcat(a[2..], b);
    }
  }

  lemma LastNode(x: Node)
    ensures NextLevel([x, x]) == NextLevel([x])
  {
    hide Parent;
    assert [x, x][2..] == [];
  }

  /** Doubling the last node of an odd level leaves the next level as it is. */
  lemma OddLevel(front: seq<Node>, x: Node)
    requires |front| % 2 == 0
    ensures NextLevel(front + [x, x]) == NextLevel(front + [x])
  {
    hide NextLevel;
    LastNode(x);
    NextLevelConcat(front, [x]);
    NextLevelConcat(front, [x, x]);
  }

  /** Repeating the even last part of an even level repeats the part made from it in the next level. */
  lemma EvenLevel(front: seq<Node>, last: seq<Node>, q: nat)
    requires |front| == 2 * q && |last| % 2 == 0
    ensures q <= |NextLevel(front + last)|
    ensures NextLevel(front + last + last) == NextLevel(front + last) + NextLevel(front + last)[q..]
  {
    hide NextLevel;
    NextLevelConcat(front, last);
    assert |front + last| % 2 == 0;
    NextLevelConcat(front + last, last);
    assert NextLevel(front + last)[q..] == NextLevel(last);
  }

  /** A list of 2^k * m transactions, m odd and above 1, has the root of the same list with its last 2^k repeated. */
  lemma {:induction false} RepeatedBlock(leaves: seq<Node>, k: nat)
    requires OddBlocks(|leaves|, k) && Pow2(k) <= |leaves|
    ensures Root(leaves + leaves[|leaves| - Pow2(k)..]) == Root(leaves)
    decreases k
  {
    hide NextLevel;
    if k == 0 {
      var front, x := leaves[..|leaves|-1], leaves[|leaves|-1];
      assert leaves == front + [x] && leaves + leaves[|leaves|-1..] == front + [x, x];
      OddLevel(front, x);
    } else {
      var m, p := |leaves| / 2, Pow2(k - 1);
      OddBlocksSize(m, k - 1);
      assert |leaves| == 2 * m && Pow2(k) == 2 * p && OddBlocks(m, k - 1);
      hide Pow2, OddBlocks;
      var front, last := leaves[..2*(m-p)], leaves[2*(m-p)..];
      assert front + last == leaves;
      EvenLevel(front, last, m - p);
      RepeatedBlock(NextLevel(leaves), k - 1);
    }
  }

  /** In particular an odd list above one has the root of the list with its last transaction doubled. */
  lemma RepeatedLast(leaves: seq<Node>)
    requires |leaves| % 2 == 1 && |leaves| > 1
    ensures Root(leaves + [leaves[|leaves|-1]]) == Root(leaves)
  {
    hide NextLevel;
    RepeatedBlock(leaves, 0);
    assert leaves[|leaves| - 1..] == [leaves[|leaves|-1]];
  }

  // ---- Exactly which lists share a root ----

  /** The leaves of the perfect tree over a list. */
  function Padded(leaves: seq<Node>): seq<Node>
    requires |leaves| > 0
  {
    PadLeaves(Singletons(leaves))
  }

  lemma {:induction false} HeightOfPower(k: nat)
    ensures Height(Pow2(k)) == k
  {
    if k > 0 {
      HeightOfPower(k - 1);
    }
  }

  /** The padded leaves are a perfect list already, and have the root of the list. */
  lemma PaddedRoot(leaves: seq<Node>)
    requires |leaves| > 0
    ensures |Padded(leaves)| == Pow2(Height(|leaves|)) > 0
    ensures Root(Padded(leaves)) == Root(leaves)
  {
    hide Root, PadLeaves, PerfectRoot, Height, Pow2;
    RootIsPerfect(leaves);
    var p := Padded(leaves);
    RootIsPerfect(p);
    HeightOfPower(Height(|leaves|));
    assert Padded(p) == p;
  }

  /** Lists of one height share a root exactly when they pad to the same leaves, or a collision is in hand. */
  lemma SameHeightBinding(a: seq<Node>, b: seq<Node>)
    requires |a| > 0 && |b| > 0 && Height(|a|) == Height(|b|)
    ensures Padded(a) == Padded(b) ==> Root(a) == Root(b)
    ensures |Padded(a)| == |Padded(b)| > 0
    ensures Root(a) == Root(b) ==>
      Padded(a) == Padded(b) || (var pair := FindCollision(Padded(a), Padded(b)); IsCollision(pair.0, pair.1))
  {
    hide Root, Padded, FindCollision, IsCollision, Height;
    PaddedRoot(a);
    PaddedRoot(b);
    RootBinding(Padded(a), Padded(b));
  }

  /** The first level of the tree over a list that is no higher than h. */
  function LevelAt(leaves: seq<Node>, h: nat): (level: seq<Node>)
    requires |leaves| > 0
    ensures |level| > 0
    decreases |leaves|
  {
    if Height(|leaves|) <= h then leaves else LevelAt(NextLevel(leaves), h)
  }

  /** It has the height asked for, or is the list itself, and the root of the list. */
  lemma {:induction false} LevelAtIs(leaves: seq<Node>, h: nat)
    requires |leaves| > 0
    ensures Height(|LevelAt(leaves, h)|) == if Height(|leaves|) <= h then Height(|leaves|) else h
    ensures Root(LevelAt(leaves, h)) == Root(leaves)
    decreases |leaves|
  {
    hide NextLevel;
    if Height(|leaves|) > h {
      LevelAtIs(NextLevel(leaves), h);
    }
  }

  /** Both lists cut down to the height of the lower one, and padded. */
  function Common(a: seq<Node>, b: seq<Node>): seq<Node>
    requires |a| > 0 && |b| > 0
  {
    Padded(LevelAt(a, Height(|b|)))
  }

  /**
   * The root determines exactly this much: any two lists share a root if and only if the taller one's level at the
   * height of the other pads to the same nodes as the other, unless a collision is in hand.
   */
  lemma RootExact(a: seq<Node>, b: seq<Node>)
    requires |a| > 0 && |b| > 0
    ensures Common(a, b) == Common(b, a) ==> Root(a) == Root(b)
    ensures |Common(a, b)| == |Common(b, a)| > 0
    ensures Root(a) == Root(b) ==>
      || Common(a, b) == Common(b, a)
      || (var pair := FindCollision(Common(a, b), Common(b, a)); IsCollision(pair.0, pair.1))
  {
    hide Root, Padded, LevelAt, FindCollision, IsCollision, Height;
    LevelAtIs(a, Height(|b|));
    LevelAtIs(b, Height(|a|));
    SameHeightBinding(LevelAt(a, Height(|b|)), LevelAt(b, Height(|a|)));
  }

  /** The level i steps above a list. */
  function Above(leaves: seq<Node>, i: nat): seq<Node>
    decreases i
  {
    if i == 0 then leaves else NextLevel(Above(leaves, i - 1))
  }

  /** Every level of the tree over a list has the root of the list, and each one above the first is shorter. */
  lemma {:induction false} LevelsShareRoot(leaves: seq<Node>, i: nat)
    requires |leaves| > 0 && i <= Height(|leaves|)
    ensures |Above(leaves, i)| > 0 && Root(Above(leaves, i)) == Root(leaves)
    ensures Height(|Above(leaves, i)|) == Height(|leaves|) - i
    ensures i > 0 ==> |Above(leaves, i)| < |Above(leaves, i - 1)| <= |leaves|
    decreases i
  {
    hide NextLevel;
    if i > 0 {
      LevelsShareRoot(leaves, i - 1);
    }
  }
}
