/** What Merkle proofs and roots promise: the tree that the layers of
    src/mvpc/hardening/crypto_integrity.py stand for, completeness, soundness and binding. */
module MerkleProofs {
  import opened Hashing
  import opened Merkle

  // ----- The tree the layers stand for

  datatype Tree = Empty | Leaf(data: string) | Node(left: Tree, right: Tree)

  function Message(sha: string -> string, t: Tree): string
    decreases t, 0
  {
    match t
    case Empty => "empty"
    case Leaf(data) => "leaf:" + data
    case Node(l, r) => "node:" + Digest(sha, l) + ":" + Digest(sha, r)
  }

  function Digest(sha: string -> string, t: Tree): string
    decreases t, 1
  {
    sha(Message(sha, t))
  }

  function PairAt(ts: seq<Tree>, j: nat): Tree
    requires 2 * j < |ts|
  {
    Node(ts[2 * j], if 2 * j + 1 < |ts| then ts[2 * j + 1] else ts[2 * j])
  }

  function PairUp(ts: seq<Tree>): (up: seq<Tree>)
    ensures |up| == (|ts| + 1) / 2
    ensures forall j :: 0 <= j < |up| ==> up[j] == PairAt(ts, j)
  {
    seq((|ts| + 1) / 2, j requires 0 <= j < (|ts| + 1) / 2 => PairAt(ts, j))
  }

  function Combine(ts: seq<Tree>): Tree
    requires ts != []
    decreases |ts|
  {
    if |ts| == 1 then ts[0] else Combine(PairUp(ts))
  }

  function LeafTrees(data: seq<string>): (ts: seq<Tree>)
    ensures |ts| == |data|
    ensures forall i :: 0 <= i < |data| ==> ts[i] == Leaf(data[i])
  {
    seq(|data|, i requires 0 <= i < |data| => Leaf(data[i]))
  }

  function TreeOf(data: seq<string>): Tree {
    if data == [] then Empty else Combine(LeafTrees(data))
  }

  function Digests(sha: string -> string, ts: seq<Tree>): (r: seq<string>)
    ensures |r| == |ts|
    ensures forall i :: 0 <= i < |ts| ==> r[i] == Digest(sha, ts[i])
  {
    seq(|ts|, i requires 0 <= i < |ts| => Digest(sha, ts[i]))
  }

  /** The leaves of a tree in order. */
  function Flatten(t: Tree): seq<string> {
    match t
    case Empty => []
    case Leaf(data) => [data]
    case Node(l, r) => Flatten(l) + Flatten(r)
  }

  /** The leaf list with the repetitions the builder adds written out. */
  function Padded(data: seq<string>): seq<string> {
    Flatten(TreeOf(data))
  }

  ghost predicate Perfect(t: Tree, k: nat) {
    if k == 0 then t.Leaf? else t.Node? && Perfect(t.left, k - 1) && Perfect(t.right, k - 1)
  }

  function Depth(n: nat): nat {
    if n <= 1 then 0 else 1 + Depth((n + 1) / 2)
  }

  function Pow2(k: nat): (r: nat)
    ensures r > 0
  {
    if k == 0 then 1 else 2 * Pow2(k - 1)
  }

  // ----- Layers compute digests of trees

  lemma LayerUpIsPairUp(sha: string -> string, ts: seq<Tree>)
    ensures LayerUp(sha, Digests(sha, ts)) == Digests(sha, PairUp(ts))
  {
    var a, b := LayerUp(sha, Digests(sha, ts)), Digests(sha, PairUp(ts));
    forall j | 0 <= j < |a|
      ensures a[j] == b[j]
    {
      var l, r := ts[2 * j], if 2 * j + 1 < |ts| then ts[2 * j + 1] else ts[2 * j];
      assert b[j] == Digest(sha, PairAt(ts, j)) == sha(Message(sha, Node(l, r)));
      assert a[j] == sha(NodeMessage(Digest(sha, l), Digest(sha, r)));
    }
  }

  lemma {:induction false} TopIsDigest(sha: string -> string, ts: seq<Tree>)
    requires ts != []
    ensures Top(sha, Digests(sha, ts)) == Digest(sha, Combine(ts))
    decreases |ts|
  {
    if |ts| > 1 {
      LayerUpIsPairUp(sha, ts);
      TopIsDigest(sha, PairUp(ts));
    }
  }

  lemma RootIsDigest(sha: string -> string, data: seq<string>)
    ensures Root(sha, data) == Digest(sha, TreeOf(data))
  {
    if data != [] {
      forall i | 0 <= i < |data|
        ensures LeafDigests(sha, data)[i] == Digests(sha, LeafTrees(data))[i]
      {
        assert Digest(sha, Leaf(data[i])) == sha(LeafMessage(data[i]));
      }
      assert LeafDigests(sha, data) == Digests(sha, LeafTrees(data));
      TopIsDigest(sha, LeafTrees(data));
    }
  }

  // ----- Completeness

  lemma {:induction false} FoldFront(sha: string -> string, h: string, step: Step, rest: seq<Step>)
    ensures Fold(sha, h, [step] + rest) == Fold(sha, sha(ClimbMessage(h, step)), rest)
  {
    var path := [step] + rest;
    if rest == [] {
      assert path[..0] == [];
    } else {
      assert path[..|path| - 1] == [step] + rest[..|rest| - 1];
      FoldFront(sha, h, step, rest[..|rest| - 1]);
    }
  }

  lemma StepClimbs(sha: string -> string, layer: seq<string>, idx: nat)
    requires idx < |layer|
    ensures LayerUp(sha, layer)[idx / 2] == sha(ClimbMessage(layer[idx], StepAt(layer, idx)))
  {
    assert LayerUp(sha, layer)[idx / 2] == NodeAt(sha, layer, idx / 2);
    assert idx == 2 * (idx / 2) || idx == 2 * (idx / 2) + 1;
  }

  lemma {:induction false} PathClimbsToTop(sha: string -> string, layer: seq<string>, idx: nat)
    requires idx < |layer|
    ensures Fold(sha, layer[idx], ProofPath(sha, layer, idx)) == Top(sha, layer)
    decreases |layer|
  {
    if |layer| > 1 {
      var up := LayerUp(sha, layer);
      StepClimbs(sha, layer, idx);
      PathClimbsToTop(sha, up, idx / 2);
      FoldFront(sha, layer[idx], StepAt(layer, idx), ProofPath(sha, up, idx / 2));
    }
  }

  /** Every leaf's own proof is accepted against the root. */
  lemma {:induction false} ProofComplete(sha: string -> string, data: seq<string>, idx: nat)
    requires idx < |data|
    ensures Fold(sha, sha(LeafMessage(data[idx])), ProofPath(sha, LeafDigests(sha, data), idx)) == Root(sha, data)
  {
    PathClimbsToTop(sha, LeafDigests(sha, data), idx);
  }

  function IndexOf(path: seq<Step>): nat {
    if path == [] then 0 else (if path[0].side == "R" then 0 else 1) + 2 * IndexOf(path[1..])
  }

  /** A proof has one step per halving, and its sides are the binary digits of the index. */
  lemma {:induction false} ProofShape(sha: string -> string, layer: seq<string>, idx: nat)
    requires idx < |layer|
    ensures |ProofPath(sha, layer, idx)| == Depth(|layer|)
    ensures |Layers(sha, layer)| == Depth(|layer|) + 1
    ensures IndexOf(ProofPath(sha, layer, idx)) == idx
    ensures forall i :: 0 <= i < |ProofPath(sha, layer, idx)| ==> ProofPath(sha, layer, idx)[i].side in {"L", "R"}
    decreases |layer|
  {
    if |layer| > 1 {
      var up := LayerUp(sha, layer);
      ProofShape(sha, up, idx / 2);
      assert ProofPath(sha, layer, idx)[1..] == ProofPath(sha, up, idx / 2);
    }
  }

  /** `Depth(n)` is the least k with n <= 2^k. */
  lemma {:induction false} DepthIsLeast(n: nat)
    ensures n <= Pow2(Depth(n))
    ensures forall k: nat :: n <= Pow2(k) ==> Depth(n) <= k
  {
    if n > 1 {
      DepthIsLeast((n + 1) / 2);
      forall k: nat | n <= Pow2(k)
        ensures Depth(n) <= k
      {
        assert k > 0;
        assert (n + 1) / 2 <= Pow2(k - 1);
      }
    }
  }

  // ----- Shape of the tree

  lemma {:induction false} CombinePerfect(ts: seq<Tree>, k: nat)
    requires ts != []
    requires forall i :: 0 <= i < |ts| ==> Perfect(ts[i], k)
    ensures Perfect(Combine(ts), k + Depth(|ts|))
    decreases |ts|
  {
    if |ts| > 1 {
      CombinePerfect(PairUp(ts), k + 1);
    }
  }

  lemma TreeOfPerfect(data: seq<string>)
    requires data != []
    ensures Perfect(TreeOf(data), Depth(|data|))
  {
    CombinePerfect(LeafTrees(data), 0);
  }

  lemma {:induction false} PerfectLength(t: Tree, k: nat)
    requires Perfect(t, k)
    ensures |Flatten(t)| == Pow2(k)
  {
    if k > 0 {
      PerfectLength(t.left, k - 1);
      PerfectLength(t.right, k - 1);
    }
  }

  function FlattenAll(ts: seq<Tree>): seq<string> {
    if ts == [] then [] else Flatten(ts[0]) + FlattenAll(ts[1..])
  }

  ghost predicate Extends(short: seq<string>, long: seq<string>) {
    short <= long && forall x :: x in long ==> x in short
  }

  lemma {:induction false} PairUpExtends(ts: seq<Tree>)
    ensures Extends(FlattenAll(ts), FlattenAll(PairUp(ts)))
  {
    if |ts| == 1 {
      assert PairUp(ts) == [PairAt(ts, 0)] && PairUp(ts)[1..] == [];
      assert FlattenAll(PairUp(ts)) == Flatten(ts[0]) + Flatten(ts[0]);
      assert FlattenAll(ts) == Flatten(ts[0]);
    } else if |ts| >= 2 {
      PairUpExtends(ts[2..]);
      var two, up := Flatten(ts[0]) + Flatten(ts[1]), PairUp(ts[2..]);
      assert ts[1..][1..] == ts[2..] && PairUp(ts)[1..] == up;
      assert FlattenAll(ts) == two + FlattenAll(ts[2..]);
      assert FlattenAll(PairUp(ts)) == two + FlattenAll(up);
    }
  }

  lemma {:induction false} CombineExtends(ts: seq<Tree>)
    requires ts != []
    ensures Extends(FlattenAll(ts), Flatten(Combine(ts)))
    decreases |ts|
  {
    if |ts| == 1 {
      assert FlattenAll(ts) == Flatten(ts[0]) + [];
    } else {
      PairUpExtends(ts);
      CombineExtends(PairUp(ts));
    }
  }

  lemma {:induction false} FlattenLeaves(data: seq<string>)
    ensures FlattenAll(LeafTrees(data)) == data
  {
    if data != [] {
      assert LeafTrees(data)[1..] == LeafTrees(data[1..]);
      FlattenLeaves(data[1..]);
    }
  }

  /** Padding keeps the given leaves as a prefix, adds no new leaf and fills 2^Depth places. */
  lemma PaddedExtends(data: seq<string>)
    ensures data <= Padded(data)
    ensures forall x :: x in Padded(data) ==> x in data
    ensures data != [] ==> |Padded(data)| == Pow2(Depth(|data|))
  {
    if data != [] {
      FlattenLeaves(data);
      CombineExtends(LeafTrees(data));
      TreeOfPerfect(data);
      PerfectLength(TreeOf(data), Depth(|data|));
    }
  }

  // ----- Soundness

  /** `path` leads from the root of `t` down to a leaf holding `data`, with the true siblings. */
  ghost predicate Opens(sha: string -> string, t: Tree, data: string, path: seq<Step>) {
    if path == [] then t == Leaf(data)
    else
      var last, below := path[|path| - 1], path[..|path| - 1];
      t.Node? &&
      if last.side == "R"
      then last.sibling == Digest(sha, t.right) && Opens(sha, t.left, data, below)
      else last.sibling == Digest(sha, t.left) && Opens(sha, t.right, data, below)
  }

  lemma {:induction false} OpeningAccepted(sha: string -> string, t: Tree, data: string, path: seq<Step>)
    requires Opens(sha, t, data, path)
    ensures Fold(sha, sha(LeafMessage(data)), path) == Digest(sha, t)
  {
    if path != [] {
      var last, below := path[|path| - 1], path[..|path| - 1];
      OpeningAccepted(sha, if last.side == "R" then t.left else t.right, data, below);
    }
  }

  /** The text whose digest is the last value a verifier computes. */
  function LastMessage(sha: string -> string, data: string, path: seq<Step>): string {
    if path == [] then LeafMessage(data)
    else ClimbMessage(Fold(sha, sha(LeafMessage(data)), path[..|path| - 1]), path[|path| - 1])
  }

  /** The two texts that collide when a proof that opens nothing is accepted: the first pair of
      different messages met from the root down. */
  function ProofCollision(sha: string -> string, t: Tree, data: string, path: seq<Step>): (string, string)
    decreases |path|
  {
    var here := (LastMessage(sha, data, path), Message(sha, t));
    if here.0 != here.1 || path == [] || !t.Node? then here
    else ProofCollision(sha, if path[|path| - 1].side == "R" then t.left else t.right, data, path[..|path| - 1])
  }

  lemma NodeMessageInjective(l: string, r: string, l': string, r': string)
    requires NodeMessage(l, r) == NodeMessage(l', r')
    requires |l| == |l'| || |r| == |r'|
    ensures l == l' && r == r'
  {
    assert |NodeMessage(l, r)| == 6 + |l| + |r| && |NodeMessage(l', r')| == 6 + |l'| + |r'|;
    assert l == NodeMessage(l, r)[5..5 + |l|] && l' == NodeMessage(l', r')[5..5 + |l'|];
    assert r == NodeMessage(l, r)[6 + |l|..] && r' == NodeMessage(l', r')[6 + |l'|..];
  }

  lemma MessageKindsDiffer(x: string, l: string, r: string)
    ensures LeafMessage(x) != NodeMessage(l, r)
    ensures LeafMessage(x) != EMPTY_MESSAGE
    ensures NodeMessage(l, r) != EMPTY_MESSAGE
  {
    assert LeafMessage(x)[0] == 'l' && NodeMessage(l, r)[0] == 'n' && EMPTY_MESSAGE[0] == 'e';
  }

  lemma LeafMessageInjective(x: string, y: string)
    requires LeafMessage(x) == LeafMessage(y)
    ensures x == y
  {
    assert x == LeafMessage(x)[5..] && y == LeafMessage(y)[5..];
  }

  /** An accepted proof opens the tree, or yields a collision. */
  lemma {:induction false} AcceptedOpens(sha: string -> string, t: Tree, data: string, path: seq<Step>)
    requires FixedWidth(sha)
    requires Fold(sha, sha(LeafMessage(data)), path) == Digest(sha, t)
    ensures Opens(sha, t, data, path) || Collides(sha, ProofCollision(sha, t, data, path))
    decreases |path|
  {
    if LastMessage(sha, data, path) == Message(sha, t) {
      if path == [] {
        MessageKindsDiffer(data, "", "");
        if t.Node? {
          MessageKindsDiffer(data, Digest(sha, t.left), Digest(sha, t.right));
        } else if t.Leaf? {
          LeafMessageInjective(data, t.data);
        }
      } else {
        var last, below := path[|path| - 1], path[..|path| - 1];
        var h := Fold(sha, sha(LeafMessage(data)), below);
        MessageKindsDiffer(if t.Leaf? then t.data else "", if last.side == "R" then h else last.sibling,
                           if last.side == "R" then last.sibling else h);
        assert t.Node?;
        if last.side == "R" {
          NodeMessageInjective(h, last.sibling, Digest(sha, t.left), Digest(sha, t.right));
          AcceptedOpens(sha, t.left, data, below);
        } else {
          NodeMessageInjective(last.sibling, h, Digest(sha, t.left), Digest(sha, t.right));
          AcceptedOpens(sha, t.right, data, below);
        }
      }
    }
  }

  lemma {:induction false} IndexOfLast(path: seq<Step>)
    requires path != []
    ensures IndexOf(path[..|path| - 1]) < Pow2(|path| - 1)
    ensures IndexOf(path) ==
      IndexOf(path[..|path| - 1]) + (if path[|path| - 1].side == "R" then 0 else Pow2(|path| - 1))
  {
    if |path| > 1 {
      IndexOfLast(path[1..]);
      assert path[1..][..|path| - 2] == path[..|path| - 1][1..];
    }
  }

  lemma {:induction false} OpeningAt(sha: string -> string, t: Tree, k: nat, data: string, path: seq<Step>)
    requires Perfect(t, k)
    requires Opens(sha, t, data, path)
    ensures |path| == k
    ensures IndexOf(path) < |Flatten(t)| && Flatten(t)[IndexOf(path)] == data
    decreases k
  {
    if path != [] {
      IndexOfLast(path);
      var below := path[..|path| - 1];
      OpeningAt(sha, if path[|path| - 1].side == "R" then t.left else t.right, k - 1, data, below);
      PerfectLength(t.left, k - 1);
    }
  }

  /** Soundness: whatever leaf and path are accepted against the root of `data`, either the path
      has exactly one step per layer above the leaves and its sides spell the place of that leaf
      in the padded list, or `ProofCollision` names two different texts with one digest. */
  lemma {:induction false} ProofSound(sha: string -> string, data: seq<string>, leaf: string, path: seq<Step>)
    requires FixedWidth(sha)
    requires Fold(sha, sha(LeafMessage(leaf)), path) == Root(sha, data)
    ensures || Collides(sha, ProofCollision(sha, TreeOf(data), leaf, path))
            || (&& leaf in data
                && |path| == |Layers(sha, LeafDigests(sha, data))| - 1
                && IndexOf(path) < |Padded(data)|
                && Padded(data)[IndexOf(path)] == leaf)
  {
    RootIsDigest(sha, data);
    AcceptedOpens(sha, TreeOf(data), leaf, path);
    if Opens(sha, TreeOf(data), leaf, path) {
      assert data != [];
      TreeOfPerfect(data);
      OpeningAt(sha, TreeOf(data), Depth(|data|), leaf, path);
      PaddedExtends(data);
      ProofShape(sha, LeafDigests(sha, data), 0);
    }
  }

  /** Two openings of one tree along the same sides carry the same siblings and the same leaf. */
  lemma {:induction false} OpeningUnique(sha: string -> string, t: Tree, x: string, p: seq<Step>, y: string,
                                         q: seq<Step>)
    requires Opens(sha, t, x, p) && Opens(sha, t, y, q)
    requires |p| == |q| && forall i :: 0 <= i < |p| ==> (p[i].side == "R" <==> q[i].side == "R")
    ensures x == y
    ensures forall i :: 0 <= i < |p| ==> p[i].sibling == q[i].sibling
    decreases |p|
  {
    if p != [] {
      var n := |p| - 1;
      OpeningUnique(sha, if p[n].side == "R" then t.left else t.right, x, p[..n], y, q[..n]);
      assert forall i :: 0 <= i < n ==> p[i] == p[..n][i] && q[i] == q[..n][i];
    }
  }

  lemma {:induction false} SidesFromIndex(p: seq<Step>, q: seq<Step>)
    requires |p| == |q| && IndexOf(p) == IndexOf(q)
    ensures forall i :: 0 <= i < |p| ==> (p[i].side == "R" <==> q[i].side == "R")
  {
    if p != [] {
      SidesFromIndex(p[1..], q[1..]);
      assert forall i :: 1 <= i < |p| ==> p[i] == p[1..][i - 1] && q[i] == q[1..][i - 1];
    }
  }

  /** At the index of a real leaf only that leaf is accepted, and only with the siblings the
      extractor hands out; anything else exposes a collision in one of the two paths. */
  lemma {:induction false} ProofUnique(sha: string -> string, data: seq<string>, idx: nat, leaf: string,
                                       path: seq<Step>)
    requires FixedWidth(sha) && idx < |data| && IndexOf(path) == idx
    requires Fold(sha, sha(LeafMessage(leaf)), path) == Root(sha, data)
    ensures
      var honest := ProofPath(sha, LeafDigests(sha, data), idx);
      || Collides(sha, ProofCollision(sha, TreeOf(data), leaf, path))
      || Collides(sha, ProofCollision(sha, TreeOf(data), data[idx], honest))
      || (&& leaf == data[idx]
          && |path| == |honest|
          && forall i :: 0 <= i < |path| ==> path[i].sibling == honest[i].sibling)
  {
    var honest := ProofPath(sha, LeafDigests(sha, data), idx);
    RootIsDigest(sha, data);
    ProofComplete(sha, data, idx);
    AcceptedOpens(sha, TreeOf(data), leaf, path);
    AcceptedOpens(sha, TreeOf(data), data[idx], honest);
    if Opens(sha, TreeOf(data), leaf, path) && Opens(sha, TreeOf(data), data[idx], honest) {
      TreeOfPerfect(data);
      OpeningAt(sha, TreeOf(data), Depth(|data|), leaf, path);
      ProofShape(sha, LeafDigests(sha, data), idx);
      SidesFromIndex(path, honest);
      OpeningUnique(sha, TreeOf(data), leaf, path, data[idx], honest);
    }
  }

  // ----- Root binding

  function TreeCollision(sha: string -> string, t: Tree, u: Tree): (string, string) {
    if Message(sha, t) != Message(sha, u) || !t.Node? || !u.Node? then (Message(sha, t), Message(sha, u))
    else if t.left != u.left then TreeCollision(sha, t.left, u.left)
    else TreeCollision(sha, t.right, u.right)
  }

  lemma {:induction false} TreeBinding(sha: string -> string, t: Tree, u: Tree)
    requires FixedWidth(sha) && Digest(sha, t) == Digest(sha, u)
    ensures t == u || Collides(sha, TreeCollision(sha, t, u))
  {
    if Message(sha, t) == Message(sha, u) && t != u {
      var l, r := if u.Node? then u.left else Empty, if u.Node? then u.right else Empty;
      MessageKindsDiffer(if t.Leaf? then t.data else "", Digest(sha, l), Digest(sha, r));
      l, r := if t.Node? then t.left else Empty, if t.Node? then t.right else Empty;
      MessageKindsDiffer(if u.Leaf? then u.data else "", Digest(sha, l), Digest(sha, r));
      if t.Node? && u.Node? {
        NodeMessageInjective(Digest(sha, t.left), Digest(sha, t.right), Digest(sha, u.left), Digest(sha, u.right));
        if t.left != u.left {
          TreeBinding(sha, t.left, u.left);
        } else {
          TreeBinding(sha, t.right, u.right);
        }
      } else if t.Leaf? && u.Leaf? {
        LeafMessageInjective(t.data, u.data);
      }
    }
  }

  lemma Pow2Injective(j: nat, k: nat)
    requires Pow2(j) == Pow2(k)
    ensures j == k
  {
    if j > 0 && k > 0 {
      Pow2Injective(j - 1, k - 1);
    }
  }

  lemma {:induction false} FlattenInjective(t: Tree, u: Tree, k: nat)
    requires Perfect(t, k) && Perfect(u, k) && Flatten(t) == Flatten(u)
    ensures t == u
  {
    if k > 0 {
      PerfectLength(t.left, k - 1);
      PerfectLength(u.left, k - 1);
      assert Flatten(t)[..Pow2(k - 1)] == Flatten(t.left) && Flatten(u)[..Pow2(k - 1)] == Flatten(u.left);
      assert Flatten(t)[Pow2(k - 1)..] == Flatten(t.right) && Flatten(u)[Pow2(k - 1)..] == Flatten(u.right);
      FlattenInjective(t.left, u.left, k - 1);
      FlattenInjective(t.right, u.right, k - 1);
    }
  }

  /** Equal roots bind the padded lists; the converse holds for every hash. */
  lemma RootBindsPadding(sha: string -> string, xs: seq<string>, ys: seq<string>)
    requires FixedWidth(sha)
    ensures Padded(xs) == Padded(ys) ==> Root(sha, xs) == Root(sha, ys)
    ensures Root(sha, xs) == Root(sha, ys) ==>
      Padded(xs) == Padded(ys) || Collides(sha, TreeCollision(sha, TreeOf(xs), TreeOf(ys)))
  {
    RootIsDigest(sha, xs);
    RootIsDigest(sha, ys);
    PaddedExtends(xs);
    PaddedExtends(ys);
    if Padded(xs) == Padded(ys) && xs != [] {
      Pow2Injective(Depth(|xs|), Depth(|ys|));
      TreeOfPerfect(xs);
      TreeOfPerfect(ys);
      FlattenInjective(TreeOf(xs), TreeOf(ys), Depth(|xs|));
    }
    if Root(sha, xs) == Root(sha, ys) {
      TreeBinding(sha, TreeOf(xs), TreeOf(ys));
    }
  }

  /** At equal length the root binds the list itself. */
  lemma RootBindsAtEqualLength(sha: string -> string, xs: seq<string>, ys: seq<string>)
    requires FixedWidth(sha) && |xs| == |ys| && Root(sha, xs) == Root(sha, ys)
    ensures xs == ys || Collides(sha, TreeCollision(sha, TreeOf(xs), TreeOf(ys)))
  {
    RootBindsPadding(sha, xs, ys);
    PaddedExtends(xs);
    PaddedExtends(ys);
  }

  /** Across lengths it does not: any list of odd length above one shares its root with the list
      that repeats its last leaf. */
  lemma OddListSharesRoot(sha: string -> string, xs: seq<string>)
    requires |xs| > 1 && |xs| % 2 == 1
    ensures Root(sha, xs + [xs[|xs| - 1]]) == Root(sha, xs)
  {
    var ys := xs + [xs[|xs| - 1]];
    var a, b := LeafDigests(sha, xs), LeafDigests(sha, ys);
    var up, vp := LayerUp(sha, a), LayerUp(sha, b);
    forall j | 0 <= j < |up|
      ensures up[j] == vp[j]
    {
      assert a[2 * j] == b[2 * j];
    }
    assert up == vp;
  }
}
