/** The Merkle tree of src/mvpc/hardening/crypto_integrity.py: a layer builder that
    repeats the last node of an odd layer, a proof extractor and a proof verifier.
    A text stands for its UTF-8 bytes, so a leaf given as text or as bytes is the
    same leaf. */
module Merkle {
  import opened Hashing

  datatype Step = Step(side: string, sibling: string)

  datatype ProofResult = Path(path: seq<Step>) | IndexError(index: int)

  function LeafMessage(data: string): string {
    "leaf:" + data
  }

  function NodeMessage(left: string, right: string): string {
    "node:" + left + ":" + right
  }

  const EMPTY_MESSAGE := "empty"

  function LeafDigests(sha: string -> string, data: seq<string>): (r: seq<string>)
    ensures |r| == |data|
    ensures forall i :: 0 <= i < |data| ==> r[i] == sha(LeafMessage(data[i]))
  {
    if data == [] then [] else [sha(LeafMessage(data[0]))] + LeafDigests(sha, data[1..])
  }

  /** Node `j` of the next layer; the last node of an odd layer is paired with itself. */
  function NodeAt(sha: string -> string, layer: seq<string>, j: nat): string
    requires 2 * j < |layer|
  {
    sha(NodeMessage(layer[2 * j], if 2 * j + 1 < |layer| then layer[2 * j + 1] else layer[2 * j]))
  }

  /** One pass of the layer builder. */
  function LayerUp(sha: string -> string, layer: seq<string>): (up: seq<string>)
    ensures |up| == (|layer| + 1) / 2
    ensures forall j :: 0 <= j < |up| ==> up[j] == NodeAt(sha, layer, j)
  {
    seq((|layer| + 1) / 2, j requires 0 <= j < (|layer| + 1) / 2 => NodeAt(sha, layer, j))
  }

  /** All layers, the leaves first and the root last. */
  function Layers(sha: string -> string, layer: seq<string>): (r: seq<seq<string>>)
    requires layer != []
    ensures r != [] && r[0] == layer && |r[|r| - 1]| == 1
    decreases |layer|
  {
    if |layer| == 1 then [layer] else [layer] + Layers(sha, LayerUp(sha, layer))
  }

  function Top(sha: string -> string, layer: seq<string>): (root: string)
    requires layer != []
    ensures root == Layers(sha, layer)[|Layers(sha, layer)| - 1][0]
    decreases |layer|
  {
    if |layer| == 1 then layer[0] else Top(sha, LayerUp(sha, layer))
  }

  /** The root of a tree over `data`, the empty list included. */
  function Root(sha: string -> string, data: seq<string>): string {
    if data == [] then sha(EMPTY_MESSAGE) else Top(sha, LeafDigests(sha, data))
  }

  function StepAt(layer: seq<string>, idx: nat): Step
    requires idx < |layer|
  {
    if idx % 2 == 0
    then Step("R", if idx + 1 < |layer| then layer[idx + 1] else layer[idx])
    else Step("L", layer[idx - 1])
  }

  /** The audit path of position `idx`, the sibling of the leaf first. */
  function ProofPath(sha: string -> string, layer: seq<string>, idx: nat): seq<Step>
    requires idx < |layer|
    decreases |layer|
  {
    if |layer| == 1 then [] else [StepAt(layer, idx)] + ProofPath(sha, LayerUp(sha, layer), idx / 2)
  }

  /** The text hashed by one verification step; any side but "R" counts as left. */
  function ClimbMessage(h: string, step: Step): string {
    if step.side == "R" then NodeMessage(h, step.sibling) else NodeMessage(step.sibling, h)
  }

  /** The digest a verifier reaches from `h` along `path`. */
  function Fold(sha: string -> string, h: string, path: seq<Step>): string {
    if path == [] then h
    else sha(ClimbMessage(Fold(sha, h, path[..|path| - 1]), path[|path| - 1]))
  }

  // ----- One turn of the loops

  lemma LayersStep(sha: string -> string, layers: seq<seq<string>>, k: nat)
    requires k < |layers| - 1 && layers[k] != []
    requires layers[k..] == Layers(sha, layers[k])
    ensures |layers[k]| > 1 && layers[k + 1] == LayerUp(sha, layers[k])
    ensures layers[k + 1..] == Layers(sha, layers[k + 1])
  {
    assert layers[k..][1..] == layers[k + 1..];
    assert layers[k..][1] == layers[k + 1];
  }

  lemma AppendStep(before: seq<Step>, step: Step, rest: seq<Step>)
    ensures before + [step] + rest == before + ([step] + rest)
  {
  }

  // ----- The class

  class MerkleTree {
    const sha: string -> string
    var leaves: seq<string>
    var layers: seq<seq<string>>
    var root: string

    ghost predicate Valid(data: seq<string>)
      reads this
    {
      && leaves == LeafDigests(sha, data)
      && layers == (if data == [] then [[sha(EMPTY_MESSAGE)]] else Layers(sha, leaves))
      && root == Root(sha, data)
    }

    constructor (sha: string -> string, data: seq<string>)
      ensures this.sha == sha && Valid(data)
    {
      this.sha := sha;
      leaves, layers, root := LeafDigests(sha, data), [], "";
      new;
      root := Build();
    }

    method Build() returns (top: string)
      modifies this`layers
      ensures leaves == [] ==> layers == [[top]] && top == sha(EMPTY_MESSAGE)
      ensures leaves != [] ==> layers == Layers(sha, leaves) && top == Top(sha, leaves)
    {
      if leaves == [] {
        top := sha(EMPTY_MESSAGE);
        layers := [[top]];
        return;
      }
      var layer := leaves;
      layers := [layer];
      assert layers + Layers(sha, layer)[1..] == Layers(sha, leaves);
      while |layer| > 1
        invariant layer != []
        invariant layers + Layers(sha, layer)[1..] == Layers(sha, leaves)
        invariant Top(sha, layer) == Top(sha, leaves)
        decreases |layer|
      {
        var nxt := NextLayer(layer);
        assert Layers(sha, layer)[1..] == Layers(sha, nxt);
        assert layers + Layers(sha, nxt) == (layers + [nxt]) + Layers(sha, nxt)[1..];
        layer := nxt;
        layers := layers + [layer];
      }
      assert Layers(sha, layer)[1..] == [];
      top := layer[0];
    }

    method NextLayer(layer: seq<string>) returns (nxt: seq<string>)
      ensures nxt == LayerUp(sha, layer)
    {
      nxt := [];
      var i := 0;
      while i < |layer|
        invariant 0 <= i <= |layer| + 1 && i == 2 * |nxt|
        invariant nxt == LayerUp(sha, layer)[..|nxt|]
      {
        var left := layer[i];
        var right := if i + 1 < |layer| then layer[i + 1] else left;
        nxt := nxt + [sha(NodeMessage(left, right))];
        i := i + 2;
      }
    }

    method Proof(index: int, ghost data: seq<string>) returns (r: ProofResult)
      requires Valid(data)
      ensures r == if 0 <= index < |data| then Path(ProofPath(sha, LeafDigests(sha, data), index))
                   else IndexError(index)
    {
      if index < 0 || index >= |leaves| {
        return IndexError(index);
      }
      var path, idx, k := [], index, 0;
      while k < |layers| - 1
        invariant 0 <= k < |layers|
        invariant layers[k] != [] && layers[k..] == Layers(sha, layers[k])
        invariant 0 <= idx < |layers[k]|
        invariant path + ProofPath(sha, layers[k], idx) == ProofPath(sha, leaves, index)
      {
        var layer := layers[k];
        LayersStep(sha, layers, k);
        ghost var before, rest := path, ProofPath(sha, layers[k + 1], idx / 2);
        assert ProofPath(sha, layer, idx) == [StepAt(layer, idx)] + rest;
        if idx % 2 == 0 {
          var sib := if idx + 1 < |layer| then layer[idx + 1] else layer[idx];
          path := path + [Step("R", sib)];
        } else {
          path := path + [Step("L", layer[idx - 1])];
        }
        assert path == before + [StepAt(layer, idx)];
        AppendStep(before, StepAt(layer, idx), rest);
        idx := idx / 2;
        k := k + 1;
      }
      r := Path(path);
    }

    static method VerifyProof(sha: string -> string, leaf: string, proof: seq<Step>, root: string) returns (ok: bool)
      ensures ok <==> Fold(sha, sha(LeafMessage(leaf)), proof) == root
    {
      var h := sha(LeafMessage(leaf));
      for k := 0 to |proof|
        invariant h == Fold(sha, sha(LeafMessage(leaf)), proof[..k])
      {
        var step := proof[k];
        if step.side == "R" {
          h := sha(NodeMessage(h, step.sibling));
        } else {
          h := sha(NodeMessage(step.sibling, h));
        }
        assert proof[..k + 1][..k] == proof[..k];
      }
      assert proof[..|proof|] == proof;
      ok := h == root;
    }
  }
}
