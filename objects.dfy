/** Code snippets, line ranges and the single-root node of `codememo/objects.py`. */
module Objects {
  import opened Wrappers
  import Text

  /** Start line and optional stop line of a range of code. The source's
      `AbsoluteLineInfo` and `RelativeLineInfo` add nothing to it. */
  datatype LineInfo = LineInfo(start: int, stop: Option<int>)

  /** A code snippet with its provenance. */
  datatype Code = Code(
    name: string,
    content: string,
    lineStart: int,
    lang: string,
    path: Option<string>,
    url: Option<string>)

  /** `Code(name, content, line_start, lang, path, url)`: missing `lang` becomes
      `"raw"`, a missing `line_start` becomes 1, the rest are kept as given. */
  function NewCode(
    name: string, content: string, lineStart: Option<int>,
    lang: Option<string>, path: Option<string>, url: Option<string>): (c: Code)
    ensures c.name == name && c.content == content && c.path == path && c.url == url
    ensures lang.None? ==> c.lang == "raw"
    ensures lang.Some? ==> c.lang == lang.value
    ensures lineStart.None? ==> c.lineStart == 1
    ensures lineStart.Some? ==> c.lineStart == lineStart.value
  {
    Code(name, content, lineStart.GetOr(1), lang.GetOr("raw"), path, url)
  }

  /** `Code.n_lines`: the number of lines of the content, i.e. the number of
      pieces `content.split('\n')` yields; never zero. */
  function NLines(c: Code): (n: nat)
    ensures n >= 1
    ensures n == |Text.Split(c.content, '\n')|
    ensures n == multiset(c.content)['\n'] + 1
  {
    Text.SplitLength(c.content, '\n');
    Text.CountIsMultiplicity(c.content, '\n');
    Text.Count(c.content, '\n') + 1
  }

  /** `Code.line_info`: the absolute range starting at `line_start` and
      spanning exactly `n_lines` lines. */
  function AbsoluteLineInfo(c: Code): (li: LineInfo)
    ensures li.start == c.lineStart
    ensures li.stop.Some? && li.stop.value - li.start + 1 == NLines(c)
    ensures li.stop.value >= li.start
  {
    LineInfo(c.lineStart, Some(c.lineStart + NLines(c) - 1))
  }

  /** Where a leaf's reference points: the root's code and a range relative to it. */
  datatype ReferenceInfo = ReferenceInfo(code: Code, lineInfo: LineInfo)

  /** `ReferenceInfo(src_code, rel_start, rel_stop)`. */
  function NewReferenceInfo(src: Code, relStart: int, relStop: Option<int>): (r: ReferenceInfo)
    ensures r.code == src
    ensures r.lineInfo.start == relStart && r.lineInfo.stop == relStop
  {
    ReferenceInfo(src, LineInfo(relStart, relStop))
  }

  datatype NodeError =
    | AlreadyLeaf     // ValueError: the node already has a root
    | IndexOutOfRange // IndexError from `list.pop`

  /** The position `list.pop(idx)` removes, Python's negative indices included. */
  function PopPosition(idx: int, n: nat): int {
    if idx < 0 then idx + n else idx
  }

  /** A node of the single-root version: at most one root, an ordered list of leaves. */
  class Node {
    const code: Code
    const comment: Option<string>
    var root: Node?
    var refInfo: Option<ReferenceInfo>
    var leaves: seq<Node>

    /** Each leaf names this node as its root, and no leaf is listed twice. */
    ghost predicate LeavesPointBack()
      reads this, leaves
    {
      && (forall k :: 0 <= k < |leaves| ==> leaves[k].root == this)
      && Text.Distinct(leaves)
    }

    /** A detached node: no root, no reference, no leaves. */
    constructor (code: Code, comment: Option<string>)
      ensures this.code == code && this.comment == comment
      ensures root == null && refInfo == None && leaves == []
      ensures LeavesPointBack()
    {
      this.code := code;
      this.comment := comment;
      root := null;
      refInfo := None;
      leaves := [];
    }

    /** Makes `node` this node's root, referring to lines `relStart..relStop` of its code. */
    method SetRoot(node: Node, relStart: int, relStop: Option<int>)
      modifies this`root, this`refInfo
      ensures root == node
      ensures refInfo == Some(NewReferenceInfo(node.code, relStart, relStop))
    {
      root := node;
      refInfo := Some(NewReferenceInfo(node.code, relStart, relStop));
    }

    /** Detaches this node from its root; both the root and the reference are cleared. */
    method ResetRoot()
      modifies this`root, this`refInfo
      ensures root == null && refInfo == None
    {
      root := null;
      refInfo := None;
    }

    /** Attaches `node` as the last leaf, referring to lines `lineStart..lineStop`
        of this node's code; refused when `node` already has a root. */
    method AddLeaf(node: Node, lineStart: int, lineStop: Option<int>) returns (r: Outcome<NodeError>)
      modifies this`leaves, node`root, node`refInfo
      ensures r.Pass? <==> old(node.root) == null
      ensures r.Fail? ==> r.error == AlreadyLeaf
      ensures r.Fail? ==> leaves == old(leaves) && node.root == old(node.root) && node.refInfo == old(node.refInfo)
      ensures r.Pass? ==> node.root == this
      ensures r.Pass? ==> node.refInfo == Some(ReferenceInfo(code, LineInfo(lineStart, lineStop)))
      ensures r.Pass? ==> leaves == old(leaves) + [node]
      ensures old(LeavesPointBack()) ==> LeavesPointBack()
    {
      if node.root != null {
        return Fail(AlreadyLeaf);
      }
      node.SetRoot(this, lineStart, lineStop);
      leaves := leaves + [node];
      r := Pass;
    }

    /** `leaves.pop(idx)` followed by clearing the removed node's root. */
    method RemoveLeaf(idx: int) returns (r: Outcome<NodeError>)
      modifies this`leaves, leaves
      ensures var k := PopPosition(idx, |old(leaves)|);
        r.Pass? <==> 0 <= k < |old(leaves)|
      ensures r.Fail? ==> r.error == IndexOutOfRange && leaves == old(leaves)
      ensures r.Fail? ==> forall l :: l in old(leaves) ==> l.root == old(l.root) && l.refInfo == old(l.refInfo)
      ensures r.Pass? ==>
        var k := PopPosition(idx, |old(leaves)|);
        var removed := old(leaves)[k];
        && leaves == old(leaves)[..k] + old(leaves)[k + 1..]
        && removed.root == null && removed.refInfo == None
        && (forall l :: l in old(leaves) && l != removed ==> l.root == old(l.root) && l.refInfo == old(l.refInfo))
        && (removed != this ==> root == old(root) && refInfo == old(refInfo))
      ensures forall l :: l in old(leaves) && l != this ==> l.leaves == old(l.leaves)
      ensures old(LeavesPointBack()) ==> LeavesPointBack()
    {
      var k := PopPosition(idx, |leaves|);
      if !(0 <= k < |leaves|) {
        return Fail(IndexOutOfRange);
      }
      var removed := leaves[k];
      ghost var before := leaves;
      leaves := leaves[..k] + leaves[k + 1..];
      removed.ResetRoot();
      r := Pass;
      assert forall j :: 0 <= j < |leaves| ==> leaves[j] == (if j < k then before[j] else before[j + 1]);
    }
  }
}
