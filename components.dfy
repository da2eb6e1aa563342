/** The parts of `codememo/components.py` that do not draw: row selection in
    the snippet window, the node name shown on the canvas, the start-line
    input check, and the initial layout and numbering of node components. */
module Components {
  import opened Wrappers
  import Text

  // Sequences -------------------------------------------------------------

  function Reverse<T>(s: seq<T>): (r: seq<T>)
    ensures |r| == |s| && forall k :: 0 <= k < |s| ==> r[k] == s[|s| - 1 - k]
  {
    seq(|s|, k requires 0 <= k < |s| => s[|s| - 1 - k])
  }

  predicate AllTrue(s: seq<bool>) {
    forall k :: 0 <= k < |s| ==> s[k]
  }

  /** `a[lo:hi] = b` for non-negative bounds, clamped to the list as Python clamps them. */
  function SliceAssign<T>(a: seq<T>, lo: nat, hi: nat, b: seq<T>): (r: seq<T>)
    ensures var l := if lo < |a| then lo else |a|;
      var h := if hi < l then l else if hi < |a| then hi else |a|;
      |r| == |a| - (h - l) + |b|
  {
    var l := if lo < |a| then lo else |a|;
    var h := if hi < l then l else if hi < |a| then hi else |a|;
    a[..l] + b + a[h..]
  }

  // Row selection -----------------------------------------------------------

  datatype SelectionError =
    | NothingSelected  // ValueError from `selected.index(True)`
    | NotContiguous    // the RuntimeError about rows that are not contiguous

  /** `[False] * n`. */
  function Cleared(n: nat): (r: seq<bool>)
    ensures |r| == n && forall k :: 0 <= k < n ==> !r[k]
  {
    seq(n, _ => false)
  }

  /** No row before the first selected one is selected. */
  lemma NoneBeforeFirst(sel: seq<bool>)
    requires true in sel
    ensures forall k :: 0 <= k < Text.IndexOf(sel, true) ==> !sel[k]
  {
    var first := Text.IndexOf(sel, true);
    forall k | 0 <= k < first
      ensures !sel[k]
    {
      assert sel[..first][k] == sel[k];
    }
  }

  /** The last selected row, `len(selected) - selected[::-1].index(True) - 1`,
      is selected, nothing after it is, and it is not before the first. */
  lemma LastTrue(sel: seq<bool>)
    requires true in sel
    ensures true in Reverse(sel)
    ensures var last := |sel| - 1 - Text.IndexOf(Reverse(sel), true);
      && Text.IndexOf(sel, true) <= last < |sel| && sel[last]
      && forall k :: last < k < |sel| ==> !sel[k]
  {
    var first := Text.IndexOf(sel, true);
    var rev := Reverse(sel);
    assert rev[|sel| - 1 - first] == true;
    var r := Text.IndexOf(rev, true);
    var last := |sel| - 1 - r;
    forall k | last < k < |sel|
      ensures !sel[k]
    {
      assert rev[..r][|sel| - 1 - k] == rev[|sel| - 1 - k];
    }
    assert sel[first];
  }

  /** `get_selected_lines()`: the 1-based first and last selected rows, the
      last being `None` when it is the first. */
  function SelectedLines(sel: seq<bool>): Result<(int, Option<int>), SelectionError> {
    if true !in sel then Err(NothingSelected)
    else
      LastTrue(sel);
      var start := Text.IndexOf(sel, true) + 1;
      var stop := |sel| - Text.IndexOf(Reverse(sel), true);
      var stopOrNone := if start != stop then Some(stop) else None;
      if stopOrNone.Some? && !AllTrue(sel[start..stop]) then Err(NotContiguous)
      else Ok((start, stopOrNone))
  }

  /** A selection of exactly the rows `lo..hi` gives the lines `lo + 1` to
      `hi + 1`, with `None` for a single row. */
  lemma SelectedLinesOfRange(sel: seq<bool>, lo: nat, hi: nat)
    requires lo <= hi < |sel|
    requires forall k :: 0 <= k < |sel| ==> (sel[k] <==> lo <= k <= hi)
    ensures SelectedLines(sel) == Ok((lo + 1, if lo == hi then None else Some(hi + 1)))
  {
    assert sel[lo];
    NoneBeforeFirst(sel);
    LastTrue(sel);
    assert Text.IndexOf(sel, true) == lo;
    var last := |sel| - 1 - Text.IndexOf(Reverse(sel), true);
    assert sel[last] && sel[hi];
    assert last == hi;
    var middle := sel[lo + 1..hi + 1];
    forall k | 0 <= k < |middle|
      ensures middle[k]
    {
      assert middle[k] == sel[lo + 1 + k];
    }
  }

  /** An unselected row between two selected ones raises the RuntimeError. */
  lemma SelectedLinesGap(sel: seq<bool>, a: nat, k: nat, b: nat)
    requires a < k < b < |sel| && sel[a] && !sel[k] && sel[b]
    ensures SelectedLines(sel) == Err(NotContiguous)
  {
    NoneBeforeFirst(sel);
    LastTrue(sel);
    var start := Text.IndexOf(sel, true) + 1;
    var stop := |sel| - Text.IndexOf(Reverse(sel), true);
    assert start <= a + 1 && b + 1 <= stop;
    assert sel[start..stop][k - start] == sel[k];
  }

  /** Whenever lines are returned, the selected rows are exactly those lines. */
  lemma SelectedLinesAreTheSelection(sel: seq<bool>)
    requires SelectedLines(sel).Ok?
    ensures var start, stop := SelectedLines(sel).value.0, SelectedLines(sel).value.1;
      var last := if stop.Some? then stop.value - 1 else start - 1;
      && 1 <= start && start - 1 <= last < |sel|
      && forall k :: 0 <= k < |sel| ==> (sel[k] <==> start - 1 <= k <= last)
  {
    NoneBeforeFirst(sel);
    LastTrue(sel);
    var start := Text.IndexOf(sel, true) + 1;
    var stop := |sel| - Text.IndexOf(Reverse(sel), true);
    forall k | start <= k < stop
      ensures sel[k]
    {
      assert sel[start..stop][k - start] == sel[k];
    }
  }

  /** `self.reset_selected(); self.selected[i] = True`. */
  function SingleSelect(n: nat, i: nat): (r: seq<bool>)
    requires i < n
    ensures |r| == n
  {
    Cleared(n)[i := true]
  }

  /** A single selected row is one line with no stop. */
  lemma SingleSelectLines(n: nat, i: nat)
    requires i < n
    ensures SelectedLines(SingleSelect(n, i)) == Ok((i + 1, None))
  {
    SelectedLinesOfRange(SingleSelect(n, i), i, i);
  }

  /** A click with nothing selected selects only that row. */
  lemma FirstClickLines(sel: seq<bool>, i: nat)
    requires i < |sel| && true !in sel
    ensures SelectedLines(sel[i := true]) == Ok((i + 1, None))
  {
    assert forall k :: 0 <= k < |sel| ==> !sel[k];
    SelectedLinesOfRange(sel[i := true], i, i);
  }

  function Min(a: int, b: int): int { if a <= b then a else b }
  function Max(a: int, b: int): int { if a <= b then b else a }

  /** The shift-click update as written: `selected[lo:hi] = [True] * (hi - lo + 1)`
      on a cleared list, which replaces `hi - lo` entries by `hi - lo + 1`. */
  function ShiftSelectAsWritten(n: nat, prev: nat, curr: nat): seq<bool> {
    var lo, hi := Min(prev, curr), Max(prev, curr);
    SliceAssign(Cleared(n), lo, hi, seq(hi - lo + 1, _ => true))
  }

  /** The intended shift-click update: `selected[lo:hi + 1] = [True] * (hi - lo + 1)`. */
  function ShiftSelect(n: nat, prev: nat, curr: nat): seq<bool> {
    var lo, hi := Min(prev, curr), Max(prev, curr);
    SliceAssign(Cleared(n), lo, hi + 1, seq(hi - lo + 1, _ => true))
  }

  /** The intended update keeps one entry per row and selects exactly the rows
      from the earlier to the later of the two clicked ones. */
  lemma ShiftSelectRange(n: nat, prev: nat, curr: nat)
    requires prev < n && curr < n
    ensures |ShiftSelect(n, prev, curr)| == n
    ensures forall k :: 0 <= k < n ==>
      (ShiftSelect(n, prev, curr)[k] <==> Min(prev, curr) <= k <= Max(prev, curr))
  {
    var lo, hi := Min(prev, curr), Max(prev, curr);
    var r := ShiftSelect(n, prev, curr);
    assert r == Cleared(n)[..lo] + seq(hi - lo + 1, _ => true) + Cleared(n)[hi + 1..];
    forall k | 0 <= k < n
      ensures r[k] <==> lo <= k <= hi
    {
      if k < lo {
        assert r[k] == Cleared(n)[k];
      } else if k <= hi {
        assert r[k] == seq(hi - lo + 1, _ => true)[k - lo];
      } else {
        assert r[k] == Cleared(n)[k];
      }
    }
  }

  /** As written, the update selects the same rows but appends one extra
      unselected entry, so the list has one entry more than there are rows. */
  lemma ShiftSelectAsWrittenGrows(n: nat, prev: nat, curr: nat)
    requires prev < n && curr < n
    ensures ShiftSelectAsWritten(n, prev, curr) == ShiftSelect(n, prev, curr) + [false]
    ensures |ShiftSelectAsWritten(n, prev, curr)| == n + 1
  {
    var lo, hi := Min(prev, curr), Max(prev, curr);
    var block := seq(hi - lo + 1, _ => true);
    assert ShiftSelectAsWritten(n, prev, curr) == Cleared(n)[..lo] + block + Cleared(n)[hi..];
    assert ShiftSelect(n, prev, curr) == Cleared(n)[..lo] + block + Cleared(n)[hi + 1..];
    assert Cleared(n)[hi..] == Cleared(n)[hi + 1..] + [false];
  }

  /** For any bounds the as-written update leaves more entries than rows. */
  lemma ShiftSelectAsWrittenLonger(n: nat, prev: nat, curr: nat)
    ensures |ShiftSelectAsWritten(n, prev, curr)| > n
  {
  }

  /** A shift-click selects the lines from the earlier to the later click. */
  lemma ShiftSelectLines(n: nat, prev: nat, curr: nat)
    requires prev < n && curr < n
    ensures var lo, hi := Min(prev, curr), Max(prev, curr);
      SelectedLines(ShiftSelect(n, prev, curr)) == Ok((lo + 1, if lo == hi then None else Some(hi + 1)))
  {
    ShiftSelectRange(n, prev, curr);
    SelectedLinesOfRange(ShiftSelect(n, prev, curr), Min(prev, curr), Max(prev, curr));
  }

  /** The extra entry of the as-written update is unselected, so the lines
      reported afterwards are still the intended ones. */
  lemma ShiftSelectAsWrittenLines(n: nat, prev: nat, curr: nat)
    requires prev < n && curr < n
    ensures SelectedLines(ShiftSelectAsWritten(n, prev, curr)) == SelectedLines(ShiftSelect(n, prev, curr))
  {
    var lo, hi := Min(prev, curr), Max(prev, curr);
    ShiftSelectRange(n, prev, curr);
    ShiftSelectAsWrittenGrows(n, prev, curr);
    var s := ShiftSelect(n, prev, curr);
    var grown := s + [false];
    forall k | 0 <= k < |grown|
      ensures grown[k] <==> lo <= k <= hi
    {
      if k < n {
        assert grown[k] == s[k];
      }
    }
    SelectedLinesOfRange(grown, lo, hi);
    SelectedLinesOfRange(s, lo, hi);
  }

  /** The rows of a code snippet and which of them are selected. */
  class CodeSnippetWindow {
    const rows: seq<string>
    var selected: seq<bool>

    /** Every row has a selection entry (the as-written shift-click adds one more). */
    predicate Valid()
      reads this
    {
      |rows| >= 1 && |selected| >= |rows|
    }

    /** A snippet without lines shows one empty row; nothing is selected. */
    constructor (lines: seq<string>)
      ensures rows == (if lines == [] then [""] else lines)
      ensures selected == Cleared(|rows|)
      ensures Valid()
    {
      rows := if lines == [] then [""] else lines;
      selected := Cleared(if lines == [] then 1 else |lines|);
    }

    /** `reset_selected()`. */
    method ResetSelected()
      modifies this`selected
      ensures selected == Cleared(|rows|)
    {
      selected := Cleared(|rows|);
    }

    /** The selection branch of `handle_selectable_row(i, row)` as written:
        `clicked` and `shift` are what imgui reports for this frame. */
    method HandleSelectableRowAsWritten(i: nat, clicked: bool, shift: bool)
      requires i < |rows| && Valid()
      modifies this`selected
      ensures Valid()
      ensures !clicked ==> selected == old(selected)
      ensures clicked && true !in old(selected) ==> selected == old(selected)[i := true]
      ensures clicked && true in old(selected) && shift ==>
        selected == ShiftSelectAsWritten(|rows|, Text.IndexOf(old(selected), true), i)
      ensures clicked && true in old(selected) && !shift ==> selected == SingleSelect(|rows|, i)
    {
      if clicked {
        if true !in selected {
          selected := selected[i := true];
        } else if shift {
          var idxCurr := i;
          var idxPrev := Text.IndexOf(selected, true);
          ghost var prev := idxPrev;
          ResetSelected();
          if idxPrev > idxCurr {
            idxPrev, idxCurr := idxCurr, idxPrev;
          }
          var lenRange := idxCurr - idxPrev + 1;
          selected := SliceAssign(selected, idxPrev, idxCurr, seq(lenRange, _ => true));
          assert selected == ShiftSelectAsWritten(|rows|, prev, i);
          ShiftSelectAsWrittenLonger(|rows|, prev, i);
        } else {
          ResetSelected();
          selected := selected[i := true];
        }
      }
    }

    /** The selection branch of `handle_selectable_row` with the intended
        slice, which keeps one entry per row. */
    method HandleSelectableRow(i: nat, clicked: bool, shift: bool)
      requires i < |rows| && |selected| == |rows|
      modifies this`selected
      ensures |selected| == |rows|
      ensures !clicked ==> selected == old(selected)
      ensures clicked && true !in old(selected) ==> selected == old(selected)[i := true]
      ensures clicked && true in old(selected) && shift ==>
        selected == ShiftSelect(|rows|, Text.IndexOf(old(selected), true), i)
      ensures clicked && true in old(selected) && !shift ==> selected == SingleSelect(|rows|, i)
    {
      if clicked {
        if true !in selected {
          selected := selected[i := true];
        } else if shift {
          var idxCurr := i;
          var idxPrev := Text.IndexOf(selected, true);
          ghost var prev := idxPrev;
          ResetSelected();
          if idxPrev > idxCurr {
            idxPrev, idxCurr := idxCurr, idxPrev;
          }
          var lenRange := idxCurr - idxPrev + 1;
          selected := SliceAssign(selected, idxPrev, idxCurr + 1, seq(lenRange, _ => true));
          assert selected == ShiftSelect(|rows|, prev, i);
          ShiftSelectRange(|rows|, prev, i);
        } else {
          ResetSelected();
          selected := selected[i := true];
        }
      }
    }
  }

  // Node names and start-line input ----------------------------------------

  const NODE_MAX_NAME_LENGTH: nat := 8
  const INPUT_START_LINE_MAX_LENGTH: nat := 16

  /** `CodeNodeComponent.display_name`: short names unchanged, longer ones cut
      to their first five characters followed by `...`. */
  function DisplayName(name: string): (r: string)
    ensures |r| <= NODE_MAX_NAME_LENGTH
    ensures |name| <= NODE_MAX_NAME_LENGTH ==> r == name
    ensures |name| > NODE_MAX_NAME_LENGTH ==>
      |r| == NODE_MAX_NAME_LENGTH && r[..NODE_MAX_NAME_LENGTH - 3] == name[..NODE_MAX_NAME_LENGTH - 3]
      && r[NODE_MAX_NAME_LENGTH - 3..] == "..."
  {
    if |name| > NODE_MAX_NAME_LENGTH then name[..NODE_MAX_NAME_LENGTH - 3] + "..." else name
  }

  /** Shortening a shown name again changes nothing. */
  lemma DisplayNameIdempotent(name: string)
    ensures DisplayName(DisplayName(name)) == DisplayName(name)
  {
  }

  /** `CodeNodeCreatorWindow._check_input_number(value)`: the text is an integer
      of at most 16 characters. */
  function CheckInputNumber(value: string): (ok: bool)
    ensures ok ==> |value| <= INPUT_START_LINE_MAX_LENGTH && Text.ParseInt(value).Some?
    ensures Text.ParseInt(value).None? ==> !ok
  {
    Text.ParseInt(value).Some? && |value| <= INPUT_START_LINE_MAX_LENGTH
  }

  function Pow10(k: nat): (p: nat)
    ensures p >= 1
  {
    if k == 0 then 1 else 10 * Pow10(k - 1)
  }

  /** Decimal numbers below ten to the `k + 1` have at most `k + 1` digits. */
  lemma {:induction false} NatToStringLength(n: nat, k: nat)
    requires n < 10 * Pow10(k)
    ensures |Text.NatToString(n)| <= k + 1
  {
    if k > 0 && n >= 10 {
      NatToStringLength(n / 10, k - 1);
    }
  }

  /** Every line number with at most 16 digits is accepted as typed in decimal. */
  lemma AcceptsLineNumbers(n: nat)
    requires n < Pow10(INPUT_START_LINE_MAX_LENGTH)
    ensures CheckInputNumber(Text.NatToString(n))
  {
    Text.ParseNatToString(n);
    NatToStringLength(n, INPUT_START_LINE_MAX_LENGTH - 1);
  }

  /** Text with a decimal point, such as `1.5`, is rejected. */
  lemma RejectsDecimalPoint(value: string)
    requires '.' in value
    ensures !CheckInputNumber(value)
  {
    if Text.ParseInt(value).Some? {
      Text.ParsedHasNoDot(value);
    }
  }

  // Layout of node components ------------------------------------------------

  /** The distance between neighbouring layers and between neighbouring nodes
      of a layer. Products with these offsets are written below with the
      literal 80, so that the arithmetic stays linear. */
  const LAYOUT_NODE_OFFSET_X: int := 80
  const LAYOUT_NODE_OFFSET_Y: int := 80

  /** A canvas position; the layout only produces multiples of the offsets. */
  datatype Pos = Pos(x: int, y: int)

  /** A `CodeNodeComponent`: its id, its position, and the node it shows. */
  datatype Component<N> = Component(id: int, pos: Option<Pos>, node: N)

  datatype LayoutError = EmptyTree  // ValueError: `max()` of the layers of a tree without layers

  /** `[v for layer in layers for v in layer]`. */
  function Flatten<T>(xss: seq<seq<T>>): seq<T>
    decreases |xss|
  {
    if xss == [] then [] else Flatten(xss[..|xss| - 1]) + xss[|xss| - 1]
  }

  lemma FlattenSnoc<T>(xss: seq<seq<T>>, i: nat)
    requires i < |xss|
    ensures Flatten(xss[..i + 1]) == Flatten(xss[..i]) + xss[i]
  {
    assert xss[..i + 1][..i] == xss[..i];
  }

  /** Flattening a prefix of the layers gives a prefix of the flattened list. */
  lemma {:induction false} FlattenPrefix<T>(xss: seq<seq<T>>, m: nat)
    requires m <= |xss|
    ensures Flatten(xss[..m]) <= Flatten(xss)
    decreases |xss|
  {
    if m < |xss| {
      var init := xss[..|xss| - 1];
      assert init[..m] == xss[..m];
      FlattenPrefix(init, m);
    } else {
      assert xss[..m] == xss;
    }
  }

  /** The `j`-th element of layer `i` sits after all elements of the earlier layers. */
  lemma FlattenAt<T>(xss: seq<seq<T>>, i: nat, j: nat)
    requires i < |xss| && j < |xss[i]|
    ensures |Flatten(xss[..i])| + j < |Flatten(xss)|
    ensures Flatten(xss)[|Flatten(xss[..i])| + j] == xss[i][j]
  {
    FlattenSnoc(xss, i);
    FlattenPrefix(xss, i + 1);
  }

  /** `FlattenAt`, with the index and the element named by the caller. */
  lemma FlattenElement<T>(xss: seq<seq<T>>, i: nat, j: nat, k: nat, v: T)
    requires i < |xss| && j < |xss[i]| && xss[i][j] == v
    requires k == |Flatten(xss[..i])| + j
    ensures k < |Flatten(xss)| && Flatten(xss)[k] == v
  {
    FlattenAt(xss, i, j);
  }

  /** Lists of lists of the same shape flatten to lists of the same length,
      prefix by prefix. */
  lemma {:induction false} FlattenSameShape<T, U>(xss: seq<seq<T>>, yss: seq<seq<U>>, m: nat)
    requires |xss| == |yss| && m <= |xss|
    requires forall i :: 0 <= i < |xss| ==> |xss[i]| == |yss[i]|
    ensures |Flatten(xss[..m])| == |Flatten(yss[..m])|
  {
    if m > 0 {
      FlattenSameShape(xss, yss, m - 1);
      FlattenSnoc(xss, m - 1);
      FlattenSnoc(yss, m - 1);
    }
  }

  /** Every tree has at least one layer. */
  predicate NoEmptyTree<N>(trees: seq<seq<seq<N>>>) {
    forall n :: 0 <= n < |trees| ==> trees[n] != []
  }

  /** `max(len(layer) for layer in tree)`: the size of the widest layer. */
  function TreeWidth<N>(tree: seq<seq<N>>): (w: nat)
    requires tree != []
    ensures forall i :: 0 <= i < |tree| ==> |tree[i]| <= w
    ensures exists i :: 0 <= i < |tree| && |tree[i]| == w
    decreases |tree|
  {
    if |tree| == 1 then |tree[0]|
    else
      var rest := TreeWidth(tree[1..]);
      assert forall i :: 1 <= i < |tree| ==> tree[i] == tree[1..][i - 1];
      if |tree[0]| >= rest then |tree[0]| else rest
  }

  /** `tree_widths`: the width of each tree. */
  function Widths<N>(trees: seq<seq<seq<N>>>): (ws: seq<nat>)
    requires NoEmptyTree(trees)
    ensures |ws| == |trees|
    decreases |trees|
  {
    if trees == [] then [] else Widths(trees[..|trees| - 1]) + [TreeWidth(trees[|trees| - 1])]
  }

  /** The `n`-th width is the width of the `n`-th tree. */
  lemma {:induction false} WidthAt<N>(trees: seq<seq<seq<N>>>, n: nat)
    requires NoEmptyTree(trees) && n < |trees|
    ensures Widths(trees)[n] == TreeWidth(trees[n])
    decreases |trees|
  {
    var init := trees[..|trees| - 1];
    if n < |trees| - 1 {
      assert init[n] == trees[n];
      WidthAt(init, n);
    }
  }

  function Sum(ws: seq<nat>): nat
    decreases |ws|
  {
    if ws == [] then 0 else Sum(ws[..|ws| - 1]) + ws[|ws| - 1]
  }

  lemma SumSnoc(ws: seq<nat>, n: nat)
    requires n < |ws|
    ensures Sum(ws[..n + 1]) == Sum(ws[..n]) + ws[n]
  {
    assert ws[..n + 1][..n] == ws[..n];
  }

  /** Sums of longer prefixes are at least as large. */
  lemma {:induction false} SumPrefixMonotone(ws: seq<nat>, m: nat, m': nat)
    requires m <= m' <= |ws|
    ensures Sum(ws[..m]) <= Sum(ws[..m'])
    decreases m' - m
  {
    if m < m' {
      SumSnoc(ws, m);
      SumPrefixMonotone(ws, m + 1, m');
    }
  }

  /** `x_offset`: a column is kept free for orphans when there are any. */
  function XOffset<N>(orphans: seq<N>): int {
    if |orphans| != 0 then LAYOUT_NODE_OFFSET_X else 0
  }

  /** Positions of the first `count` nodes of layer `i` of a tree drawn at `(x0, y0)`. */
  function LayerPositions(i: nat, count: nat, x0: int, y0: int): seq<Pos> {
    seq(count, j => Pos(i * 80 + x0, j * 80 + y0))
  }

  /** The position of every node of a tree, layer by layer. */
  function TreeGrid<N>(tree: seq<seq<N>>, x0: int, y0: int): (g: seq<seq<Pos>>)
    ensures |g| == |tree| && forall i :: 0 <= i < |tree| ==> |g[i]| == |tree[i]|
  {
    seq(|tree|, i requires 0 <= i < |tree| => LayerPositions(i, |tree[i]|, x0, y0))
  }

  /** The vertical offset of tree `n`: the widths of the trees above it. */
  function YOffset(ws: seq<nat>, n: nat): int
    requires n <= |ws|
  {
    Sum(ws[..n]) * 80
  }

  /** Each tree's positions, the `n`-th tree drawn below the earlier ones. */
  function ForestGrid<N>(trees: seq<seq<seq<N>>>, ws: seq<nat>, x0: int): (g: seq<seq<Pos>>)
    requires |ws| == |trees|
    ensures |g| == |trees|
  {
    seq(|trees|, n requires 0 <= n < |trees| => Flatten(TreeGrid(trees[n], x0, YOffset(ws, n))))
  }

  /** Each tree's nodes, layer by layer. */
  function TreeLists<N>(trees: seq<seq<seq<N>>>): (l: seq<seq<N>>)
    ensures |l| == |trees|
  {
    seq(|trees|, n requires 0 <= n < |trees| => Flatten(trees[n]))
  }

  function OrphanPositions(count: nat): (r: seq<Pos>)
    ensures |r| == count
  {
    seq(count, k => Pos(0, k * 80))
  }

  /** A tree's grid has as many positions as the tree has nodes, and the
      `j`-th node of layer `i` has the position `(80 i + x0, 80 j + y0)`. */
  lemma TreeNodeAt<N>(tree: seq<seq<N>>, x0: int, y0: int, i: nat, j: nat)
    requires i < |tree| && j < |tree[i]|
    ensures var k := |Flatten(tree[..i])| + j;
      && |Flatten(TreeGrid(tree, x0, y0))| == |Flatten(tree)|
      && k < |Flatten(tree)| && Flatten(tree)[k] == tree[i][j]
      && Flatten(TreeGrid(tree, x0, y0))[k] == Pos(i * 80 + x0, j * 80 + y0)
  {
    var grid := TreeGrid(tree, x0, y0);
    var k := |Flatten(tree[..i])| + j;
    FlattenElement(tree, i, j, k, tree[i][j]);
    assert |Flatten(grid[..i])| == |Flatten(tree[..i])| by {
      FlattenSameShape(grid, tree, i);
    }
    assert grid[i][j] == Pos(i * 80 + x0, j * 80 + y0);
    FlattenElement(grid, i, j, k, grid[i][j]);
    assert |Flatten(grid)| == |Flatten(tree)| by {
      FlattenSameShape(grid, tree, |tree|);
      assert grid[..|tree|] == grid && tree[..|tree|] == tree;
    }
  }

  /** The forest's grid has as many positions as the trees have nodes, prefix by prefix. */
  lemma GridMatchesNodes<N>(trees: seq<seq<seq<N>>>, ws: seq<nat>, x0: int, m: nat)
    requires |ws| == |trees| && m <= |trees|
    ensures |Flatten(ForestGrid(trees, ws, x0)[..m])| == |Flatten(TreeLists(trees)[..m])|
  {
    var g, l := ForestGrid(trees, ws, x0), TreeLists(trees);
    forall n | 0 <= n < |trees|
      ensures |g[n]| == |l[n]|
    {
      var grid := TreeGrid(trees[n], x0, YOffset(ws, n));
      FlattenSameShape(grid, trees[n], |trees[n]|);
      assert grid[..|grid|] == grid && trees[n][..|trees[n]|] == trees[n];
    }
    FlattenSameShape(g, l, m);
  }

  /** Where every component goes: the trees' nodes, then the orphans' column. */
  function Positions<N>(trees: seq<seq<seq<N>>>, orphans: seq<N>): seq<Pos>
    requires NoEmptyTree(trees)
  {
    Flatten(ForestGrid(trees, Widths(trees), XOffset(orphans))) + OrphanPositions(|orphans|)
  }

  /** `nodes`: every tree's nodes layer by layer, then the orphans. */
  function Nodes<N>(trees: seq<seq<seq<N>>>, orphans: seq<N>): seq<N> {
    Flatten(TreeLists(trees)) + orphans
  }

  /** There is one position per node. */
  lemma PositionsMatchNodes<N>(trees: seq<seq<seq<N>>>, orphans: seq<N>)
    requires NoEmptyTree(trees)
    ensures |Positions(trees, orphans)| == |Nodes(trees, orphans)|
  {
    var ws, x0 := Widths(trees), XOffset(orphans);
    GridMatchesNodes(trees, ws, x0, |trees|);
    assert ForestGrid(trees, ws, x0)[..|trees|] == ForestGrid(trees, ws, x0);
    assert TreeLists(trees)[..|trees|] == TreeLists(trees);
  }

  /** `[CodeNodeComponent(i, node, pos) for i, (node, pos) in enumerate(zip(nodes, positions))]`. */
  function Number<N>(positions: seq<Pos>, nodes: seq<N>): (c: seq<Component<N>>)
    requires |positions| == |nodes|
    ensures |c| == |nodes|
    ensures forall k :: 0 <= k < |c| ==> c[k] == Component(k, Some(positions[k]), nodes[k])
  {
    seq(|nodes|, k requires 0 <= k < |nodes| => Component(k, Some(positions[k]), nodes[k]))
  }

  /** The components `init_nodes_and_links` creates: numbered in order, trees
      first (layer by layer), then the orphans in a column of their own; a
      tree without layers is the `max()` error. */
  function Layout<N>(trees: seq<seq<seq<N>>>, orphans: seq<N>): (r: Result<seq<Component<N>>, LayoutError>)
    ensures r.Err? <==> !NoEmptyTree(trees)
    ensures r.Ok? ==> |r.value| == |Nodes(trees, orphans)|
    ensures r.Ok? ==> forall k :: 0 <= k < |r.value| ==>
      r.value[k].id == k && r.value[k].pos.Some? && r.value[k].node == Nodes(trees, orphans)[k]
  {
    if !NoEmptyTree(trees) then Err(EmptyTree)
    else
      PositionsMatchNodes(trees, orphans);
      Ok(Number(Positions(trees, orphans), Nodes(trees, orphans)))
  }

  /** Component `k` shows the `k`-th node at the `k`-th position. */
  lemma LayoutAt<N>(trees: seq<seq<seq<N>>>, orphans: seq<N>, c: seq<Component<N>>, k: nat, p: Pos, v: N)
    requires NoEmptyTree(trees) && Layout(trees, orphans) == Ok(c)
    requires k < |Nodes(trees, orphans)| && Nodes(trees, orphans)[k] == v
    requires k < |Positions(trees, orphans)| && Positions(trees, orphans)[k] == p
    ensures k < |c| && c[k] == Component(k, Some(p), v)
  {
    PositionsMatchNodes(trees, orphans);
  }

  lemma PrefixAt<T>(a: seq<T>, b: seq<T>, k: nat)
    requires k < |a|
    ensures (a + b)[k] == a[k]
  {
  }

  /** Index of the `j`-th node of layer `i` of tree `n` among all components. */
  function NodeIndex<N>(trees: seq<seq<seq<N>>>, n: nat, i: nat, j: nat): nat
    requires n < |trees| && i < |trees[n]|
  {
    |Flatten(TreeLists(trees)[..n])| + |Flatten(trees[n][..i])| + j
  }

  /** In the forest's lists, `NodeIndex` finds the node and its position. */
  lemma ForestNodeAt<N>(trees: seq<seq<seq<N>>>, ws: seq<nat>, x0: int, n: nat, i: nat, j: nat)
    requires |ws| == |trees|
    requires n < |trees| && i < |trees[n]| && j < |trees[n][i]|
    ensures var k := NodeIndex(trees, n, i, j);
      && k < |Flatten(TreeLists(trees))|
      && Flatten(TreeLists(trees))[k] == trees[n][i][j]
      && k < |Flatten(ForestGrid(trees, ws, x0))|
      && Flatten(ForestGrid(trees, ws, x0))[k]
         == Pos(i * 80 + x0, j * 80 + YOffset(ws, n))
  {
    var lists, grid := TreeLists(trees), ForestGrid(trees, ws, x0);
    var y0 := YOffset(ws, n);
    var p := Pos(i * 80 + x0, j * 80 + y0);
    var inTree := |Flatten(trees[n][..i])| + j;
    var treeGrid := TreeGrid(trees[n], x0, y0);
    assert lists[n] == Flatten(trees[n]);
    assert grid[n] == Flatten(treeGrid);
    assert inTree < |Flatten(trees[n])| && Flatten(trees[n])[inTree] == trees[n][i][j]
        && inTree < |Flatten(treeGrid)| && Flatten(treeGrid)[inTree] == p by {
      TreeNodeAt(trees[n], x0, y0, i, j);
    }
    var k := NodeIndex(trees, n, i, j);
    assert k == |Flatten(lists[..n])| + inTree;
    FlattenElement(lists, n, inTree, k, trees[n][i][j]);
    assert |Flatten(grid[..n])| == |Flatten(lists[..n])| by {
      GridMatchesNodes(trees, ws, x0, n);
    }
    FlattenElement(grid, n, inTree, k, p);
  }

  /** The node at layer `i`, position `j` of tree `n` is the component numbered
      `NodeIndex`, placed at `(80 i + x_offset, 80 j + y_offset)`, where
      `y_offset` is 80 times the widths `ws` of the earlier trees. */
  lemma LayoutOfTreeNode<N>(trees: seq<seq<seq<N>>>, orphans: seq<N>, c: seq<Component<N>>,
                            ws: seq<nat>, x0: int, n: nat, i: nat, j: nat)
    requires Layout(trees, orphans) == Ok(c)
    requires ws == Widths(trees) && x0 == XOffset(orphans)
    requires n < |trees| && i < |trees[n]| && j < |trees[n][i]|
    ensures NodeIndex(trees, n, i, j) < |c|
    ensures c[NodeIndex(trees, n, i, j)]
      == Component(NodeIndex(trees, n, i, j),
                   Some(Pos(i * 80 + x0, j * 80 + YOffset(ws, n))),
                   trees[n][i][j])
  {
    var k := NodeIndex(trees, n, i, j);
    var p := Pos(i * 80 + x0, j * 80 + YOffset(ws, n));
    PositionsMatchNodes(trees, orphans);
    ForestNodeAt(trees, ws, x0, n, i, j);
    PrefixAt(Flatten(TreeLists(trees)), orphans, k);
    PrefixAt(Flatten(ForestGrid(trees, ws, x0)), OrphanPositions(|orphans|), k);
    LayoutAt(trees, orphans, c, k, p, trees[n][i][j]);
  }

  /** Orphan `k` is the component numbered after all tree nodes, at `(0, 80 k)`. */
  lemma LayoutOfOrphan<N>(trees: seq<seq<seq<N>>>, orphans: seq<N>, c: seq<Component<N>>, k: nat)
    requires NoEmptyTree(trees) && Layout(trees, orphans) == Ok(c) && k < |orphans|
    ensures |Flatten(TreeLists(trees))| + k < |c|
    ensures c[|Flatten(TreeLists(trees))| + k]
      == Component(|Flatten(TreeLists(trees))| + k, Some(Pos(0, k * 80)), orphans[k])
  {
    var idx := |Flatten(TreeLists(trees))| + k;
    var p := Pos(0, k * 80);
    PositionsMatchNodes(trees, orphans);
    OrphanAt(trees, orphans, k, idx, p);
    LayoutAt(trees, orphans, c, idx, p, orphans[k]);
  }

  /** Orphan `k` follows the trees' nodes in both lists. */
  lemma OrphanAt<N>(trees: seq<seq<seq<N>>>, orphans: seq<N>, k: nat, idx: nat, p: Pos)
    requires NoEmptyTree(trees) && k < |orphans|
    requires idx == |Flatten(TreeLists(trees))| + k && p == Pos(0, k * 80)
    ensures idx < |Nodes(trees, orphans)| && Nodes(trees, orphans)[idx] == orphans[k]
    ensures idx < |Positions(trees, orphans)| && Positions(trees, orphans)[idx] == p
  {
    var ws, x0 := Widths(trees), XOffset(orphans);
    var treeNodes, treePositions := Flatten(TreeLists(trees)), Flatten(ForestGrid(trees, ws, x0));
    assert |treePositions| == |treeNodes| by {
      GridMatchesNodes(trees, ws, x0, |trees|);
      assert ForestGrid(trees, ws, x0)[..|trees|] == ForestGrid(trees, ws, x0);
      assert TreeLists(trees)[..|trees|] == TreeLists(trees);
    }
    assert Nodes(trees, orphans) == treeNodes + orphans;
    assert Positions(trees, orphans) == treePositions + OrphanPositions(|orphans|);
  }

  /** Nodes of different trees never share a row: each tree occupies its own
      band of rows, as wide as its widest layer, below the earlier trees. */
  lemma TreesDoNotOverlap<N>(trees: seq<seq<seq<N>>>, n: nat, i: nat, j: nat, n': nat, i': nat, j': nat)
    requires NoEmptyTree(trees)
    requires n < n' < |trees|
    requires i < |trees[n]| && j < |trees[n][i]| && i' < |trees[n']| && j' < |trees[n'][i']|
    ensures j * 80 + YOffset(Widths(trees), n) < j' * 80 + YOffset(Widths(trees), n')
  {
    var ws := Widths(trees);
    WidthAt(trees, n);
    SumSnoc(ws, n);
    SumPrefixMonotone(ws, n + 1, n');
  }

  /** Places the positions of one layer, `for j, node in enumerate(layer)`. */
  method AppendLayer(positions: seq<Pos>, i: nat, count: nat, x0: int, y0: int) returns (r: seq<Pos>)
    ensures r == positions + LayerPositions(i, count, x0, y0)
  {
    r := positions;
    var j := 0;
    while j < count
      invariant 0 <= j <= count
      invariant r == positions + LayerPositions(i, j, x0, y0)
    {
      r := r + [Pos(i * 80 + x0, j * 80 + y0)];
      j := j + 1;
    }
  }

  /** Places the positions of one tree, `for i, layer in enumerate(tree)`. */
  method AppendTree<N>(positions: seq<Pos>, tree: seq<seq<N>>, x0: int, y0: int) returns (r: seq<Pos>)
    ensures r == positions + Flatten(TreeGrid(tree, x0, y0))
  {
    r := positions;
    var i := 0;
    ghost var grid := TreeGrid(tree, x0, y0);
    while i < |tree|
      invariant 0 <= i <= |tree|
      invariant r == positions + Flatten(grid[..i])
    {
      r := AppendLayer(r, i, |tree[i]|, x0, y0);
      FlattenSnoc(grid, i);
      i := i + 1;
    }
    assert grid[..i] == grid;
  }

  /** The positions loop over the trees, each drawn below the earlier ones. */
  method PlaceTrees<N>(trees: seq<seq<seq<N>>>, ws: seq<nat>, xOffset: int) returns (positions: seq<Pos>)
    requires |ws| == |trees|
    ensures positions == Flatten(ForestGrid(trees, ws, xOffset))
  {
    positions := [];
    var yOffset := 0;
    ghost var grid := ForestGrid(trees, ws, xOffset);
    var n := 0;
    while n < |trees|
      invariant 0 <= n <= |trees|
      invariant yOffset == YOffset(ws, n)
      invariant positions == Flatten(grid[..n])
    {
      positions := AppendTree(positions, trees[n], xOffset, yOffset);
      FlattenSnoc(grid, n);
      SumSnoc(ws, n);
      yOffset := yOffset + ws[n] * 80;
      n := n + 1;
    }
    assert grid[..n] == grid;
  }

  /** The orphans' column, `for i in range(len(orphans))`. */
  method PlaceOrphans(positions: seq<Pos>, count: nat) returns (r: seq<Pos>)
    ensures r == positions + OrphanPositions(count)
  {
    r := positions;
    var k := 0;
    while k < count
      invariant 0 <= k <= count
      invariant r == positions + OrphanPositions(k)
    {
      r := r + [Pos(0, k * 80)];
      k := k + 1;
    }
  }

  /** The nodes loop, `for tree in trees: nodes.extend(...)`. */
  method CollectNodes<N>(trees: seq<seq<seq<N>>>) returns (nodes: seq<N>)
    ensures nodes == Flatten(TreeLists(trees))
  {
    nodes := [];
    ghost var lists := TreeLists(trees);
    var n := 0;
    while n < |trees|
      invariant 0 <= n <= |trees|
      invariant nodes == Flatten(lists[..n])
    {
      nodes := nodes + Flatten(trees[n]);
      FlattenSnoc(lists, n);
      n := n + 1;
    }
    assert lists[..n] == lists;
  }

  /** `init_nodes_and_links` without the links: the widths, the positions,
      the nodes, and the numbered components. */
  method InitNodesAndLinks<N>(trees: seq<seq<seq<N>>>, orphans: seq<N>) returns (r: Result<seq<Component<N>>, LayoutError>)
    ensures r == Layout(trees, orphans)
  {
    var xOffset := if |orphans| != 0 then LAYOUT_NODE_OFFSET_X else 0;
    if !NoEmptyTree(trees) {
      return Err(EmptyTree);
    }
    var ws := Widths(trees);
    var positions := PlaceTrees(trees, ws, xOffset);
    positions := PlaceOrphans(positions, |orphans|);
    var nodes := CollectNodes(trees);
    nodes := nodes + orphans;
    assert positions == Positions(trees, orphans) && nodes == Nodes(trees, orphans);
    PositionsMatchNodes(trees, orphans);
    r := Ok(Number(positions, nodes));
  }

  /** The node components of a viewer and the nodes of its collection. */
  class CodeNodeViewer<N> {
    var collectionNodes: seq<N>
    var nodeComponents: seq<Component<N>>

    /** Every component's id is its index in `node_components`. */
    predicate IdsAreIndices()
      reads this
    {
      forall k :: 0 <= k < |nodeComponents| ==> nodeComponents[k].id == k
    }

    constructor (nodes: seq<N>)
      ensures collectionNodes == nodes && nodeComponents == []
      ensures IdsAreIndices()
    {
      collectionNodes := nodes;
      nodeComponents := [];
    }

    /** `CodeNodeViewer(app, node_collection)`: the fields of `__init__` and
        then its call of `init_nodes_and_links`, so a new viewer already holds
        the laid-out components, or construction fails for a tree without
        layers. */
    static method New(nodes: seq<N>, trees: seq<seq<seq<N>>>, orphans: seq<N>) returns (r: Result<CodeNodeViewer<N>, LayoutError>)
      ensures r.Err? <==> !NoEmptyTree(trees)
      ensures r.Err? ==> r.error == EmptyTree
      ensures r.Ok? ==> Layout(trees, orphans).Ok?
      ensures r.Ok? ==> fresh(r.value) && r.value.collectionNodes == nodes
      ensures r.Ok? ==> r.value.nodeComponents == Layout(trees, orphans).value && r.value.IdsAreIndices()
    {
      var viewer := new CodeNodeViewer(nodes);
      var init := viewer.InitNodes(trees, orphans);
      if init.Fail? {
        return Err(init.error);
      }
      r := Ok(viewer);
    }

    /** Lays out the collection's trees and orphans as new components; a
        tree without layers fails before anything is replaced. */
    method InitNodes(trees: seq<seq<seq<N>>>, orphans: seq<N>) returns (r: Outcome<LayoutError>)
      modifies this`nodeComponents
      ensures r.Fail? <==> !NoEmptyTree(trees)
      ensures r.Fail? ==> r.error == EmptyTree && nodeComponents == old(nodeComponents)
      ensures r.Pass? ==> nodeComponents == Layout(trees, orphans).value
      ensures r.Pass? ==> IdsAreIndices()
    {
      var layout := InitNodesAndLinks(trees, orphans);
      if layout.Err? {
        return Fail(layout.error);
      }
      nodeComponents := layout.value;
      r := Pass;
    }

    /** `create_node_component(node, node_pos)`: the node joins the collection
        and gets the next free id. */
    method CreateNodeComponent(node: N, pos: Option<Pos>)
      modifies this`collectionNodes, this`nodeComponents
      ensures collectionNodes == old(collectionNodes) + [node]
      ensures nodeComponents == old(nodeComponents) + [Component(|old(nodeComponents)|, pos, node)]
      ensures old(IdsAreIndices()) ==> IdsAreIndices()
    {
      collectionNodes := collectionNodes + [node];
      var index := |nodeComponents|;
      nodeComponents := nodeComponents + [Component(index, pos, node)];
    }
  }
}
