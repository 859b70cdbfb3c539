/**
 The out-pointer lists of the Thompson construction as linked cells.

 Each cell names one dangling transition slot and links to the next cell.  The
 cells live in an arena addressed by index, NIL ending a chain, so that
 appending one list to another relinks the last cell of the first in place, as
 the construction does.
 */
module OutPointers {
  import opened Automaton

  /** The index that ends a chain. */
  const NIL: int := -1

  /** One cell of an out-pointer list: the slot it names and the index of the next cell. */
  datatype Cell = Cell(slot: Slot, next: int)

  /** Every index of `xs` names a cell of the arena. */
  ghost predicate Indices(cells: seq<Cell>, xs: seq<int>)
  {
    forall k :: 0 <= k < |xs| ==> 0 <= xs[k] < |cells|
  }

  /**
   The chain starting at `head` visits exactly the cells `xs`, in order and each
   once: every cell links to the next one and the last links to NIL.
   */
  ghost predicate IsList(cells: seq<Cell>, head: int, xs: seq<int>)
  {
    && Indices(cells, xs)
    && Distinct(xs)
    && head == (if xs == [] then NIL else xs[0])
    && (forall k :: 0 <= k < |xs| - 1 ==> cells[xs[k]].next == xs[k + 1])
    && (xs != [] ==> cells[xs[|xs| - 1]].next == NIL)
  }

  /** The slots the cells `xs` name, in order. */
  ghost function SlotsOf(cells: seq<Cell>, xs: seq<int>): seq<Slot>
    requires Indices(cells, xs)
  {
    if xs == [] then [] else [cells[xs[0]].slot] + SlotsOf(cells, xs[1..])
  }

  /** Reading the slots of two chains one after the other. */
  lemma {:induction false} SlotsOfConcat(cells: seq<Cell>, xs: seq<int>, ys: seq<int>)
    requires Indices(cells, xs) && Indices(cells, ys)
    ensures Indices(cells, xs + ys)
    ensures SlotsOf(cells, xs + ys) == SlotsOf(cells, xs) + SlotsOf(cells, ys)
  {
    IndicesConcat(cells, xs, ys);
    if xs == [] {
      assert xs + ys == ys;
    } else {
      var zs := xs + ys;
      assert zs[0] == xs[0];
      assert zs[1..] == xs[1..] + ys;
      SlotsOfConcat(cells, xs[1..], ys);
    }
  }

  lemma IndicesConcat(cells: seq<Cell>, xs: seq<int>, ys: seq<int>)
    requires Indices(cells, xs) && Indices(cells, ys)
    ensures Indices(cells, xs + ys)
  {
    forall k | 0 <= k < |xs + ys| ensures 0 <= (xs + ys)[k] < |cells| {
      if k < |xs| {
        assert (xs + ys)[k] == xs[k];
      } else {
        assert (xs + ys)[k] == ys[k - |xs|];
      }
    }
  }

  /** Relinking cells leaves the slots they name as they were. */
  lemma {:induction false} SlotsOfRelinked(cells: seq<Cell>, cells': seq<Cell>, xs: seq<int>)
    requires |cells'| == |cells| && Indices(cells, xs)
    requires forall i :: 0 <= i < |cells| ==> cells'[i].slot == cells[i].slot
    ensures SlotsOf(cells', xs) == SlotsOf(cells, xs)
  {
    if xs != [] {
      SlotsOfRelinked(cells, cells', xs[1..]);
    }
  }

  /**
   Linking the last cell of the chain `xs` to the chain `ys` makes one chain
   visiting both, naming the slots of `xs` and then those of `ys`.
   */
  lemma LinkKeepsList(cells: seq<Cell>, xs: seq<int>, ys: seq<int>, more: int)
    requires xs != [] && IsList(cells, xs[0], xs) && IsList(cells, more, ys)
    requires forall j, k :: 0 <= j < |xs| && 0 <= k < |ys| ==> xs[j] != ys[k]
    ensures var last := xs[|xs| - 1];
      var linked := cells[last := cells[last].(next := more)];
      && IsList(linked, xs[0], xs + ys)
      && SlotsOf(linked, xs + ys) == SlotsOf(cells, xs) + SlotsOf(cells, ys)
  {
    var last := xs[|xs| - 1];
    var linked := cells[last := cells[last].(next := more)];
    var zs := xs + ys;
    forall a | a in xs ensures a !in ys {
      var j :| 0 <= j < |xs| && xs[j] == a;
    }
    DistinctConcat(xs, ys);
    forall k | 0 <= k < |zs| - 1 ensures linked[zs[k]].next == zs[k + 1] {
      if k < |xs| - 1 {
        assert zs[k] == xs[k] != last;
      } else if k == |xs| - 1 {
        assert ys != [] && zs[k + 1] == ys[0];
      } else {
        assert zs[k] == ys[k - |xs|] != last;
      }
    }
    if ys != [] {
      assert zs[|zs| - 1] == ys[|ys| - 1] != last;
    }
    SlotsOfConcat(cells, xs, ys);
    SlotsOfRelinked(cells, linked, zs);
  }

  class PointerArena {
    /** Every cell allocated so far, addressed by index. */
    var cells: seq<Cell>

    constructor ()
      ensures cells == []
    {
      cells := [];
    }

    /** A fresh one-cell list naming `slot`, as each new fragment's out-pointer list starts. */
    method NewList(slot: Slot) returns (head: int)
      modifies this
      ensures cells == old(cells) + [Cell(slot, NIL)] && head == old(|cells|)
      ensures IsList(cells, head, [head]) && SlotsOf(cells, [head]) == [slot]
    {
      head := |cells|;
      cells := cells + [Cell(slot, NIL)];
    }

    /**
     Append the list at `more` to the list at `outs` by walking to the last cell
     of `outs` and linking it to `more`; an empty first list yields the second.
     The result lists the slots of `outs` and then those of `more`, and no cell
     other than the last one of `outs` changes.
     */
    method AppendOutPointers(outs: int, more: int, ghost xs: seq<int>, ghost ys: seq<int>) returns (r: int)
      requires IsList(cells, outs, xs) && IsList(cells, more, ys)
      requires forall j, k :: 0 <= j < |xs| && 0 <= k < |ys| ==> xs[j] != ys[k]
      modifies this
      ensures IsList(cells, r, xs + ys)
      ensures SlotsOf(cells, xs + ys) == SlotsOf(old(cells), xs) + SlotsOf(old(cells), ys)
      ensures xs == [] ==> r == more && cells == old(cells)
      ensures xs != [] ==>
        && r == outs
        && cells == old(cells)[xs[|xs| - 1] := old(cells)[xs[|xs| - 1]].(next := more)]
    {
      if outs == NIL {
        assert xs == [] && xs + ys == ys;
        return more;
      }
      var p := outs;
      ghost var k := 0;
      while cells[p].next != NIL
        invariant 0 <= k < |xs| && p == xs[k]
        invariant k < |xs| - 1 ==> cells[p].next == xs[k + 1] >= 0
        decreases |xs| - k
      {
        p := cells[p].next;
        k := k + 1;
      }
      LinkKeepsList(cells, xs, ys, more);
      cells := cells[p := cells[p].(next := more)];
      r := outs;
    }
  }
}
