/** The doubly linked list of src/zip_lru_list.c, most recently used cell first. */
module LruList {
  import opened Sequences

  class Cell {
    var prev: Cell?
    var next: Cell?
    const data: object

    constructor (data: object)
      ensures this.data == data && prev == next == null
    {
      this.data := data;
      prev, next := null, null;
    }
  }

  class LruList {
    var header: Cell?
    var tail: Cell?
    var count: int
    /** The cells from the header to the tail. */
    ghost var cells: seq<Cell>

    ghost function Nth(i: int): Cell?
      reads this
    {
      if 0 <= i < |cells| then cells[i] else null
    }

    /** Both chains of pointers run through exactly `cells`. */
    ghost predicate Valid()
      reads this, cells
    {
      && count == |cells|
      && header == Nth(0)
      && tail == Nth(|cells| - 1)
      && (forall i {:trigger cells[i].prev} :: 0 <= i < |cells| ==> cells[i].prev == Nth(i - 1))
      && (forall i {:trigger cells[i].next} :: 0 <= i < |cells| ==> cells[i].next == Nth(i + 1))
      && forall i, j :: 0 <= i < j < |cells| ==> cells[i] != cells[j]
    }

    constructor ()
      ensures Valid() && cells == []
    {
      header, tail, count, cells := null, null, 0, [];
    }

    method Insert(data: object) returns (node: Cell)
      requires Valid()
      modifies this, cells
      ensures Valid() && fresh(node) && node.data == data
      ensures cells == [node] + old(cells)
    {
      node := new Cell(data);
      if header == null && tail == null {
        header := node;
        tail := node;
      } else {
        node.next := header;
        header.prev := node;
        header := node;
      }
      count := count + 1;
      cells := [node] + cells;
    }

    method MoveToFirst(node: Cell, ghost at: nat)
      requires Valid() && at < |cells| && cells[at] == node
      modifies this, cells
      ensures Valid()
      ensures cells == [node] + Without(old(cells), at)
    {
      if node == header {
        return;
      }
      node.prev.next := node.next;
      if node == tail {
        tail := node.prev;
      } else {
        node.next.prev := node.prev;
      }
      node.prev := null;
      node.next := header;
      header.prev := node;
      header := node;
      cells := [node] + Without(cells, at);
    }

    method Delete(node: Cell, ghost at: nat)
      requires Valid() && at < |cells| && cells[at] == node
      modifies this, cells
      ensures Valid()
      ensures cells == Without(old(cells), at)
    {
      if node == header {
        if header.next != null {
          header.next.prev := null;
          header := header.next;
        } else {
          header := null;
          tail := null;
        }
      } else if node == tail {
        node.prev.next := null;
        tail := node.prev;
      } else {
        node.prev.next := node.next;
        node.next.prev := node.prev;
      }
      count := count - 1;
      cells := Without(cells, at);
    }

    /** Drops the least recently used cell and returns its data. */
    method RemoveTail() returns (data: object?)
      requires Valid()
      modifies this, cells
      ensures Valid()
      ensures old(cells) == [] ==> data == null && cells == []
      ensures old(cells) != [] ==> data == old(cells)[|old(cells)| - 1].data && cells == old(cells)[..|old(cells)| - 1]
    {
      if tail == null {
        return null;
      }
      var unpopular := tail;
      var prev := unpopular.prev;
      if prev != null {
        tail := prev;
        prev.next := null;
      } else {
        header := null;
        tail := null;
      }
      count := count - 1;
      data := unpopular.data;
      cells := cells[..|cells| - 1];
    }
  }
}
