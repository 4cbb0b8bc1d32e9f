/**
 * The doubly linked list: nodes with a forward link and a non-owning back link, and a
 * container that keeps `head`, `tail` and `size` and offers indexed read and write, append,
 * positional insert and delete, a lookup that scans from the nearer end, and value search
 * from either end.
 *
 * Each list operation is proved against the `ListSpec` function for that operation (`GetItem`
 * against `Get`, `SetItem` against `Set`, `Index` against `IndexOf`, and so on), which gives
 * what it does to the sequence of values; the node lookup is proved against the ghost
 * sequence of nodes. The object invariant `Valid()` ties the node chain to that sequence, in
 * forward order.
 */
module DoubleLinked {
  import opened Outcomes
  import ListSpec

  /** A node: a value, an owning forward link and a non-owning back link. */
  class DoubleNode<T> {
    var data: T
    var next: DoubleNode?<T>
    var prev: DoubleNode?<T>

    /** A node holding `data` with the given links; the list always passes two absent ones. */
    constructor (data: T, next: DoubleNode?<T>, prev: DoubleNode?<T>)
      ensures this.data == data && this.next == next && this.prev == prev
    {
      this.data := data;
      this.next := next;
      this.prev := prev;
    }

    /** Reading the back link calls the stored reference, so an absent one raises TypeError. */
    function PrevNode(): (r: Result<DoubleNode<T>>)
      reads this
      ensures r.Ok? <==> prev != null
      ensures r.Ok? ==> r.value == prev
      ensures r.Err? ==> r.error == TypeError
    {
      if prev == null then Err(TypeError) else Ok(prev)
    }

    /**
     * Writing the back link stores a reference to `value`, or clears it when `value` is
     * absent; the value and the forward link are untouched.
     */
    method SetPrev(value: DoubleNode?<T>)
      modifies this
      ensures prev == value && data == old(data) && next == old(next)
      ensures value != null ==> PrevNode() == Ok(value)
      ensures value == null ==> PrevNode() == Err(TypeError)
    {
      prev := value;
    }
  }

  class DoubleLinkedList<T(==)> {
    var head: DoubleNode?<T>
    var tail: DoubleNode?<T>
    var size: nat
    /** The nodes reachable from `head` by forward links, in order. */
    ghost var nodes: seq<DoubleNode<T>>
    /** The values those nodes hold, in the same order. */
    ghost var elements: seq<T>

    /**
     * The structural invariant: `size` counts the chain, `head`/`tail` are its ends (both
     * absent when it is empty), forward and back links agree on every linked pair, the first
     * node has no back link and the last no forward link. That no node occurs twice follows
     * (`DistinctPositions`).
     */
    ghost predicate Valid()
      reads this, nodes
    {
      size == |nodes| && |elements| == |nodes| &&
      (forall i :: 0 <= i < |nodes| ==> nodes[i].data == elements[i]) &&
      (|nodes| == 0 ==> head == null && tail == null) &&
      (|nodes| > 0 ==>
        head == nodes[0] && tail == nodes[|nodes| - 1] &&
        head.prev == null && tail.next == null) &&
      (forall i :: 0 <= i < |nodes| - 1 ==> nodes[i].next == nodes[i + 1]) &&
      (forall i :: 0 < i < |nodes| ==> nodes[i].prev == nodes[i - 1])
    }

    /** The forward chain has no repeated node: following it from two positions never meets. */
    lemma {:induction false} DistinctPositions(a: nat, b: nat)
      requires Valid()
      requires a < b < |nodes|
      ensures nodes[a] != nodes[b]
      decreases |nodes| - b
    {
      assert nodes[a].next == nodes[a + 1];
      if b < |nodes| - 1 {
        DistinctPositions(a + 1, b + 1);
      }
    }

    /** The node at position `k` is at no other position. */
    lemma OnlyAt(k: nat)
      requires Valid()
      requires k < |nodes|
      ensures forall j :: 0 <= j < |nodes| && j != k ==> nodes[j] != nodes[k]
    {
      forall j | 0 <= j < |nodes| && j != k
        ensures nodes[j] != nodes[k]
      {
        if j < k {
          DistinctPositions(j, k);
        } else {
          DistinctPositions(k, j);
        }
      }
    }

    /** An empty list. */
    constructor ()
      ensures Valid() && elements == []
    {
      head, tail, size := null, null, 0;
      nodes, elements := [], [];
    }

    /** `len(list)`: the stored size, which is the number of values held. */
    function Length(): (n: nat)
      reads this, nodes
      requires Valid()
      ensures n == |elements|
      ensures n == 0 <==> head == null
    {
      size
    }

    /**
     * The lookup shared by read, write, insert and delete: the node at `index`. Index 0 and
     * index len - 1 are answered from `head` and `tail`; otherwise the scan runs forward from
     * `head` when `index <= len / 2` and backward from `tail` when it is larger.
     */
    method SearchFromStartOrEnd(index: int) returns (r: Result<DoubleNode<T>>)
      requires Valid()
      ensures 0 <= index < |nodes| ==> r == Ok(nodes[index])
      ensures !(0 <= index < |nodes|) ==> r == Err(IndexError)
    {
      if index < 0 || index >= Length() {
        return Err(IndexError);
      }
      if index == 0 {
        return Ok(head);
      } else if index == Length() - 1 {
        return Ok(tail);
      }
      var mid := Length() / 2;
      if index <= mid {
        var node := head;
        var i := 0;
        while i != index
          invariant 0 <= i <= index
          invariant node == nodes[i]
          decreases index - i
        {
          node := node.next;
          i := i + 1;
        }
        return Ok(node);
      } else {
        var node := tail;
        var i := 0;
        while size - 1 - i != index
          invariant 0 <= i <= size - 1 - index
          invariant node == nodes[size - 1 - i]
          decreases size - 1 - index - i
        {
          assert node.prev == nodes[size - 2 - i];
          var back := node.PrevNode();
          node := back.value;
          i := i + 1;
        }
        return Ok(node);
      }
    }

    /** `list[item]`. */
    method GetItem(item: IndexArg) returns (r: Result<T>)
      requires Valid()
      ensures r == ListSpec.Get(elements, item)
    {
      match item
      case NotInt =>
        return Err(TypeError);
      case Int(i) =>
        if i >= Length() || i < 0 {
          return Err(IndexError);
        }
        var found := SearchFromStartOrEnd(i);
        return Ok(found.value.data);
    }

    /** `list[key] = value`: only the value stored in the node at `key` changes. */
    method SetItem(key: IndexArg, value: T) returns (out: Outcome)
      requires Valid()
      modifies this, nodes
      ensures Valid()
      ensures out == ListSpec.Set(old(elements), key, value).Status()
      ensures out.Pass? ==> elements == ListSpec.Set(old(elements), key, value).value
      ensures nodes == old(nodes) && head == old(head) && tail == old(tail)
      ensures out.Fail? ==> unchanged(this) && unchanged(nodes)
    {
      match key
      case NotInt =>
        return Fail(TypeError);
      case Int(i) =>
        if i >= Length() || i < 0 {
          return Fail(IndexError);
        }
        var found := SearchFromStartOrEnd(i);
        OnlyAt(i);
        found.value.data := value;
        elements := elements[i := value];
        return Pass;
    }

    /**
     * `list.append(data)`: a fresh node becomes the tail, linked after the old tail;
     * `head` changes only when the list was empty.
     */
    method Append(data: T)
      requires Valid()
      modifies this, nodes
      ensures Valid()
      ensures elements == ListSpec.Append(old(elements), data)
      ensures nodes == old(nodes) + [tail] && fresh(tail)
      ensures old(size) > 0 ==> head == old(head)
    {
      var newNode := new DoubleNode(data, null, null);
      if Length() == 0 {
        head := newNode;
      } else {
        OnlyAt(size - 1);
        tail.next := newNode;
        newNode.SetPrev(tail);
      }
      tail := newNode;
      size := size + 1;
      nodes, elements := nodes + [newNode], elements + [data];
    }

    /**
     * `list.insert(data, index)`. Bad indices raise before anything changes. At index 0 the
     * fresh node becomes the head, at index len the tail, and at any other index it is
     * spliced in after the node at `index`; when that node is the tail its absent successor
     * is dereferenced and the insert fails with only the fresh node touched.
     */
    method Insert(data: T, index: IndexArg) returns (out: Outcome)
      requires Valid()
      modifies this, nodes
      ensures Valid()
      ensures out == ListSpec.Insert(old(elements), data, index).Status()
      ensures out.Pass? ==> elements == ListSpec.Insert(old(elements), data, index).value
      ensures out.Pass? ==>
        var p := ListSpec.InsertedAt(old(|nodes|), index.value);
        0 <= p < |nodes| && fresh(nodes[p]) &&
        nodes == old(nodes)[..p] + [nodes[p]] + old(nodes)[p..]
      ensures out.Fail? ==> unchanged(this) && unchanged(old(nodes))
    {
      match index
      case NotInt =>
        return Fail(TypeError);
      case Int(i) =>
        if i < 0 || i > Length() {
          return Fail(IndexError);
        }
        ghost var s, ns := elements, nodes;
        var newNode := new DoubleNode(data, null, null);
        if i == 0 {
          LinkAsHead(newNode);
          assert ListSpec.Insert(s, data, index) == Ok(elements);
          assert nodes == ns[..0] + [newNode] + ns[0..];
        } else if i == Length() {
          LinkAsTail(newNode);
          assert ListSpec.Insert(s, data, index) == Ok(elements);
          assert nodes == ns[..i] + [newNode] + ns[i..];
        } else {
          out := InsertAfterNodeAt(newNode, i);
          if out.Fail? {
            return out;
          }
          assert ListSpec.Insert(s, data, index) == Ok(elements);
          assert nodes == ns[..i + 1] + [newNode] + ns[i + 1..];
        }
        return Pass;
    }

    /**
     * Insert in the middle, 1 <= i < len: `newNode` is pointed at the node at `i` and at that
     * node's successor, then linked in between. When the node at `i` is the tail, setting the
     * back link of its absent successor fails with only `newNode` touched.
     */
    method InsertAfterNodeAt(newNode: DoubleNode<T>, i: nat) returns (out: Outcome)
      requires Valid() && 1 <= i < |nodes|
      requires newNode !in nodes && newNode.next == null && newNode.prev == null
      modifies this, nodes, newNode
      ensures Valid()
      ensures out == if i == old(|nodes|) - 1 then Fail(AttributeError) else Pass
      ensures out.Pass? ==>
        nodes == old(nodes)[..i + 1] + [newNode] + old(nodes)[i + 1..] &&
        elements == old(elements)[..i + 1] + [newNode.data] + old(elements)[i + 1..]
      ensures out.Fail? ==> unchanged(this) && unchanged(old(nodes))
      ensures newNode.data == old(newNode.data)
    {
      var found := SearchFromStartOrEnd(i);
      var node := found.value;
      assert node.next == if i + 1 < size then nodes[i + 1] else null;
      newNode.next := node.next;
      newNode.SetPrev(node);
      if node.next == null {
        // the anchor is the tail: setting the back link of its absent successor fails
        return Fail(AttributeError);
      }
      LinkAfter(node, newNode, i);
      return Pass;
    }

    /** Insert at index 0: `newNode` goes in front of the head, or is the only node. */
    method LinkAsHead(newNode: DoubleNode<T>)
      requires Valid()
      requires newNode !in nodes && newNode.next == null && newNode.prev == null
      modifies this, nodes, newNode
      ensures Valid()
      ensures nodes == [newNode] + old(nodes) && elements == [newNode.data] + old(elements)
      ensures newNode.data == old(newNode.data)
    {
      if size == 0 {
        tail := newNode;
      } else {
        OnlyAt(0);
        newNode.next := head;
        head.SetPrev(newNode);
      }
      head := newNode;
      size := size + 1;
      nodes, elements := [newNode] + nodes, [newNode.data] + elements;
    }

    /** Insert at index len, len > 0: `newNode` goes after the tail and becomes the tail. */
    method LinkAsTail(newNode: DoubleNode<T>)
      requires Valid() && |nodes| > 0
      requires newNode !in nodes && newNode.next == null && newNode.prev == null
      modifies this, nodes, newNode
      ensures Valid()
      ensures nodes == old(nodes) + [newNode] && elements == old(elements) + [newNode.data]
      ensures newNode.data == old(newNode.data)
    {
      OnlyAt(size - 1);
      newNode.SetPrev(tail);
      tail.next := newNode;
      tail := newNode;
      size := size + 1;
      nodes, elements := nodes + [newNode], elements + [newNode.data];
    }

    /**
     * Insert in the middle: `newNode`, already pointing at `node` (the node at position `i`)
     * and at its successor, is linked in between the two.
     */
    method LinkAfter(node: DoubleNode<T>, newNode: DoubleNode<T>, ghost i: nat)
      requires Valid() && 1 <= i < |nodes| - 1 && node == nodes[i]
      requires newNode !in nodes && newNode.next == nodes[i + 1] && newNode.prev == node
      modifies this, nodes, node, nodes[i + 1]
      ensures Valid()
      ensures nodes == old(nodes)[..i + 1] + [newNode] + old(nodes)[i + 1..]
      ensures elements == old(elements)[..i + 1] + [newNode.data] + old(elements)[i + 1..]
    {
      ghost var ns := nodes;
      OnlyAt(i);
      OnlyAt(i + 1);
      node.next.SetPrev(newNode);
      node.next := newNode;
      size := size + 1;
      nodes := ns[..i + 1] + [newNode] + ns[i + 1..];
      elements := elements[..i + 1] + [newNode.data] + elements[i + 1..];
      forall k | 0 <= k < |nodes| - 1
        ensures nodes[k].next == nodes[k + 1]
      {
        if k < i {
          assert nodes[k] == ns[k] && nodes[k + 1] == ns[k + 1];
        } else if k > i + 1 {
          assert nodes[k] == ns[k - 1] && nodes[k + 1] == ns[k];
        }
      }
      forall k | 0 < k < |nodes|
        ensures nodes[k].prev == nodes[k - 1]
      {
        if k <= i {
          assert nodes[k] == ns[k] && nodes[k - 1] == ns[k - 1];
        } else if k > i + 2 {
          assert nodes[k] == ns[k - 1] && nodes[k - 1] == ns[k - 2];
        }
      }
    }

    /**
     * `list.delete(index)`. Bad indices raise before anything changes. Index 0 advances
     * `head`, index len - 1 retreats `tail`, and any other index unlinks the node after the
     * node at `index`. When that node is the tail, the anchor's forward link has already been
     * cleared when setting the back link of the absent next node fails: the list is left
     * with a chain one node shorter than `size`, a stale `tail`, and its invariant broken.
     */
    method Delete(index: IndexArg) returns (out: Outcome)
      requires Valid()
      modifies this, nodes
      ensures out == ListSpec.Delete(old(elements), index).Status()
      ensures out.Pass? ==> (Valid() &&
        elements == ListSpec.Delete(old(elements), index).value &&
        var p := ListSpec.RemovedAt(old(|nodes|), index.value);
        0 <= p < old(|nodes|) && nodes == old(nodes)[..p] + old(nodes)[p + 1..])
      ensures out.Fail? && out.error != AttributeError ==>
        Valid() && unchanged(this) && unchanged(old(nodes))
      ensures out == Fail(AttributeError) ==> (BrokenAt(|nodes| - 2) &&
        nodes == old(nodes) && size == old(size) && head == old(head) && tail == old(tail) &&
        elements == old(elements) &&
        nodes[|nodes| - 2].data == old(nodes[|nodes| - 2].data) &&
        nodes[|nodes| - 2].prev == old(nodes[|nodes| - 2].prev) &&
        forall j :: 0 <= j < |nodes| && j != |nodes| - 2 ==> unchanged(nodes[j]))
    {
      match index
      case NotInt =>
        return Fail(TypeError);
      case Int(i) =>
        if i < 0 || i >= Length() {
          return Fail(IndexError);
        }
        if i == 0 {
          // the list is not empty here, so the "nothing to delete" branch cannot be taken
          assert Length() > 0;
          UnlinkHead();
        } else if i == Length() - 1 {
          UnlinkTail();
        } else {
          var found := SearchFromStartOrEnd(i);
          out := UnlinkAfter(found.value, i);
          return out;
        }
        return Pass;
    }

    /**
     * The state a failed middle delete leaves: the node at `k` has lost its forward link,
     * every node keeps its value and back link, and the list no longer satisfies `Valid()`.
     */
    ghost predicate BrokenAt(k: int)
      reads this, nodes
    {
      0 <= k < |nodes| && nodes[k].next == null && !Valid()
    }

    /** Delete at index 0: the head's successor, if any, becomes the head. */
    method UnlinkHead()
      requires Valid() && |nodes| > 0
      modifies this, nodes
      ensures Valid()
      ensures nodes == old(nodes)[1..] && elements == old(elements)[1..]
    {
      if Length() == 1 {
        head := null;
        tail := null;
      } else {
        OnlyAt(1);
        assert head.next == nodes[1];
        head := head.next;
        head.SetPrev(null);
      }
      size := size - 1;
      nodes, elements := nodes[1..], elements[1..];
    }

    /** Delete at index len - 1, len >= 2: the tail's predecessor becomes the tail. */
    method UnlinkTail()
      requires Valid() && |nodes| >= 2
      modifies this, nodes
      ensures Valid()
      ensures nodes == old(nodes)[..|old(nodes)| - 1] && elements == old(elements)[..|old(elements)| - 1]
    {
      OnlyAt(size - 2);
      assert tail.prev == nodes[size - 2];
      var back := tail.PrevNode();
      tail := back.value;
      tail.next := null;
      size := size - 1;
      nodes, elements := nodes[..|nodes| - 1], elements[..|elements| - 1];
    }

    /**
     * Delete in the middle: the node after `node`, the node at position `i`, is unlinked.
     * When that node is the tail, `node` has already lost its forward link when setting the
     * back link of the absent node after it fails.
     */
    method UnlinkAfter(node: DoubleNode<T>, ghost i: nat) returns (out: Outcome)
      requires Valid() && 1 <= i <= |nodes| - 2 && node == nodes[i]
      modifies this, nodes
      ensures out == if i == old(|nodes|) - 2 then Fail(AttributeError) else Pass
      ensures out.Pass? ==> (Valid() &&
        nodes == old(nodes)[..i + 1] + old(nodes)[i + 2..] &&
        elements == old(elements)[..i + 1] + old(elements)[i + 2..])
      ensures out.Fail? ==> (BrokenAt(i) &&
        unchanged(this) && node.data == old(node.data) && node.prev == old(node.prev) &&
        forall j :: 0 <= j < |nodes| && j != i ==> unchanged(nodes[j]))
    {
      ghost var ns := nodes;
      OnlyAt(i);
      if i + 2 < size {
        OnlyAt(i + 2);
      }
      assert node.next == ns[i + 1];
      assert node.next.next == if i + 2 < size then ns[i + 2] else null;
      node.next := node.next.next;
      if node.next == null {
        // the removed node was the tail: setting the back link of its absent successor fails
        assert ns[i].next != ns[i + 1];
        return Fail(AttributeError);
      }
      node.next.SetPrev(node);
      size := size - 1;
      nodes := ns[..i + 1] + ns[i + 2..];
      elements := elements[..i + 1] + elements[i + 2..];
      forall k | 0 <= k < |nodes| - 1
        ensures nodes[k].next == nodes[k + 1]
      {
        if k < i {
          assert nodes[k] == ns[k] && nodes[k + 1] == ns[k + 1];
        } else if k > i {
          assert nodes[k] == ns[k + 1] && nodes[k + 1] == ns[k + 2];
        }
      }
      forall k | 0 < k < |nodes|
        ensures nodes[k].prev == nodes[k - 1]
      {
        if k <= i {
          assert nodes[k] == ns[k] && nodes[k - 1] == ns[k - 1];
        } else if k > i + 1 {
          assert nodes[k] == ns[k + 1] && nodes[k - 1] == ns[k];
        }
      }
      return Pass;
    }

    /**
     * `list.index(x, start)`: the position of the first match scanning from `head` when
     * `start` is "left", or from `tail` over the back links when it is "right".
     */
    method Index(x: T, start: string) returns (r: Result<nat>)
      requires Valid()
      ensures r == ListSpec.IndexOf(elements, x, start)
    {
      if start == "left" {
        var node := head;
        var i := 0;
        while node != null
          invariant 0 <= i <= size
          invariant i < size ==> node == nodes[i]
          invariant i == size ==> node == null
          invariant forall j :: 0 <= j < i ==> elements[j] != x
          decreases size - i
        {
          if node.data == x {
            return Ok(i);
          }
          node := node.next;
          i := i + 1;
        }
        return Err(IndexError);
      } else if start == "right" {
        var i := size - 1;
        var node := tail;
        while node != null
          invariant -1 <= i < size
          invariant node == null <==> i == -1
          invariant node == null ==> size == 0
          invariant node != null ==> node == nodes[i]
          invariant forall j :: i < j < size ==> elements[j] != x
          decreases i + 1
        {
          if node.data == x {
            return Ok(i);
          }
          assert i > 0 ==> node.prev == nodes[i - 1];
          var back := node.PrevNode();
          if back.Err? {
            // the first node was no match, and calling its absent back link raises
            return Err(back.error);
          }
          node := back.value;
          i := i - 1;
        }
        return Err(IndexError);
      }
      return Err(ValueError);
    }
  }

  /** A client scenario: three appends and a read. */
  method ThreeAppendsScenario() returns (list: DoubleLinkedList<string>)
    ensures list.Valid() && list.elements == ["a", "b", "c"]
  {
    list := new DoubleLinkedList<string>();
    list.Append("a");
    list.Append("b");
    list.Append("c");
    var got := list.GetItem(Int(2));
    assert got == Ok("c");
  }

  /** A client scenario of the searches on three distinct values, and a search that misses. */
  method SearchScenario(list: DoubleLinkedList<string>)
      returns (left: Result<nat>, right: Result<nat>, missing: Result<nat>)
    requires list.Valid() && list.elements == ["a", "b", "c"]
    ensures left == Ok(1) && right == Ok(1)
    ensures missing == Err(TypeError)
  {
    left := list.Index("b", "left");
    right := list.Index("b", "right");
    assert list.elements[1] == "b";
    missing := list.Index("z", "right");
  }

  /**
   * A client scenario of the middle cases on three values: `insert(x, 1)` lands at position 2,
   * `delete(1)` takes it out again, and a second `delete(1)` (index len - 2) fails and
   * leaves the list broken.
   */
  method MiddleEditsScenario(list: DoubleLinkedList<string>)
      returns (inserted: Outcome, deleted: Outcome, failed: Outcome)
    requires list.Valid() && list.elements == ["a", "b", "c"]
    modifies list, list.nodes
    ensures inserted == Pass && deleted == Pass && failed == Fail(AttributeError)
    ensures !list.Valid()
  {
    inserted := list.Insert("x", Int(1));
    assert list.elements == ["a", "b", "x", "c"];
    deleted := list.Delete(Int(1));
    assert list.elements == ["a", "b", "c"];
    failed := list.Delete(Int(1));
  }
}
