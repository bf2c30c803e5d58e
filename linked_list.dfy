/** A doubly linked list: a chain of nodes joined by `next` and `prev`
    links, with `head`, `tail` and a running `size` kept in the list
    object. Every mutating method rewires the links in place. */
module DoublyLinkedList {
  import opened Outcomes
  import opened Sequences

  class Node<T> {
    var data: T
    var next: Node?<T>
    var prev: Node?<T>

    /** A fresh node holds its element and no links. */
    constructor (data: T)
      ensures this.data == data && next == null && prev == null
    {
      this.data := data;
      next := null;
      prev := null;
    }
  }

  /** What `display` and `display_reverse` return: the distinguished
      empty rendering, or the elements in traversal order. */
  datatype Rendering<T> = EmptyList | Elements(items: seq<T>)

  /** The smallest index holding `x`, or -1 when `x` does not occur. */
  function IndexOf<T(==)>(s: seq<T>, x: T): (r: int)
    ensures -1 <= r < |s|
    ensures r == -1 <==> x !in s
    ensures r >= 0 ==> s[r] == x && x !in s[..r]
  {
    if s == [] then -1
    else if s[0] == x then 0
    else
      var i := IndexOf(s[1..], x);
      assert s[1..][..i + 1] == s[..i + 2][1..];
      if i == -1 then -1 else i + 1
  }

  /** The splice of `insert`: once `nn` is wired between positions
      index - 1 and index, while every other link still follows the chain
      `ns`, the chain with `nn` at position index is linked. */
  lemma LinkedInsertAt<T>(ns: seq<Node<T>>, index: int, nn: Node<T>)
    requires 0 < index < |ns| && nn !in ns
    requires nn.prev == ns[index - 1] && nn.next == ns[index]
    requires ns[index - 1].next == nn && ns[index].prev == nn
    requires forall k {:trigger ns[k].prev} :: 0 <= k < |ns| && k != index ==>
      ns[k].prev == if k == 0 then null else ns[k - 1]
    requires forall k {:trigger ns[k].next} :: 0 <= k < |ns| && k != index - 1 ==>
      ns[k].next == if k == |ns| - 1 then null else ns[k + 1]
    ensures var t := InsertAt(ns, index, nn);
      && (forall k {:trigger t[k].prev} :: 0 <= k < |t| ==>
            t[k].prev == if k == 0 then null else t[k - 1])
      && (forall k {:trigger t[k].next} :: 0 <= k < |t| ==>
            t[k].next == if k == |t| - 1 then null else t[k + 1])
  {
    var t := InsertAt(ns, index, nn);
    forall k | 0 <= k < |t|
      ensures t[k].prev == (if k == 0 then null else t[k - 1])
      ensures t[k].next == (if k == |t| - 1 then null else t[k + 1])
    {
      if k < index {
        assert t[k] == ns[k];
      } else if k > index {
        assert t[k] == ns[k - 1];
      }
    }
  }

  /** The repair of `_unlink`: once the neighbours of position i point past
      it, while every other link still follows the chain `ns`, the chain
      without position i is linked. */
  lemma LinkedRemoveAt<T>(ns: seq<Node<T>>, i: int)
    requires 0 <= i < |ns|
    requires i > 0 ==> ns[i - 1].next == if i == |ns| - 1 then null else ns[i + 1]
    requires i < |ns| - 1 ==> ns[i + 1].prev == if i == 0 then null else ns[i - 1]
    requires forall k {:trigger ns[k].prev} :: 0 <= k < |ns| && k != i + 1 ==>
      ns[k].prev == if k == 0 then null else ns[k - 1]
    requires forall k {:trigger ns[k].next} :: 0 <= k < |ns| && k != i - 1 ==>
      ns[k].next == if k == |ns| - 1 then null else ns[k + 1]
    ensures var t := RemoveAt(ns, i);
      && (forall k {:trigger t[k].prev} :: 0 <= k < |t| ==>
            t[k].prev == if k == 0 then null else t[k - 1])
      && (forall k {:trigger t[k].next} :: 0 <= k < |t| ==>
            t[k].next == if k == |t| - 1 then null else t[k + 1])
  {
    var t := RemoveAt(ns, i);
    forall k | 0 <= k < |t|
      ensures t[k].prev == (if k == 0 then null else t[k - 1])
      ensures t[k].next == (if k == |t| - 1 then null else t[k + 1])
    {
      if k < i {
        assert t[k] == ns[k];
      } else {
        assert t[k] == ns[k + 1];
      }
    }
  }

  /** After every node's `prev` and `next` have been swapped, the chain
      read in the opposite order (`t`) is linked. */
  lemma LinkedBackwards<T>(ns: seq<Node<T>>, t: seq<Node<T>>)
    requires |t| == |ns|
    requires forall k :: 0 <= k < |t| ==> t[k] == ns[|ns| - 1 - k]
    requires forall k {:trigger ns[k].next} :: 0 <= k < |ns| ==>
      ns[k].next == if k == 0 then null else ns[k - 1]
    requires forall k {:trigger ns[k].prev} :: 0 <= k < |ns| ==>
      ns[k].prev == if k == |ns| - 1 then null else ns[k + 1]
    ensures (forall k {:trigger t[k].prev} :: 0 <= k < |t| ==>
      t[k].prev == if k == 0 then null else t[k - 1])
    ensures (forall k {:trigger t[k].next} :: 0 <= k < |t| ==>
      t[k].next == if k == |t| - 1 then null else t[k + 1])
  {
    var n := |t|;
    forall k | 0 <= k < n
      ensures t[k].prev == (if k == 0 then null else t[k - 1])
      ensures t[k].next == (if k == n - 1 then null else t[k + 1])
    {
      assert t[k] == ns[n - 1 - k];
      if k > 0 {
        assert t[k - 1] == ns[n - k];
      }
      if k < n - 1 {
        assert t[k + 1] == ns[n - 2 - k];
      }
    }
  }

  class LinkedList<T(==)> {
    var head: Node?<T>
    var tail: Node?<T>
    var size: int

    /** The chain from head to tail, and the elements it holds. */
    ghost var nodes: seq<Node<T>>
    ghost var contents: seq<T>
    /** The list object and every node in the chain. */
    ghost var Repr: set<object>

    /** The list invariant: head, tail and size agree with the chain,
        every node's `prev`/`next` point at its neighbours in the chain
        (none before the head, none after the tail), and no node occurs
        twice, so the chain has no cycle. */
    ghost predicate Valid()
      reads this, Repr
    {
      && this in Repr
      && (forall k :: 0 <= k < |nodes| ==> nodes[k] in Repr)
      && size == |nodes| == |contents|
      && (nodes == [] ==> head == null && tail == null)
      && (nodes != [] ==> head == nodes[0] && tail == nodes[|nodes| - 1])
      && (forall k :: 0 <= k < |nodes| ==> nodes[k].data == contents[k])
      && (forall k {:trigger nodes[k].prev} :: 0 <= k < |nodes| ==>
            nodes[k].prev == if k == 0 then null else nodes[k - 1])
      && (forall k {:trigger nodes[k].next} :: 0 <= k < |nodes| ==>
            nodes[k].next == if k == |nodes| - 1 then null else nodes[k + 1])
      && Distinct(nodes)
    }

    /** The three ways of saying "empty" agree. */
    lemma EmptyIff()
      requires Valid()
      ensures head == null <==> tail == null
      ensures head == null <==> size == 0
      ensures size == 0 <==> contents == []
    {
    }

    /** Neighbouring nodes point at each other. */
    lemma LinksAgree(k: int)
      requires Valid() && 0 <= k < |nodes|
      ensures nodes[k].next != null ==> nodes[k].next.prev == nodes[k]
      ensures nodes[k].prev != null ==> nodes[k].prev.next == nodes[k]
    {
    }

    constructor ()
      ensures Valid() && fresh(Repr)
      ensures contents == [] && nodes == []
    {
      head, tail, size := null, null, 0;
      nodes, contents := [], [];
      Repr := {this};
    }

    /** `append`: the element goes after the tail; on an empty list its
        node becomes both head and tail. */
    method Append(data: T)
      requires Valid()
      modifies Repr
      ensures Valid() && fresh(Repr - old(Repr))
      ensures contents == old(contents) + [data]
      ensures size == old(size) + 1
      ensures nodes == old(nodes) + [tail] && fresh(tail)
      ensures old(size) == 0 ==> head == tail
      ensures old(size) != 0 ==> head == old(head)
    {
      var newNode := new Node(data);
      if head == null {
        head := newNode;
        tail := newNode;
      } else {
        newNode.prev := tail;
        tail.next := newNode;
        tail := newNode;
      }
      size := size + 1;
      nodes := nodes + [newNode];
      contents := contents + [data];
      Repr := Repr + {newNode};
    }

    /** `prepend`: the element goes before the head. */
    method Prepend(data: T)
      requires Valid()
      modifies Repr
      ensures Valid() && fresh(Repr - old(Repr))
      ensures contents == [data] + old(contents)
      ensures size == old(size) + 1
      ensures nodes == [head] + old(nodes) && fresh(head)
      ensures old(size) == 0 ==> head == tail
      ensures old(size) != 0 ==> tail == old(tail)
    {
      var newNode := new Node(data);
      if head == null {
        head := newNode;
        tail := newNode;
      } else {
        newNode.next := head;
        head.prev := newNode;
        head := newNode;
      }
      size := size + 1;
      nodes := [newNode] + nodes;
      contents := [data] + contents;
      Repr := Repr + {newNode};
    }

    /** `insert`: an index outside [0, size] is refused with nothing
        changed; otherwise the element ends up at `index`. */
    method Insert(index: int, data: T) returns (r: Result<()>)
      requires Valid()
      modifies Repr
      ensures Valid() && fresh(Repr - old(Repr))
      ensures r.Err? <==> index < 0 || index > old(size)
      ensures r.Err? ==> (r.error == IndexError && unchanged(old(Repr))
                          && nodes == old(nodes) && contents == old(contents))
      ensures r.Ok? ==> (contents == InsertAt(old(contents), index, data)
                         && size == old(size) + 1)
    {
      if index < 0 || index > size {
        return Err(IndexError);
      }
      if index == 0 {
        Prepend(data);
        return Ok(());
      }
      if index == size {
        Append(data);
        return Ok(());
      }
      var current := head;
      for i := 0 to index - 1
        invariant current == nodes[i]
      {
        current := current.next;
      }
      LinkAfter(current, index - 1, data);
      r := Ok(());
    }

    /** The middle case of `insert`: a new node holding `data` is spliced in
        right after `current`, the node at position i, which is not the tail. */
    method LinkAfter(current: Node<T>, ghost i: int, data: T)
      requires Valid() && 0 <= i < |nodes| - 1 && current == nodes[i]
      modifies this, current, current.next
      ensures Valid() && fresh(Repr - old(Repr))
      ensures contents == InsertAt(old(contents), i + 1, data)
      ensures size == old(size) + 1
    {
      var newNode := new Node(data);
      ghost var index := i + 1;
      ghost var before, after := current, nodes[index];
      newNode.next := current.next;
      newNode.prev := current;
      if current.next != null {
        current.next.prev := newNode;
      }
      current.next := newNode;
      size := size + 1;
      nodes := InsertAt(nodes, index, newNode);
      contents := InsertAt(contents, index, data);
      Repr := Repr + {newNode};
      LinkedInsertAt(old(nodes), index, newNode);
      DistinctInsertAt(old(nodes), index, newNode);
      forall k | 0 <= k < |nodes|
        ensures nodes[k] in Repr && nodes[k].data == contents[k]
      {
        if k != index {
          assert nodes[k] == old(nodes)[if k < index then k else k - 1];
        }
      }
    }

    /** `_unlink`: detaches the node at position i, repairing its
        neighbours' links or the list's head/tail in each of the four
        cases. The detached node keeps its own stale links. */
    method Unlink(node: Node<T>, ghost i: int)
      requires Valid() && 0 <= i < |nodes| && node == nodes[i]
      modifies this, node.prev, node.next
      ensures Valid() && Repr == old(Repr) - {node}
      ensures nodes == RemoveAt(old(nodes), i)
      ensures contents == RemoveAt(old(contents), i)
      ensures size == old(size) - 1
      ensures old(size) == 1 ==> head == null && tail == null
      ensures i == 0 ==> head == old(node.next)
      ensures i == old(size) - 1 ==> tail == old(node.prev)
    {
      ghost var before, after := node.prev, node.next;
      assert before == (if i == 0 then null else nodes[i - 1]);
      assert after == (if i == |nodes| - 1 then null else nodes[i + 1]);
      if node.prev != null {
        node.prev.next := node.next;
      } else {
        head := node.next;
      }
      if node.next != null {
        node.next.prev := node.prev;
      } else {
        tail := node.prev;
      }
      size := size - 1;
      nodes := RemoveAt(nodes, i);
      contents := RemoveAt(contents, i);
      Repr := Repr - {node};
      LinkedRemoveAt(old(nodes), i);
      DistinctRemoveAt(old(nodes), i);
      forall k | 0 <= k < |nodes|
        ensures nodes[k] in Repr && nodes[k].data == contents[k]
      {
        assert nodes[k] == old(nodes)[if k < i then k else k + 1];
      }
    }

    /** `delete`: removes the first occurrence of `data` and answers
        whether there was one; a missing element changes nothing. */
    method Delete(data: T) returns (found: bool)
      requires Valid()
      modifies Repr
      ensures Valid() && Repr <= old(Repr)
      ensures found <==> data in old(contents)
      ensures found ==> (contents == RemoveAt(old(contents), IndexOf(old(contents), data))
                         && size == old(size) - 1)
      ensures !found ==> unchanged(Repr) && contents == old(contents)
    {
      var current := head;
      ghost var i := 0;
      while current != null
        invariant 0 <= i <= |nodes|
        invariant current == if i < |nodes| then nodes[i] else null
        invariant data !in contents[..i]
        decreases |nodes| - i
      {
        if current.data == data {
          assert IndexOf(contents, data) == i;
          Unlink(current, i);
          return true;
        }
        current := current.next;
        i := i + 1;
      }
      assert contents[..i] == contents;
      return false;
    }

    /** `delete_at_index`: an index outside [0, size) is refused with
        nothing changed; otherwise that element is removed. */
    method DeleteAtIndex(index: int) returns (r: Result<()>)
      requires Valid()
      modifies Repr
      ensures Valid() && Repr <= old(Repr)
      ensures r.Err? <==> index < 0 || index >= old(size)
      ensures r.Err? ==> (r.error == IndexError && unchanged(old(Repr))
                          && contents == old(contents))
      ensures r.Ok? ==> (contents == RemoveAt(old(contents), index)
                         && size == old(size) - 1)
    {
      if index < 0 || index >= size {
        return Err(IndexError);
      }
      var current := head;
      for i := 0 to index
        invariant current == nodes[i]
      {
        current := current.next;
      }
      Unlink(current, index);
      r := Ok(());
    }

    /** `find`: the index of the first occurrence, or -1. */
    method Find(data: T) returns (index: int)
      requires Valid()
      ensures -1 <= index < |contents|
      ensures index >= 0 ==> (contents[index] == data
                              && forall k :: 0 <= k < index ==> contents[k] != data)
      ensures index == -1 <==> data !in contents
    {
      var current := head;
      index := 0;
      while current != null
        invariant 0 <= index <= |nodes|
        invariant current == if index < |nodes| then nodes[index] else null
        invariant forall k :: 0 <= k < index ==> contents[k] != data
        decreases |nodes| - index
      {
        if current.data == data {
          return index;
        }
        current := current.next;
        index := index + 1;
      }
      return -1;
    }

    /** `get`: the element at `index`, or an IndexError outside [0, size). */
    method Get(index: int) returns (r: Result<T>)
      requires Valid()
      ensures r.Err? <==> index < 0 || index >= |contents|
      ensures r.Err? ==> r.error == IndexError
      ensures r.Ok? ==> r.value == contents[index]
    {
      if index < 0 || index >= size {
        return Err(IndexError);
      }
      var current := head;
      for i := 0 to index
        invariant current == nodes[i]
      {
        current := current.next;
      }
      r := Ok(current.data);
    }

    /** `is_empty`: tests the head reference. */
    method IsEmpty() returns (empty: bool)
      requires Valid()
      ensures empty <==> contents == []
    {
      empty := head == null;
    }

    /** `length`: the running count. */
    method Length() returns (n: int)
      requires Valid()
      ensures n == |contents|
    {
      n := size;
    }

    /** `display`: the elements from head to tail, following `next`. */
    method Display() returns (d: Rendering<T>)
      requires Valid()
      ensures d == if contents == [] then EmptyList else Elements(contents)
    {
      if head == null {
        return EmptyList;
      }
      var elements := [];
      var current := head;
      ghost var i := 0;
      while current != null
        invariant 0 <= i <= |nodes|
        invariant current == if i < |nodes| then nodes[i] else null
        invariant elements == contents[..i]
        decreases |nodes| - i
      {
        elements := elements + [current.data];
        current := current.next;
        i := i + 1;
      }
      assert contents[..i] == contents;
      d := Elements(elements);
    }

    /** `display_reverse`: the elements from tail to head, following `prev`. */
    method DisplayReverse() returns (d: Rendering<T>)
      requires Valid()
      ensures d == if contents == [] then EmptyList else Elements(Reversed(contents))
    {
      if tail == null {
        return EmptyList;
      }
      var elements := [];
      var current := tail;
      ghost var i := |nodes|;
      while current != null
        invariant 0 <= i <= |nodes|
        invariant current == if i > 0 then nodes[i - 1] else null
        invariant elements == Reversed(contents[i..])
        decreases i
      {
        ReversedSuffixStep(contents, i);
        elements := elements + [current.data];
        current := current.prev;
        i := i - 1;
      }
      assert contents[0..] == contents;
      d := Elements(elements);
    }

    /** `reverse`: swaps every node's `prev` and `next`, walking on through
        the swapped `prev`, then swaps head and tail. */
    method Reverse()
      requires Valid()
      modifies Repr
      ensures Valid() && Repr == old(Repr)
      ensures nodes == Reversed(old(nodes))
      ensures contents == Reversed(old(contents))
      ensures head == old(tail) && tail == old(head)
    {
      var current := head;
      ghost var i := 0;
      while current != null
        invariant 0 <= i <= |nodes|
        invariant unchanged(this)
        invariant current == if i < |nodes| then nodes[i] else null
        invariant Distinct(nodes)
        invariant forall k :: 0 <= k < |nodes| ==> nodes[k].data == contents[k]
        // nodes before i are already swapped ...
        invariant forall k {:trigger nodes[k].next} :: 0 <= k < i ==>
          nodes[k].next == if k == 0 then null else nodes[k - 1]
        invariant forall k {:trigger nodes[k].prev} :: 0 <= k < i ==>
          nodes[k].prev == if k == |nodes| - 1 then null else nodes[k + 1]
        // ... and the rest still have their original links
        invariant forall k {:trigger nodes[k].prev} :: i <= k < |nodes| ==>
          nodes[k].prev == if k == 0 then null else nodes[k - 1]
        invariant forall k {:trigger nodes[k].next} :: i <= k < |nodes| ==>
          nodes[k].next == if k == |nodes| - 1 then null else nodes[k + 1]
        decreases |nodes| - i
      {
        current.prev, current.next := current.next, current.prev;
        current := current.prev;
        i := i + 1;
      }
      head, tail := tail, head;
      ghost var n := |nodes|;
      forall k | 0 <= k < n
        ensures Reversed(nodes)[k] == nodes[n - 1 - k]
        ensures Reversed(contents)[k] == contents[n - 1 - k]
      {
        ReversedAt(nodes, k);
        ReversedAt(contents, k);
      }
      DistinctReversed(nodes);
      LinkedBackwards(nodes, Reversed(nodes));
      nodes := Reversed(nodes);
      contents := Reversed(contents);
    }
  }

  /** Reversing twice gives back the original order, and a list of at most
      one element is unchanged by reversal. */
  lemma ReverseTwice<T>(s: seq<T>)
    ensures Reversed(Reversed(s)) == s
    ensures |s| <= 1 ==> Reversed(s) == s
  {
    ReversedReversed(s);
    if |s| <= 1 {
      ReversedShort(s);
    }
  }

  /** Inserting at `index` and then reading at `index` gives the element back. */
  lemma InsertThenGet<T>(s: seq<T>, index: int, x: T)
    requires 0 <= index <= |s|
    ensures InsertAt(s, index, x)[index] == x
    ensures RemoveAt(InsertAt(s, index, x), index) == s
  {
    assert RemoveAt(InsertAt(s, index, x), index) == s;
  }

  /** After removing the first occurrence of `x`, a later search finds either
      nothing or a later, equal occurrence. */
  lemma DeleteThenFind<T>(s: seq<T>, x: T)
    requires x in s
    ensures var i := IndexOf(s, x);
      var j := IndexOf(RemoveAt(s, i), x);
      j == -1 || (j >= i && s[j + 1] == x)
  {
    var i := IndexOf(s, x);
    var t := RemoveAt(s, i);
    var j := IndexOf(t, x);
    forall k | 0 <= k < i
      ensures t[k] != x
    {
      assert s[..i][k] == s[k];
    }
  }
}
