/** The intrusive doubly linked list of lib/list.c: two sentinel nodes inside the list object, element
    nodes owned by the caller, and an insertion sort on an int key of the element.

    The class proves that the pointer code implements operations on sequences.  The request queue and the
    sleep list are such lists; the other modules keep theirs as sequences. */
module IntrusiveLists {
  import opened Sequences


  // ---------------------------------------------------------------- insertion sort on keys

  /** An unsigned 32-bit word read as a signed `int`, which is how list_insert_sort reads every key. */
  function AsInt32(word: nat): int {
    if word < 0x8000_0000 then word else word - 0x1_0000_0000
  }

  ghost predicate Ascending(keys: seq<int>) {
    forall i, j :: 0 <= i < j < |keys| ==> keys[i] <= keys[j]
  }

  /** Where list_insert_sort puts a node: before the first key strictly greater than its own. */
  function InsertIndex(keys: seq<int>, key: int): (r: nat)
    ensures r <= |keys|
    ensures forall i :: 0 <= i < r ==> keys[i] <= key
    ensures r < |keys| ==> keys[r] > key
  {
    if keys == [] || keys[0] > key then 0 else 1 + InsertIndex(keys[1..], key)
  }

  function InsertAt<T>(s: seq<T>, i: nat, x: T): (r: seq<T>)
    requires i <= |s|
    ensures |r| == |s| + 1
    ensures forall j :: 0 <= j < |r| ==> r[j] == if j < i then s[j] else if j == i then x else s[j - 1]
  {
    s[..i] + [x] + s[i..]
  }

  function RemoveAt<T>(s: seq<T>, i: nat): (r: seq<T>)
    requires i < |s|
    ensures |r| == |s| - 1
    ensures forall j :: 0 <= j < |r| ==> r[j] == if j < i then s[j] else s[j + 1]
  {
    s[..i] + s[i + 1..]
  }

  lemma InsertThenRemove<T>(s: seq<T>, i: nat, x: T)
    requires i <= |s|
    ensures RemoveAt(InsertAt(s, i, x), i) == s
    ensures multiset(InsertAt(s, i, x)) == multiset(s) + multiset{x}
  {
    assert s == s[..i] + s[i..];
  }

  lemma InsertThenUpdate<T>(s: seq<T>, i: nat, x: T, y: T)
    requires i <= |s|
    ensures InsertAt(s, i, x)[i := y] == InsertAt(s, i, y)
  {}

  lemma InsertDistinct<T>(s: seq<T>, i: nat, x: T)
    requires Distinct(s) && i <= |s| && x !in s
    ensures Distinct(InsertAt(s, i, x))
  {}

  lemma InsertInside<T>(c: seq<T>, i: nat, x: T)
    requires 0 < i < |c|
    ensures InsertAt(c, i, x)[1..|c|] == InsertAt(c[1..|c| - 1], i - 1, x)
  {}

  /** A sorted list stays sorted, and the new key lands behind every equal one (stability). */
  lemma InsertKeepsAscending(keys: seq<int>, key: int)
    requires Ascending(keys)
    ensures var r := InsertIndex(keys, key);
            && Ascending(InsertAt(keys, r, key))
            && forall i :: 0 <= i < |keys| ==> (i < r <==> keys[i] <= key)
  {
    hide InsertIndex;
    var r := InsertIndex(keys, key);
    forall i | r <= i < |keys|
      ensures keys[i] > key
    {
      assert keys[r] <= keys[i];
    }
  }

  // ---------------------------------------------------------------- the pointer structure

  class Node {
    var prev: Node?
    var next: Node?
    /** The element field that list_insert_sort reaches through its `offset` argument. */
    var key: int

    constructor (key: int)
      ensures prev == null && next == null && this.key == key
    {
      prev, next := null, null;
      this.key := key;
    }
  }

  // ---------------------------------------------------------------- the elements that nodes are part of

  ghost predicate Covers<T>(of: map<Node, T>, nodes: seq<Node>) {
    forall i :: 0 <= i < |nodes| ==> nodes[i] in of
  }

  /** element_entry for every node in turn: `of` gives the element that a node is part of. */
  ghost function Elements<T>(of: map<Node, T>, nodes: seq<Node>): (r: seq<T>)
    requires Covers(of, nodes)
    ensures |r| == |nodes|
    ensures forall i :: 0 <= i < |r| ==> r[i] == of[nodes[i]]
  {
    seq(|nodes|, i requires 0 <= i < |nodes| => of[nodes[i]])
  }

  lemma ElementsInsert<T>(of: map<Node, T>, nodes: seq<Node>, i: nat, node: Node, x: T)
    requires Covers(of, nodes) && i <= |nodes| && node !in nodes
    ensures Covers(of[node := x], InsertAt(nodes, i, node))
    ensures Elements(of[node := x], InsertAt(nodes, i, node)) == InsertAt(Elements(of, nodes), i, x)
  {}

  lemma ElementsRemove<T>(of: map<Node, T>, nodes: seq<Node>, k: nat)
    requires Covers(of, nodes) && k < |nodes| && Distinct(nodes)
    ensures Covers(of - {nodes[k]}, RemoveAt(nodes, k))
    ensures Elements(of - {nodes[k]}, RemoveAt(nodes, k)) == RemoveAt(Elements(of, nodes), k)
  {}

  lemma ElementsUpdate<T>(of: map<Node, T>, nodes: seq<Node>, j: nat, x: T)
    requires Covers(of, nodes) && j < |nodes| && Distinct(nodes)
    ensures Covers(of[nodes[j] := x], nodes)
    ensures Elements(of[nodes[j] := x], nodes) == Elements(of, nodes)[j := x]
  {}

  class List {
    const head: Node
    const tail: Node
    /** Every node of the list in order, the two sentinels included. */
    ghost var chain: seq<Node>

    ghost predicate Valid()
      reads this, chain
    {
      && |chain| >= 2 && chain[0] == head && chain[|chain| - 1] == tail
      && Distinct(chain)
      && head.prev == null && tail.next == null
      && (forall i :: 0 <= i < |chain| - 1 ==> chain[i].next == chain[i + 1])
      && (forall i :: 0 < i < |chain| ==> chain[i].prev == chain[i - 1])
    }

    /** The element nodes between the sentinels. */
    ghost function Nodes(): seq<Node>
      reads this
      requires |chain| >= 2
    {
      chain[1..|chain| - 1]
    }

    ghost function Keys(): (r: seq<int>)
      reads this, chain
      requires |chain| >= 2
      ensures |r| == |chain| - 2
      ensures forall i :: 0 <= i < |r| ==> r[i] == chain[i + 1].key
    {
      seq(|chain| - 2, i requires 0 <= i < |chain| - 2 reads this, chain => chain[i + 1].key)
    }

    /** What the pointers of the node at position k lead to. */
    lemma Neighbours(node: Node, k: nat)
      requires Valid() && k < |Nodes()| && node == Nodes()[k]
      ensures Distinct(Nodes()) && head !in Nodes() && tail !in Nodes()
      ensures node.next == (if k + 1 == |Nodes()| then tail else Nodes()[k + 1])
      ensures node.prev == (if k == 0 then head else Nodes()[k - 1])
    {
      assert chain[k + 1].next == chain[k + 2] && chain[k + 1].prev == chain[k];
    }

    /** The list is empty exactly where the pointer behind the head leads to the tail. */
    lemma Front()
      requires Valid()
      ensures head.next == chain[1] && (chain[1] == tail <==> |chain| == 2)
    {
      assert chain[0].next == chain[1];
    }

    /** list_init */
    constructor ()
      ensures Valid() && Nodes() == [] && fresh(head) && fresh(tail)
    {
      var h := new Node(0);
      var t := new Node(0);
      head, tail := h, t;
      chain := [h, t];
      new;
      head.prev := null;
      tail.next := null;
      head.next := tail;
      tail.prev := head;
    }

    /** list_insert_before; `i` is the position of the anchor among the elements, |nodes| for the tail. */
    method InsertBefore(anchor: Node, node: Node, ghost i: nat)
      requires Valid() && node !in chain
      requires 0 < i < |chain| && anchor == chain[i]
      modifies this`chain, chain, node
      ensures Valid() && chain == InsertAt(old(chain), i, node)
      ensures node.key == old(node.key)
      ensures forall j :: 0 <= j < |old(chain)| ==> old(chain)[j].key == old(chain[j].key)
    {
      InsertDistinct(chain, i, node);
      assert chain[i].prev == chain[i - 1];
      node.prev := anchor.prev;
      node.next := anchor;
      anchor.prev.next := node;
      anchor.prev := node;
      chain := InsertAt(chain, i, node);
    }

    /** list_insert_after; `i` is the position behind the anchor among the elements. */
    method InsertAfter(anchor: Node, node: Node, ghost i: nat)
      requires Valid() && node !in chain
      requires 0 < i < |chain| && anchor == chain[i - 1]
      modifies this`chain, chain, node
      ensures Valid() && chain == InsertAt(old(chain), i, node)
      ensures node.key == old(node.key)
      ensures forall j :: 0 <= j < |old(chain)| ==> old(chain)[j].key == old(chain[j].key)
    {
      InsertDistinct(chain, i, node);
      assert chain[i - 1].next == chain[i];
      node.prev := anchor;
      node.next := anchor.next;
      anchor.next.prev := node;
      anchor.next := node;
      chain := InsertAt(chain, i, node);
    }

    /** What taking the node at position i of the chain out means for the elements. */
    twostate lemma Unlinked(i: nat)
      requires 0 < i < old(|chain|) - 1 && chain == RemoveAt(old(chain), i)
      requires forall j :: 0 <= j < |old(chain)| ==> old(chain)[j].key == old(chain[j].key)
      ensures Nodes() == RemoveAt(old(Nodes()), i - 1)
      ensures Keys() == RemoveAt(old(Keys()), i - 1)
    {}

    /** list_remove */
    method Remove(node: Node, ghost i: nat)
      requires Valid()
      requires 0 < i < |chain| - 1 && node == chain[i]
      modifies this`chain, chain
      ensures Valid() && chain == RemoveAt(old(chain), i)
      ensures node.prev == null && node.next == null
      ensures forall j :: 0 <= j < |old(chain)| ==> old(chain)[j].key == old(chain[j].key)
    {
      assert chain[i].prev == chain[i - 1] && chain[i].next == chain[i + 1];
      node.prev.next := node.next;
      node.next.prev := node.prev;
      node.next := null;
      node.prev := null;
      chain := RemoveAt(chain, i);
    }

    /** list_empty */
    predicate Empty()
      requires Valid()
      reads this, chain
      ensures Empty() <==> Nodes() == []
    {
      assert chain[0].next == chain[1];
      head.next == tail
    }

    /** list_search */
    method Search(node: Node) returns (found: bool)
      requires Valid()
      ensures found <==> node in Nodes()
    {
      assert chain[0].next == chain[1];
      var next := head.next;
      ghost var i := 1;
      while next != tail
        invariant 0 < i < |chain| && next == chain[i]
        invariant node !in chain[1..i]
        decreases |chain| - i
      {
        if next == node {
          assert node == Nodes()[i - 1];
          return true;
        }
        next := next.next;
        i := i + 1;
      }
      assert i == |chain| - 1;
      return false;
    }

    /** list_push: behind the head sentinel. */
    method Push(node: Node)
      requires Valid() && node !in chain
      modifies this`chain, chain, node
      ensures Valid() && Nodes() == [node] + old(Nodes())
    {
      InsertAfter(head, node, 1);
    }

    /** list_pushback: in front of the tail sentinel. */
    method PushBack(node: Node)
      requires Valid() && node !in chain
      modifies this`chain, chain, node
      ensures Valid() && Nodes() == old(Nodes()) + [node]
    {
      InsertBefore(tail, node, |chain| - 1);
    }

    /** list_pop */
    method Pop() returns (node: Node)
      requires Valid() && Nodes() != []
      modifies this`chain, chain
      ensures Valid() && [node] + Nodes() == old(Nodes())
      ensures node.prev == null && node.next == null
    {
      assert chain[0].next == chain[1];
      node := head.next;
      Remove(node, 1);
    }

    /** list_popback, with the result its callers rely on. */
    method PopBack() returns (node: Node)
      requires Valid() && Nodes() != []
      modifies this`chain, chain
      ensures Valid() && Nodes() + [node] == old(Nodes())
      ensures node.prev == null && node.next == null
    {
      assert chain[|chain| - 1].prev == chain[|chain| - 2];
      node := tail.prev;
      Remove(node, |chain| - 2);
    }

    /** list_size */
    method Size() returns (size: nat)
      requires Valid()
      ensures size == |Nodes()|
    {
      assert chain[0].next == chain[1];
      var next := head.next;
      size := 0;
      while next != tail
        invariant 0 <= size < |chain| - 1 && next == chain[size + 1]
        decreases |chain| - size
      {
        size := size + 1;
        next := next.next;
      }
    }

    /** The search of list_insert_sort: the first node with a greater key, or the tail. */
    method FindAnchor(key: int) returns (anchor: Node, ghost i: nat)
      requires Valid()
      ensures i == 1 + InsertIndex(Keys(), key) && i < |chain| && anchor == chain[i]
    {
      anchor := tail;
      assert chain[0].next == chain[1];
      var ptr := head.next;
      ghost var keys := Keys();
      i := 1;
      while ptr != tail
        invariant 0 < i < |chain| && ptr == chain[i]
        invariant anchor == tail
        invariant InsertIndex(keys, key) == i - 1 + InsertIndex(keys[i - 1..], key)
        decreases |chain| - i
      {
        if ptr.key > key {
          anchor := ptr;
          break;
        }
        assert keys[i - 1..][1..] == keys[i..];
        ptr := ptr.next;
        i := i + 1;
      }
    }

    /** list_insert_sort */
    method InsertSort(node: Node)
      requires Valid() && node !in chain
      requires node.next == null && node.prev == null
      modifies this`chain, chain, node
      ensures Valid()
      ensures Nodes() == InsertAt(old(Nodes()), InsertIndex(old(Keys()), node.key), node)
      ensures Keys() == InsertAt(old(Keys()), InsertIndex(old(Keys()), node.key), node.key)
      ensures node.key == old(node.key)
    {
      hide Valid, InsertIndex;
      var anchor, i := FindAnchor(node.key);
      InsertInside(chain, i, node);
      InsertBefore(anchor, node, i);
    }
  }
}
