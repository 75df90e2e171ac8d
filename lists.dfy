/**
 * List: the doubly linked list of the library.
 *
 * Nodes are objects with `data`, `prev` and `next` fields; the list holds its
 * `front` and `back` nodes. The ghost fields give the abstract view: `Nodes` is
 * the chain from front to back (and the list's footprint), `Contents` the
 * elements it holds, `Index` the position of each node of the chain, and
 * `Destroyed` the teardown log of the removal paths (as in Vector). A `*T`
 * pointer to an element of the list is the node holding it, so the `Ref`
 * searches take and return `Node?` values.
 */
module Lists {
  import opened Common
  import opened Comparable
  import opened Sequences
  import opened Vectors

  class Node<T> {
    var data: T
    var prev: Node?<T>
    var next: Node?<T>

    /** newListNodeValue: an unlinked node holding `value`. */
    constructor (value: T)
      ensures data == value && prev == null && next == null
    {
      data := value;
      prev := null;
      next := null;
    }
  }

  /**
   * `ns` is a chain of nodes from `front` to `back`, linked both ways, holding
   * `cs`; `index` numbers its nodes consecutively from `lo`, so no node occurs
   * twice.
   */
  ghost predicate Chain<T>(front: Node?<T>, back: Node?<T>, cs: seq<T>, ns: seq<Node<T>>,
                           index: map<Node<T>, int>, lo: int)
    reads ns
  {
    && Linked(ns, cs)
    && Numbered(ns, index, lo)
    && (ns == [] ==> front == null && back == null)
    && (ns != [] ==> front == ns[0] && back == ns[|ns| - 1])
    && (ns != [] ==> front.prev == null && back.next == null)
  }

  /** The nodes of `ns` hold `cs`, and each links to its neighbours in `ns`. */
  ghost predicate Linked<T>(ns: seq<Node<T>>, cs: seq<T>)
    reads ns
  {
    && |ns| == |cs|
    && (forall i :: 0 <= i < |ns| ==> ns[i].data == cs[i])
    && (forall i :: 0 <= i < |ns| - 1 ==> ns[i].next == ns[i + 1])
    && (forall i :: 0 < i < |ns| ==> ns[i].prev == ns[i - 1])
  }

  /**
   * Linked but for two links under repair: the next link of the node at `a`
   * and the prev link of the node at `b`.
   */
  ghost predicate LinkedExcept<T>(ns: seq<Node<T>>, cs: seq<T>, a: int, b: int)
    reads ns
  {
    && |ns| == |cs|
    && (forall i :: 0 <= i < |ns| ==> ns[i].data == cs[i])
    && (forall i :: 0 <= i < |ns| - 1 && i != a ==> ns[i].next == ns[i + 1])
    && (forall i :: 0 < i < |ns| && i != b ==> ns[i].prev == ns[i - 1])
  }

  /** `index` numbers the nodes of `ns` consecutively from `lo`. */
  ghost predicate Numbered<T>(ns: seq<Node<T>>, index: map<Node<T>, int>, lo: int)
  {
    forall i :: 0 <= i < |ns| ==> ns[i] in index && index[ns[i]] == lo + i
  }

  /**
   * The numbering of `ns` after `node` is linked in at position `p`: the
   * nodes before `p` keep their number, `node` takes `lo + p` and the nodes
   * from `p` on move up by one.
   */
  ghost function Renumbered<T>(index: map<Node<T>, int>, ns: seq<Node<T>>, lo: int, p: int, node: Node<T>): (r: map<Node<T>, int>)
    requires 0 <= p <= |ns| && node !in ns
    requires Numbered(ns, index, lo)
    ensures node in r && r[node] == lo + p
    ensures forall i :: 0 <= i < |ns| ==> ns[i] in r && r[ns[i]] == lo + (if i < p then i else i + 1)
  {
    map m | m in index.Keys + {node} :: if m == node then lo + p else if index[m] < lo + p then index[m] else index[m] + 1
  }

  /**
   * The numbering of `ns` after its node at position `p` is unlinked: the
   * nodes before `p` keep their number and the nodes after it move down by one.
   */
  ghost function Unnumbered<T>(index: map<Node<T>, int>, ns: seq<Node<T>>, lo: int, p: int): (r: map<Node<T>, int>)
    requires 0 <= p < |ns|
    requires Numbered(ns, index, lo)
    ensures forall i :: 0 <= i < |ns| && i != p ==> ns[i] in r && r[ns[i]] == lo + (if i < p then i else i - 1)
  {
    map m | m in index.Keys && m != ns[p] :: if index[m] < lo + p then index[m] else index[m] - 1
  }

  class List<T> {
    var front: Node?<T>
    var back: Node?<T>
    ghost var Contents: seq<T>
    ghost var Nodes: seq<Node<T>>
    ghost var Index: map<Node<T>, int>
    ghost var Lo: int
    ghost var Destroyed: seq<T>

    /** The list's nodes form the chain `Nodes` holding `Contents`. */
    ghost predicate Valid()
      reads this, Nodes
    {
      Chain(front, back, Contents, Nodes, Index, Lo)
    }

    /** NewList / MakeList: an empty list. */
    constructor ()
      ensures Valid()
      ensures Contents == [] && Nodes == [] && Destroyed == []
    {
      front, back := null, null;
      Contents, Nodes, Index, Lo, Destroyed := [], [], map[], 0, [];
    }

    /** NewListFromData / MakeListFromData: PushBack of each value in turn. */
    constructor FromData(values: seq<T>)
      ensures Valid() && fresh(Nodes)
      ensures Contents == values && Destroyed == []
    {
      front, back := null, null;
      Contents, Nodes, Index, Lo, Destroyed := [], [], map[], 0, [];
      new;
      for k := 0 to |values|
        invariant Valid() && fresh(Nodes)
        invariant Contents == values[..k] && Destroyed == []
      {
        PushBack(values[k]);
        assert values[..k + 1] == values[..k] + [values[k]];
      }
      assert values[..|values|] == values;
    }

    /** NewListFromList / MakeListFromList: PushBack of each element of `other`, front to back. */
    constructor FromList(other: List<T>)
      requires other.Valid()
      ensures Valid() && fresh(Nodes)
      ensures Contents == other.Contents && Destroyed == []
    {
      front, back := null, null;
      Contents, Nodes, Index, Lo, Destroyed := [], [], map[], 0, [];
      new;
      var node := other.front;
      ghost var p := 0;
      while node != null
        invariant 0 <= p <= |other.Nodes|
        invariant node == (if p < |other.Nodes| then other.Nodes[p] else null)
        invariant Valid() && fresh(Nodes)
        invariant Contents == other.Contents[..p] && Destroyed == []
        decreases |other.Nodes| - p
      {
        PushBack(node.data);
        assert other.Contents[..p + 1] == other.Contents[..p] + [other.Contents[p]];
        node := node.next;
        p := p + 1;
      }
      assert other.Contents[..p] == other.Contents;
    }

    // -------------------------------------------------------------------------
    // Access
    // -------------------------------------------------------------------------

    /** The front element; an empty list panics (with the message "empty vector"). */
    function Front(): (r: Result<T>)
      requires Valid()
      reads this, Nodes
      ensures r.Ok? <==> Contents != []
      ensures r.Ok? ==> r.value == Contents[0]
      ensures r.Err? ==> r.error == EmptyVector
    {
      if IsEmpty() then Err(EmptyVector) else Ok(front.data)
    }

    /** The node holding the front element. */
    function FrontRef(): (r: Result<Node<T>>)
      requires Valid()
      reads this, Nodes
      ensures r.Ok? <==> Contents != []
      ensures r.Ok? ==> r.value == Nodes[0] && r.value.data == Contents[0]
      ensures r.Err? ==> r.error == EmptyVector
    {
      if IsEmpty() then Err(EmptyVector) else var node: Node<T> := front; Ok(node)
    }

    /** The back element; an empty list panics. */
    function Back(): (r: Result<T>)
      requires Valid()
      reads this, Nodes
      ensures r.Ok? <==> Contents != []
      ensures r.Ok? ==> r.value == Contents[|Contents| - 1]
      ensures r.Err? ==> r.error == EmptyVector
    {
      if IsEmpty() then Err(EmptyVector) else Ok(back.data)
    }

    /** The node holding the back element. */
    function BackRef(): (r: Result<Node<T>>)
      requires Valid()
      reads this, Nodes
      ensures r.Ok? <==> Contents != []
      ensures r.Ok? ==> r.value == Nodes[|Nodes| - 1] && r.value.data == Contents[|Contents| - 1]
      ensures r.Err? ==> r.error == EmptyVector
    {
      if IsEmpty() then Err(EmptyVector) else var node: Node<T> := back; Ok(node)
    }

    /** A list is empty exactly when it has no front node. */
    function IsEmpty(): (r: bool)
      requires Valid()
      reads this, Nodes
      ensures r <==> Contents == []
    {
      front == null
    }

    /** Counts the nodes by walking the chain from the front. */
    method Size() returns (total: int)
      requires Valid()
      ensures total == |Contents|
    {
      if IsEmpty() {
        return 0;
      }
      total := 0;
      var node := front;
      while node != null
        invariant 0 <= total <= |Nodes|
        invariant node == (if total < |Nodes| then Nodes[total] else null)
        decreases |Nodes| - total
      {
        total := total + 1;
        node := node.next;
      }
    }

    // -------------------------------------------------------------------------
    // Mutators
    // -------------------------------------------------------------------------

    /** Links a new node holding `value` after the back node. */
    method PushBack(value: T)
      requires Valid()
      modifies this, Nodes
      ensures Valid()
      ensures Contents == old(Contents) + [value]
      ensures |Nodes| == |old(Nodes)| + 1 && Nodes == old(Nodes) + [Nodes[|old(Nodes)|]] && fresh(Nodes[|old(Nodes)|])
      ensures Destroyed == old(Destroyed)
    {
      var node := new Node(value);
      var empty := IsEmpty();
      LinkAfterBack(node);
      if empty {
        front := node;
      }
      back := node;
      Appended(node);
    }

    /** The ghost side of PushBack: `node`, already linked in after the chain, joins it. */
    ghost method Appended(node: Node<T>)
      requires Linked(Nodes, Contents) && Numbered(Nodes, Index, Lo) && node !in Nodes
      requires back == node && node.next == null
      requires Nodes == [] ==> node.prev == null && front == node
      requires Nodes != [] ==> node.prev == Nodes[|Nodes| - 1] && Nodes[|Nodes| - 1].next == node
      requires Nodes != [] ==> front == Nodes[0] && front.prev == null
      modifies this
      ensures Valid() && Destroyed == old(Destroyed) && front == old(front) && back == old(back)
      ensures Contents == old(Contents) + [node.data] && Nodes == old(Nodes) + [node]
    {
      ghost var ns, cs, idx := Nodes, Contents, Index;
      Contents := cs + [node.data];
      Nodes := ns + [node];
      Index := idx[node := Lo + |ns|];
      AppendedValid(ns, node, cs, idx);
    }

    /**
     * The pointer writes of PushBack: the back node, if any, links forward to
     * `node` and `node` links back to it. The rest of the chain is as it was.
     */
    method LinkAfterBack(node: Node<T>)
      requires Valid() && node !in Nodes && node.prev == null && node.next == null
      modifies node, Nodes
      ensures node.data == old(node.data) && node.next == null
      ensures node.prev == (if Nodes == [] then null else Nodes[|Nodes| - 1])
      ensures Nodes != [] ==> Nodes[|Nodes| - 1].next == node && Nodes[0].prev == null
      ensures Linked(Nodes, Contents)
    {
      if back != null {
        back.next := node;
      }
      node.prev := back;
      forall i | 0 <= i < |Nodes|
        ensures Nodes[i].data == old(Nodes[i].data) && Nodes[i].prev == old(Nodes[i].prev)
        ensures i < |Nodes| - 1 ==> Nodes[i].next == old(Nodes[i].next)
      {
        assert Index[Nodes[i]] == Lo + i;
      }
    }

    /** A chain `ns + [node]` whose links, elements and numbering are all in place is Valid. */
    lemma AppendedValid(ns: seq<Node<T>>, node: Node<T>, cs: seq<T>, index: map<Node<T>, int>)
      requires Nodes == ns + [node] && Contents == cs + [node.data] && |ns| == |cs|
      requires Numbered(ns, index, Lo) && node !in ns && Index == index[node := Lo + |ns|]
      requires Linked(ns, cs)
      requires back == node && node.next == null
      requires ns == [] ==> node.prev == null && front == node
      requires ns != [] ==> node.prev == ns[|ns| - 1] && ns[|ns| - 1].next == node && front == ns[0] && front.prev == null
      ensures Valid()
    {
    }

    /** Links a new node holding `value` before the front node. */
    method PushFront(value: T)
      requires Valid()
      modifies this, Nodes
      ensures Valid()
      ensures Contents == [value] + old(Contents)
      ensures |Nodes| == |old(Nodes)| + 1 && Nodes == [Nodes[0]] + old(Nodes) && fresh(Nodes[0])
      ensures Destroyed == old(Destroyed)
    {
      var node := new Node(value);
      var empty := IsEmpty();
      LinkBeforeFront(node);
      if empty {
        back := node;
      }
      front := node;
      Prepended(node);
    }

    /** The ghost side of PushFront: `node`, already linked in before the chain, joins it. */
    ghost method Prepended(node: Node<T>)
      requires Linked(Nodes, Contents) && Numbered(Nodes, Index, Lo) && node !in Nodes
      requires front == node && node.prev == null
      requires Nodes == [] ==> node.next == null && back == node
      requires Nodes != [] ==> node.next == Nodes[0] && Nodes[0].prev == node
      requires Nodes != [] ==> back == Nodes[|Nodes| - 1] && back.next == null
      modifies this
      ensures Valid() && Destroyed == old(Destroyed) && front == old(front) && back == old(back)
      ensures Contents == [node.data] + old(Contents) && Nodes == [node] + old(Nodes)
    {
      ghost var ns, cs, idx := Nodes, Contents, Index;
      Contents := [node.data] + cs;
      Nodes := [node] + ns;
      Lo := Lo - 1;
      Index := idx[node := Lo];
      PrependedValid(node, ns, cs, idx);
    }

    /**
     * The pointer writes of PushFront: the front node, if any, links back to
     * `node` and `node` links forward to it. The rest of the chain is as it was.
     */
    method LinkBeforeFront(node: Node<T>)
      requires Valid() && node !in Nodes && node.prev == null && node.next == null
      modifies node, Nodes
      ensures node.data == old(node.data) && node.prev == null
      ensures node.next == (if Nodes == [] then null else Nodes[0])
      ensures Nodes != [] ==> Nodes[0].prev == node && Nodes[|Nodes| - 1].next == null
      ensures Linked(Nodes, Contents)
    {
      if front != null {
        front.prev := node;
      }
      node.next := front;
      forall i | 0 <= i < |Nodes|
        ensures Nodes[i].data == old(Nodes[i].data) && Nodes[i].next == old(Nodes[i].next)
        ensures i > 0 ==> Nodes[i].prev == old(Nodes[i].prev)
      {
        assert Index[Nodes[i]] == Lo + i;
      }
    }

    /** A chain `[node] + ns` whose links, elements and numbering are all in place is Valid. */
    lemma PrependedValid(node: Node<T>, ns: seq<Node<T>>, cs: seq<T>, index: map<Node<T>, int>)
      requires Nodes == [node] + ns && Contents == [node.data] + cs && |ns| == |cs|
      requires Numbered(ns, index, Lo + 1) && node !in ns && Index == index[node := Lo]
      requires Linked(ns, cs)
      requires front == node && node.prev == null
      requires ns == [] ==> node.next == null && back == node
      requires ns != [] ==> node.next == ns[0] && ns[0].prev == node && back == ns[|ns| - 1] && back.next == null
      ensures Valid()
    {
      forall i | 0 < i < |Nodes| ensures Nodes[i] == ns[i - 1] {}
    }

    /** Unlinks the back node, tearing its element down; an empty list panics. */
    method PopBack() returns (outcome: Outcome)
      requires Valid()
      modifies this, Nodes
      ensures Valid()
      ensures outcome.Pass? <==> old(Contents) != []
      ensures outcome.Fail? ==> outcome.error == EmptyList
      ensures outcome.Fail? ==> Contents == old(Contents) && Destroyed == old(Destroyed)
      ensures outcome.Pass? ==> Contents == old(Contents)[..|old(Contents)| - 1]
      ensures outcome.Pass? ==> Nodes == old(Nodes)[..|old(Nodes)| - 1]
      ensures outcome.Pass? ==> Destroyed == old(Destroyed) + [old(Contents)[|old(Contents)| - 1]]
    {
      if IsEmpty() {
        return Fail(EmptyList);
      }
      Destroyed := Destroyed + [back.data];
      ghost var ns, n := Nodes, |Nodes|;
      if front == back {
        assert Index[ns[0]] == Lo && Index[ns[n - 1]] == Lo + n - 1;
        front, back := null, null;
        Contents, Nodes := [], [];
      } else {
        assert n >= 2 && back.prev == ns[n - 2];
        back.prev.next := null;
        back := back.prev;
        Contents := Contents[..n - 1];
        Nodes := ns[..n - 1];
        forall i | 0 <= i < n - 2 ensures ns[i].next == old(ns[i].next) {
          assert Index[ns[i]] == Lo + i;
        }
      }
      outcome := Pass;
    }

    /** Unlinks the front node, tearing its element down; an empty list panics. */
    method PopFront() returns (outcome: Outcome)
      requires Valid()
      modifies this, Nodes
      ensures Valid()
      ensures outcome.Pass? <==> old(Contents) != []
      ensures outcome.Fail? ==> outcome.error == EmptyList
      ensures outcome.Fail? ==> Contents == old(Contents) && Destroyed == old(Destroyed)
      ensures outcome.Pass? ==> Contents == old(Contents)[1..]
      ensures outcome.Pass? ==> Nodes == old(Nodes)[1..]
      ensures outcome.Pass? ==> Destroyed == old(Destroyed) + [old(Contents)[0]]
    {
      if IsEmpty() {
        return Fail(EmptyList);
      }
      Destroyed := Destroyed + [front.data];
      ghost var ns, n, idx := Nodes, |Nodes|, Index;
      if front == back {
        assert Index[ns[0]] == Lo && Index[ns[n - 1]] == Lo + n - 1;
        front, back := null, null;
        Contents, Nodes := [], [];
      } else {
        assert n >= 2 && front.next == ns[1];
        front.next.prev := null;
        front := front.next;
        Contents := Contents[1..];
        Nodes := ns[1..];
        Lo := Lo + 1;
        forall i | 1 < i < n ensures ns[i].prev == old(ns[i].prev) {
          assert idx[ns[i]] == old(Lo) + i;
        }
        forall i | 0 <= i < |Nodes| ensures Nodes[i] == ns[i + 1] {
        }
      }
      outcome := Pass;
    }
  
    /** Pops from the back until the list is empty: one teardown per element, last first. */
    method Clear()
      requires Valid()
      modifies this, Nodes
      ensures Valid() && Contents == [] && Nodes == []
      ensures Destroyed == old(Destroyed) + Reversed(old(Contents))
    {
      ghost var s := Contents;
      while !IsEmpty()
        invariant Valid()
        invariant |Contents| <= |s| && Contents == s[..|Contents|] && Nodes == old(Nodes)[..|Contents|]
        invariant Destroyed == old(Destroyed) + Reversed(s[|Contents|..])
        decreases |Contents|
      {
        ghost var k, d := |Contents|, Destroyed;
        ghost var r := Reversed(s[k..]) + [s[k - 1]];
        assert Reversed(s[k - 1..]) == r by {
          assert s[k - 1..][1..] == s[k..];
        }
        assert s[..k][..k - 1] == s[..k - 1];
        assert old(Nodes)[..k][..k - 1] == old(Nodes)[..k - 1];
        var _ := PopBack();
      }
      assert s[0..] == s;
    }

    /** Exchanges the chains of the two lists (their front and back nodes). */
    method Swap(other: List<T>)
      requires Valid() && other.Valid()
      modifies this, other
      ensures Valid() && other.Valid()
      ensures Contents == old(other.Contents) && other.Contents == old(Contents)
      ensures Nodes == old(other.Nodes) && other.Nodes == old(Nodes)
      ensures Destroyed == old(Destroyed) && other.Destroyed == old(other.Destroyed)
    {
      if other == this {
        // Swapping a list with itself assigns every field its own value.
        return;
      }
      ghost var c, ns, idx, lo := Contents, Nodes, Index, Lo;
      ghost var oc, ons, oidx, olo := other.Contents, other.Nodes, other.Index, other.Lo;
      var f, b, of, ob := front, back, other.front, other.back;
      Adopt(of, ob, oc, ons, oidx, olo);
      other.Adopt(f, b, c, ns, idx, lo);
    }

    /** Makes this list the owner of the chain from `f` to `b`. */
    method Adopt(f: Node?<T>, b: Node?<T>, ghost cs: seq<T>, ghost ns: seq<Node<T>>, ghost index: map<Node<T>, int>, ghost lo: int)
      requires Chain(f, b, cs, ns, index, lo)
      modifies this
      ensures Valid() && Contents == cs && Nodes == ns && Destroyed == old(Destroyed)
    {
      front, back := f, b;
      Contents, Nodes, Index, Lo := cs, ns, index, lo;
    }

    /**
     * Insert as written. On an empty list only index 0 is accepted. Otherwise
     * the walk counts nodes up to `index` and links the new node before the
     * node at that position; at position 0 that node has no predecessor and
     * the link dereferences nil. An index equal to the size, or a negative
     * one, matches no node and the call returns without a change.
     */
    method Insert(index: int, value: T) returns (outcome: Outcome)
      requires Valid()
      modifies this, Nodes
      ensures Valid() && Destroyed == old(Destroyed)
      ensures old(Contents) == [] && index != 0 ==> outcome == Fail(EmptyListIndex) && Contents == []
      ensures old(Contents) == [] && index == 0 ==> outcome == Pass && Contents == [value] && fresh(Nodes[0])
      ensures old(Contents) != [] && index == 0 ==>
                outcome == Fail(NilDereference) && Contents == old(Contents) && Nodes == old(Nodes)
      ensures 0 < index < |old(Contents)| ==>
                && outcome == Pass && Contents == InsertedAt(old(Contents), index, value)
                && |Nodes| == |old(Nodes)| + 1 && Nodes == InsertedAt(old(Nodes), index, Nodes[index])
                && fresh(Nodes[index])
      ensures old(Contents) != [] && (index < 0 || index == |old(Contents)|) ==>
                outcome == Pass && Contents == old(Contents) && Nodes == old(Nodes)
      ensures old(Contents) != [] && index > |old(Contents)| ==>
                outcome == Fail(IndexOutOfBounds) && Contents == old(Contents) && Nodes == old(Nodes)
    {
      if IsEmpty() && index != 0 {
        return Fail(EmptyListIndex);
      } else if IsEmpty() {
        var node := new Node(value);
        front := node;
        back := front;
        Contents, Nodes, Index := [value], [node], Index[node := Lo];
        return Pass;
      }
      var newNode := new Node(value);
      var idx := 0;
      var node := front;
      ghost var p := 0;
      while node != null
        invariant 0 <= p <= |Nodes|
        invariant node == (if p < |Nodes| then Nodes[p] else null)
        invariant idx == (if index < 0 then 0 else p)
        invariant 0 <= index ==> p <= index
        invariant Valid() && Contents == old(Contents) && Nodes == old(Nodes) && Destroyed == old(Destroyed)
        invariant newNode !in Nodes && newNode.data == value && newNode.prev == null && newNode.next == null
        decreases |Nodes| - p
      {
        if idx < index {
          idx := idx + 1;
        } else if idx == index {
          assert p > 0 ==> node.prev == Nodes[p - 1];
          if node.prev == null {
            return Fail(NilDereference);
          }
          LinkBefore(node, newNode, p);
          return Pass;
        }
        node := node.next;
        p := p + 1;
      }
      if idx < index {
        return Fail(IndexOutOfBounds);
      }
      return Pass;
    }

    /** Links the unlinked node `newNode` in before `node`, the node at position `p > 0`. */
    method LinkBefore(node: Node<T>, newNode: Node<T>, ghost p: int)
      requires Valid()
      requires 0 < p < |Nodes| && node == Nodes[p]
      requires newNode !in Nodes && newNode.prev == null && newNode.next == null
      modifies this, Nodes, newNode
      ensures Valid() && Destroyed == old(Destroyed)
      ensures Contents == InsertedAt(old(Contents), p, old(newNode.data))
      ensures Nodes == InsertedAt(old(Nodes), p, newNode)
    {
      var next := node.next;
      assert p < |Nodes| - 1 ==> next == Nodes[p + 1];
      LinkNodes(node, newNode, p);
      if next == null {
        // Go also stores nil in node.next here, which it already holds.
        back := node;
      }
      Spliced(p, newNode);
    }

    /** The ghost side of LinkBefore: `newNode`, already linked in at position `p`, joins the chain. */
    ghost method Spliced(p: int, newNode: Node<T>)
      requires 0 < p < |Nodes| && LinkedExcept(Nodes, Contents, p - 1, p)
      requires Numbered(Nodes, Index, Lo) && newNode !in Nodes
      requires Nodes[p - 1].next == newNode && newNode.prev == Nodes[p - 1]
      requires newNode.next == Nodes[p] && Nodes[p].prev == newNode
      requires front == Nodes[0] && front.prev == null && back == Nodes[|Nodes| - 1] && back.next == null
      modifies this
      ensures Valid() && Destroyed == old(Destroyed) && front == old(front) && back == old(back)
      ensures Contents == InsertedAt(old(Contents), p, newNode.data)
      ensures Nodes == InsertedAt(old(Nodes), p, newNode)
    {
      ghost var ns, cs, idx := Nodes, Contents, Index;
      Contents := InsertedAt(cs, p, newNode.data);
      Nodes := InsertedAt(ns, p, newNode);
      Index := Renumbered(idx, ns, Lo, p, newNode);
      SplicedValid(ns, cs, p, newNode, idx);
    }

    /** The pointer writes of LinkBefore: `newNode` goes between `node` and its predecessor. */
    method LinkNodes(node: Node<T>, newNode: Node<T>, ghost p: int)
      requires Valid()
      requires 0 < p < |Nodes| && node == Nodes[p]
      requires newNode !in Nodes && newNode.prev == null && newNode.next == null
      modifies Nodes[p - 1], node, newNode
      ensures Nodes[p - 1].next == newNode && newNode.prev == Nodes[p - 1]
      ensures newNode.next == node && node.prev == newNode && newNode.data == old(newNode.data)
      ensures Nodes[0].prev == null && Nodes[|Nodes| - 1].next == null
      ensures LinkedExcept(Nodes, Contents, p - 1, p)
    {
      var prev := node.prev;
      assert prev == Nodes[p - 1] && Index[prev] == Lo + p - 1;
      prev.next := newNode;
      newNode.prev := prev;
      newNode.next := node;
      node.prev := newNode;
      forall i | 0 <= i < |Nodes|
        ensures Nodes[i].data == old(Nodes[i].data)
        ensures i != p - 1 ==> Nodes[i].next == old(Nodes[i].next)
        ensures i != p ==> Nodes[i].prev == old(Nodes[i].prev)
      {
        assert Index[Nodes[i]] == Lo + i;
      }
    }

    /** The chain `ns` with `newNode` linked in at position `p`, all in place, is Valid. */
    lemma SplicedValid(ns: seq<Node<T>>, cs: seq<T>, p: int, newNode: Node<T>, index: map<Node<T>, int>)
      requires 0 < p < |ns| && LinkedExcept(ns, cs, p - 1, p)
      requires Nodes == InsertedAt(ns, p, newNode) && Contents == InsertedAt(cs, p, newNode.data)
      requires Numbered(ns, index, Lo) && newNode !in ns && Index == Renumbered(index, ns, Lo, p, newNode)
      requires ns[p - 1].next == newNode && newNode.prev == ns[p - 1]
      requires newNode.next == ns[p] && ns[p].prev == newNode
      requires front == ns[0] && front.prev == null && back == ns[|ns| - 1] && back.next == null
      ensures Valid()
    {
      forall i | 0 <= i < |Nodes|
        ensures Nodes[i] in Index && Index[Nodes[i]] == Lo + i && Nodes[i].data == Contents[i]
      {
        if i < p {
          assert Nodes[i] == ns[i];
        } else if p < i {
          assert Nodes[i] == ns[i - 1];
        }
      }
      forall i | 0 <= i < |Nodes| - 1 ensures Nodes[i].next == Nodes[i + 1] {
        if i < p - 1 {
          assert Nodes[i] == ns[i] && Nodes[i + 1] == ns[i + 1];
        } else if p < i {
          assert Nodes[i] == ns[i - 1] && Nodes[i + 1] == ns[i];
        }
      }
      forall i | 0 < i < |Nodes| ensures Nodes[i].prev == Nodes[i - 1] {
        if i < p {
          assert Nodes[i] == ns[i] && Nodes[i - 1] == ns[i - 1];
        } else if p + 1 < i {
          assert Nodes[i] == ns[i - 1] && Nodes[i - 1] == ns[i - 2];
        }
      }
    }

    /**
     * Insert with the evidently intended contract, the one Vector.Insert keeps:
     * every index in [0, Size()] inserts there (0 through PushFront, Size()
     * through PushBack) and any other index panics.
     */
    method InsertAt(index: int, value: T) returns (outcome: Outcome)
      requires Valid()
      modifies this, Nodes
      ensures Valid() && Destroyed == old(Destroyed)
      ensures outcome.Fail? <==> index < 0 || index > |old(Contents)|
      ensures outcome.Fail? ==> outcome.error == IndexOutOfBounds && Contents == old(Contents) && Nodes == old(Nodes)
      ensures outcome.Pass? ==> Contents == InsertedAt(old(Contents), index, value)
      ensures outcome.Pass? ==>
                && |Nodes| == |old(Nodes)| + 1 && Nodes == InsertedAt(old(Nodes), index, Nodes[index])
                && fresh(Nodes[index])
    {
      var n := Size();
      if index < 0 || index > n {
        return Fail(IndexOutOfBounds);
      }
      ghost var cs, ns := Contents, Nodes;
      if index == 0 {
        PushFront(value);
        InsertAtEnds(cs, value);
        InsertAtEnds(ns, Nodes[0]);
        outcome := Pass;
      } else if index == n {
        PushBack(value);
        InsertAtEnds(cs, value);
        InsertAtEnds(ns, Nodes[n]);
        outcome := Pass;
      } else {
        outcome := Insert(index, value);
      }
    }

    /**
     * Erase as written. The visitor sets `break_out` on every call, so the walk
     * stops after the front node whatever `index` is. Index 0 tears the front
     * element down and then dereferences the front node's nil predecessor;
     * index 1 only counts; a larger index panics and a negative one returns.
     * No node is ever unlinked.
     */
    method Erase(index: int) returns (outcome: Outcome)
      requires Valid()
      modifies this
      ensures Valid() && Contents == old(Contents) && Nodes == old(Nodes)
      ensures old(Contents) == [] ==> outcome == Fail(EmptyList) && Destroyed == old(Destroyed)
      ensures old(Contents) != [] && index == 0 ==>
                outcome == Fail(NilDereference) && Destroyed == old(Destroyed) + [old(Contents)[0]]
      ensures old(Contents) != [] && (index < 0 || index == 1) ==> outcome == Pass && Destroyed == old(Destroyed)
      ensures old(Contents) != [] && index > 1 ==> outcome == Fail(IndexOutOfBounds) && Destroyed == old(Destroyed)
    {
      if IsEmpty() {
        return Fail(EmptyList);
      }
      var idx := 0;
      var node := front;
      var breakOut := false;
      while !breakOut && node != null
        invariant !breakOut ==> idx == 0 && node == front
        invariant breakOut ==> idx == (if 0 < index then 1 else 0) && index != 0
        invariant Valid() && Contents == old(Contents) && Nodes == old(Nodes) && Destroyed == old(Destroyed)
        decreases if breakOut then 0 else 1
      {
        if idx < index {
          idx := idx + 1;
        } else if idx == index {
          Destroyed := Destroyed + [node.data];
          // `prev` is the front node's predecessor, nil: `prev.next = next` panics.
          assert node.prev == null;
          return Fail(NilDereference);
        }
        breakOut := true;
        node := node.next;
      }
      if idx < index {
        return Fail(IndexOutOfBounds);
      }
      return Pass;
    }

    /**
     * Erase with the evidently intended contract, the one Vector.Erase keeps:
     * the node at `index` is unlinked and its element torn down. An empty list
     * panics first, then any index outside [0, Size()).
     */
    method EraseAt(index: int) returns (outcome: Outcome)
      requires Valid()
      modifies this, Nodes
      ensures Valid()
      ensures old(Contents) == [] ==> outcome == Fail(EmptyList)
      ensures old(Contents) != [] && !(0 <= index < |old(Contents)|) ==> outcome == Fail(IndexOutOfBounds)
      ensures outcome.Pass? <==> 0 <= index < |old(Contents)|
      ensures outcome.Fail? ==> Contents == old(Contents) && Nodes == old(Nodes) && Destroyed == old(Destroyed)
      ensures outcome.Pass? ==> Contents == ErasedAt(old(Contents), index) && Nodes == ErasedAt(old(Nodes), index)
      ensures outcome.Pass? ==> Destroyed == old(Destroyed) + [old(Contents)[index]]
    {
      if IsEmpty() {
        return Fail(EmptyList);
      }
      if index < 0 {
        return Fail(IndexOutOfBounds);
      }
      var node := Seek(index);
      if node == null {
        return Fail(IndexOutOfBounds);
      }
      assert index > 0 ==> node.prev == Nodes[index - 1];
      assert index < |Nodes| - 1 ==> node.next == Nodes[index + 1];
      if node.prev == null {
        EraseFront();
      } else if node.next == null {
        EraseBack();
      } else {
        Unlink(node, index);
      }
      outcome := Pass;
    }

    /** PopFront of a non-empty list, stated as Erase at position 0. */
    method EraseFront()
      requires Valid() && Contents != []
      modifies this, Nodes
      ensures Valid()
      ensures Contents == ErasedAt(old(Contents), 0) && Nodes == ErasedAt(old(Nodes), 0)
      ensures Destroyed == old(Destroyed) + [old(Contents)[0]]
    {
      ghost var cs, ns := Contents, Nodes;
      var _ := PopFront();
      EraseAtEnds(cs);
      EraseAtEnds(ns);
    }

    /** PopBack of a non-empty list, stated as Erase at the last position. */
    method EraseBack()
      requires Valid() && Contents != []
      modifies this, Nodes
      ensures Valid()
      ensures Contents == ErasedAt(old(Contents), |old(Contents)| - 1)
      ensures Nodes == ErasedAt(old(Nodes), |old(Nodes)| - 1)
      ensures Destroyed == old(Destroyed) + [old(Contents)[|old(Contents)| - 1]]
    {
      ghost var cs, ns := Contents, Nodes;
      var _ := PopBack();
      EraseAtEnds(cs);
      EraseAtEnds(ns);
    }

    /** Walks from the front to the node at position `index`; nil past the back. */
    method Seek(index: int) returns (node: Node?<T>)
      requires Valid() && 0 <= index
      ensures node == (if index < |Nodes| then Nodes[index] else null)
    {
      node := front;
      var idx := 0;
      while idx < index && node != null
        invariant 0 <= idx <= index && idx <= |Nodes|
        invariant node == (if idx < |Nodes| then Nodes[idx] else null)
      {
        node := node.next;
        idx := idx + 1;
      }
    }

    /** Unlinks `node`, the node at position `p`, which has nodes on both sides, tearing its element down. */
    method Unlink(node: Node<T>, ghost p: int)
      requires Valid()
      requires 0 < p < |Nodes| - 1 && node == Nodes[p]
      modifies this, Nodes
      ensures Valid()
      ensures Contents == ErasedAt(old(Contents), p) && Nodes == ErasedAt(old(Nodes), p)
      ensures Destroyed == old(Destroyed) + [old(Contents)[p]]
    {
      Destroyed := Destroyed + [node.data];
      UnlinkNodes(node, p);
      Unlinked(p);
    }

    /** The ghost side of Unlink: the node at position `p`, already bypassed by its neighbours, leaves the chain. */
    ghost method Unlinked(p: int)
      requires 0 < p < |Nodes| - 1 && LinkedExcept(Nodes, Contents, p - 1, p + 1)
      requires Numbered(Nodes, Index, Lo)
      requires Nodes[p - 1].next == Nodes[p + 1] && Nodes[p + 1].prev == Nodes[p - 1]
      requires front == Nodes[0] && front.prev == null && back == Nodes[|Nodes| - 1] && back.next == null
      modifies this
      ensures Valid() && Destroyed == old(Destroyed) && front == old(front) && back == old(back)
      ensures Contents == ErasedAt(old(Contents), p) && Nodes == ErasedAt(old(Nodes), p)
    {
      ghost var ns, cs, idx := Nodes, Contents, Index;
      Contents := ErasedAt(cs, p);
      Nodes := ErasedAt(ns, p);
      Index := Unnumbered(idx, ns, Lo, p);
      UnlinkedValid(ns, cs, p, idx);
    }

    /** The pointer writes of Unlink: the neighbours of `node` are linked to each other. */
    method UnlinkNodes(node: Node<T>, ghost p: int)
      requires Valid()
      requires 0 < p < |Nodes| - 1 && node == Nodes[p]
      modifies Nodes[p - 1], Nodes[p + 1]
      ensures Nodes[p - 1].next == Nodes[p + 1] && Nodes[p + 1].prev == Nodes[p - 1]
      ensures Nodes[0].prev == null && Nodes[|Nodes| - 1].next == null
      ensures LinkedExcept(Nodes, Contents, p - 1, p + 1)
    {
      var prev := node.prev;
      var next := node.next;
      assert prev == Nodes[p - 1] && Index[prev] == Lo + p - 1;
      assert next == Nodes[p + 1] && Index[next] == Lo + p + 1;
      prev.next := next;
      next.prev := prev;
      forall i | 0 <= i < |Nodes|
        ensures Nodes[i].data == old(Nodes[i].data)
        ensures i != p - 1 ==> Nodes[i].next == old(Nodes[i].next)
        ensures i != p + 1 ==> Nodes[i].prev == old(Nodes[i].prev)
      {
        assert Index[Nodes[i]] == Lo + i;
      }
    }

    /** The chain `ns` without its node at `p`, all in place, is Valid. */
    lemma UnlinkedValid(ns: seq<Node<T>>, cs: seq<T>, p: int, index: map<Node<T>, int>)
      requires 0 < p < |ns| - 1 && LinkedExcept(ns, cs, p - 1, p + 1)
      requires Nodes == ErasedAt(ns, p) && Contents == ErasedAt(cs, p)
      requires Numbered(ns, index, Lo) && Index == Unnumbered(index, ns, Lo, p)
      requires ns[p - 1].next == ns[p + 1] && ns[p + 1].prev == ns[p - 1]
      requires front == ns[0] && front.prev == null && back == ns[|ns| - 1] && back.next == null
      ensures Valid()
    {
    }

    // -------------------------------------------------------------------------
    // Visiting and searching
    // -------------------------------------------------------------------------

    /**
     * Calls the visitor on each element from the front until a call sets
     * `break_out`; `stop(e)` is whether the call on `e` sets it. Returns the
     * nodes whose elements were visited, in call order.
     */
    method Visit(stop: T -> bool) returns (visited: seq<Node<T>>)
      requires Valid()
      ensures |visited| <= |Nodes| && visited == Nodes[..|visited|]
      ensures VisitLength(Contents, stop, |visited|)
    {
      visited := [];
      if IsEmpty() {
        return;
      }
      var breakOut := false;
      var node := front;
      while !breakOut && node != null
        invariant |visited| <= |Nodes| && visited == Nodes[..|visited|]
        invariant node == (if |visited| < |Nodes| then Nodes[|visited|] else null)
        invariant forall i :: 0 <= i < |visited| - 1 ==> !stop(Contents[i])
        invariant breakOut <==> |visited| > 0 && stop(Contents[|visited| - 1])
        decreases |Nodes| - |visited|
      {
        assert Nodes[..|visited| + 1] == visited + [node];
        visited := visited + [node];
        breakOut := stop(node.data);
        node := node.next;
      }
    }

    /** Visit from the back to the front. */
    method VisitReverse(stop: T -> bool) returns (visited: seq<Node<T>>)
      requires Valid()
      ensures |visited| <= |Nodes| && visited == Reversed(Nodes)[..|visited|]
      ensures VisitLength(Reversed(Contents), stop, |visited|)
    {
      visited := [];
      if IsEmpty() {
        return;
      }
      ghost var rn, rc := Reversed(Nodes), Reversed(Contents);
      var breakOut := false;
      var node := back;
      while !breakOut && node != null
        invariant |visited| <= |Nodes| && visited == rn[..|visited|]
        invariant node == (if |visited| < |Nodes| then rn[|visited|] else null)
        invariant forall i :: 0 <= i < |visited| - 1 ==> !stop(rc[i])
        invariant breakOut <==> |visited| > 0 && stop(rc[|visited| - 1])
        decreases |Nodes| - |visited|
      {
        assert rn[..|visited| + 1] == visited + [node];
        visited := visited + [node];
        breakOut := stop(node.data);
        node := node.prev;
      }
    }

    /** Whether some element is Equal to `value`; false when the type has no Equal. */
    method ContainsValue(cap: Capability<T>, value: T) returns (ret: bool)
      requires Valid()
      ensures ret <==> cap.Equality? && Contains(Contents, cap.equal, value)
    {
      if IsEmpty() || cap.Missing? {
        return false;
      }
      ret := false;
      var breakOut := false;
      var node := front;
      ghost var p := 0;
      while !breakOut && node != null
        invariant 0 <= p <= |Nodes|
        invariant node == (if p < |Nodes| then Nodes[p] else null)
        invariant forall j :: 0 <= j < p && !(breakOut && j == p - 1) ==> !cap.equal(Contents[j], value)
        invariant ret == breakOut
        invariant breakOut ==> p > 0 && cap.equal(Contents[p - 1], value)
        decreases |Nodes| - p
      {
        if cap.equal(node.data, value) {
          ret := true;
          breakOut := true;
        }
        node := node.next;
        p := p + 1;
      }
    }

    /** Whether `r` is one of the list's nodes (the address of one of its elements). */
    method ContainsRef(r: Node?<T>) returns (ret: bool)
      requires Valid()
      ensures ret <==> r != null && r in Nodes
    {
      if IsEmpty() {
        return false;
      }
      ret := false;
      var breakOut := false;
      var node := front;
      ghost var p := 0;
      while !breakOut && node != null
        invariant 0 <= p <= |Nodes|
        invariant node == (if p < |Nodes| then Nodes[p] else null)
        invariant forall j :: 0 <= j < p && !(breakOut && j == p - 1) ==> Nodes[j] != r
        invariant ret == breakOut
        invariant breakOut ==> p > 0 && Nodes[p - 1] == r
        decreases |Nodes| - p
      {
        if node == r {
          ret := true;
          breakOut := true;
        }
        node := node.next;
        p := p + 1;
      }
    }

    /**
     * The position of the first element Equal to `value`. (false, -1) when the
     * list is empty or the type has no Equal; on a miss the counter has been
     * bumped past every element, so a miss reports (false, Size()).
     */
    method OrderedSearch(cap: Capability<T>, value: T) returns (found: bool, index: int)
      requires Valid()
      ensures Contents == [] || cap.Missing? ==> !found && index == -1
      ensures found <==> cap.Equality? && Contains(Contents, cap.equal, value)
      ensures found ==> FirstMatch(Contents, cap.equal, value, index)
      ensures !found && Contents != [] && cap.Equality? ==> index == |Contents|
    {
      if IsEmpty() || cap.Missing? {
        return false, -1;
      }
      found := false;
      index := 0;
      var breakOut := false;
      var node := front;
      ghost var p := 0;
      while !breakOut && node != null
        invariant 0 <= p <= |Nodes|
        invariant node == (if p < |Nodes| then Nodes[p] else null)
        invariant found == breakOut
        invariant !found ==> index == p
        invariant found ==> index == p - 1 && cap.equal(Contents[index], value)
        invariant forall j :: 0 <= j < index && j < p ==> !cap.equal(Contents[j], value)
        decreases |Nodes| - p
      {
        if cap.equal(node.data, value) {
          found := true;
          breakOut := true;
        } else {
          index := index + 1;
        }
        node := node.next;
        p := p + 1;
      }
    }

    /** The position of the node `r`; (false, Size()) when `r` is not one of the list's nodes. */
    method OrderedRefSearch(r: Node?<T>) returns (found: bool, index: int)
      requires Valid()
      ensures Contents == [] ==> !found && index == -1
      ensures found <==> r != null && r in Nodes
      ensures found ==> 0 <= index < |Nodes| && Nodes[index] == r
      ensures !found && Contents != [] ==> index == |Contents|
    {
      if IsEmpty() {
        return false, -1;
      }
      found := false;
      index := 0;
      var breakOut := false;
      var node := front;
      ghost var p := 0;
      while !breakOut && node != null
        invariant 0 <= p <= |Nodes|
        invariant node == (if p < |Nodes| then Nodes[p] else null)
        invariant found == breakOut
        invariant !found ==> index == p
        invariant found ==> index == p - 1 && Nodes[index] == r
        invariant forall j :: 0 <= j < index && j < p ==> Nodes[j] != r
        decreases |Nodes| - p
      {
        if node == r {
          found := true;
          breakOut := true;
        } else {
          index := index + 1;
        }
        node := node.next;
        p := p + 1;
      }
    }

    /** The node holding the first element Equal to `value`, or nil. */
    method OrderedSearchRef(cap: Capability<T>, value: T) returns (ret: Node?<T>)
      requires Valid()
      ensures ret != null <==> cap.Equality? && Contains(Contents, cap.equal, value)
      ensures ret != null ==> exists k :: FirstMatch(Contents, cap.equal, value, k) && Nodes[k] == ret
    {
      if IsEmpty() || cap.Missing? {
        return null;
      }
      ret := null;
      var breakOut := false;
      var node := front;
      ghost var p := 0;
      while !breakOut && node != null
        invariant 0 <= p <= |Nodes|
        invariant node == (if p < |Nodes| then Nodes[p] else null)
        invariant (ret != null) == breakOut
        invariant breakOut ==> p > 0 && ret == Nodes[p - 1] && cap.equal(Contents[p - 1], value)
        invariant forall j :: 0 <= j < p && !(breakOut && j == p - 1) ==> !cap.equal(Contents[j], value)
        decreases |Nodes| - p
      {
        if cap.equal(node.data, value) {
          ret := node;
          breakOut := true;
        }
        node := node.next;
        p := p + 1;
      }
      if ret != null {
        assert FirstMatch(Contents, cap.equal, value, p - 1);
      }
    }

    /** `r` itself when it is one of the list's nodes, otherwise nil. */
    method OrderedRefSearchRef(r: Node?<T>) returns (ret: Node?<T>)
      requires Valid()
      ensures r != null && r in Nodes ==> ret == r
      ensures !(r != null && r in Nodes) ==> ret == null
    {
      if IsEmpty() {
        return null;
      }
      ret := null;
      var breakOut := false;
      var node := front;
      ghost var p := 0;
      while !breakOut && node != null
        invariant 0 <= p <= |Nodes|
        invariant node == (if p < |Nodes| then Nodes[p] else null)
        invariant breakOut <==> ret != null
        invariant breakOut ==> p > 0 && ret == r && Nodes[p - 1] == r
        invariant forall j :: 0 <= j < p && !breakOut ==> Nodes[j] != r
        decreases |Nodes| - p
      {
        if node == r {
          ret := node;
          breakOut := true;
        }
        node := node.next;
        p := p + 1;
      }
    }

    /** Search is OrderedSearch: a list has no chunked search. */
    method Search(cap: Capability<T>, value: T) returns (found: bool, index: int)
      requires Valid()
      ensures found <==> cap.Equality? && Contains(Contents, cap.equal, value)
      ensures found ==> FirstMatch(Contents, cap.equal, value, index)
      ensures !found ==> index == (if Contents == [] || cap.Missing? then -1 else |Contents|)
    {
      found, index := OrderedSearch(cap, value);
    }

    /** RefSearch is OrderedRefSearch. */
    method RefSearch(r: Node?<T>) returns (found: bool, index: int)
      requires Valid()
      ensures found <==> r != null && r in Nodes
      ensures found ==> 0 <= index < |Nodes| && Nodes[index] == r
      ensures !found ==> index == (if Contents == [] then -1 else |Contents|)
    {
      found, index := OrderedRefSearch(r);
    }

    /** SearchRef is OrderedSearchRef. */
    method SearchRef(cap: Capability<T>, value: T) returns (ret: Node?<T>)
      requires Valid()
      ensures ret != null <==> cap.Equality? && Contains(Contents, cap.equal, value)
      ensures ret != null ==> exists k :: FirstMatch(Contents, cap.equal, value, k) && Nodes[k] == ret
    {
      ret := OrderedSearchRef(cap, value);
    }

    /** RefSearchRef is OrderedRefSearchRef. */
    method RefSearchRef(r: Node?<T>) returns (ret: Node?<T>)
      requires Valid()
      ensures ret == (if r != null && r in Nodes then r else null)
    {
      ret := OrderedRefSearchRef(r);
    }
  }

  // ---------------------------------------------------------------------------
  // Insert and Erase as written, against the evidently intended InsertAt and EraseAt
  // ---------------------------------------------------------------------------

  /** Insert at index 0 of a non-empty list dereferences nil and inserts nothing. */
  method InsertAtFrontPanics() returns (l: List<int>, outcome: Outcome)
    ensures l.Valid() && outcome == Fail(NilDereference) && l.Contents == [1, 2]
  {
    l := new List.FromData([1, 2]);
    outcome := l.Insert(0, 9);
  }

  /** Insert at index Size() returns without a change instead of appending. */
  method InsertAtSizeDoesNothing() returns (l: List<int>, outcome: Outcome)
    ensures l.Valid() && outcome == Pass && l.Contents == [1, 2]
  {
    l := new List.FromData([1, 2]);
    outcome := l.Insert(2, 9);
  }

  /** Erase at index 1 of a three-element list reports success and removes nothing. */
  method EraseSecondDoesNothing() returns (l: List<int>, outcome: Outcome)
    ensures l.Valid() && outcome == Pass && l.Contents == [1, 2, 3]
  {
    l := new List.FromData([1, 2, 3]);
    outcome := l.Erase(1);
  }

  /** InsertAt accepts both ends, and EraseAt at the same index gives the old elements back. */
  method InsertAtThenEraseAt<T>(l: List<T>, index: int, x: T) returns (inserted: Outcome, erased: Outcome)
    requires l.Valid() && 0 <= index <= |l.Contents|
    modifies l, l.Nodes
    ensures l.Valid() && inserted == Pass && erased == Pass
    ensures l.Contents == old(l.Contents)
    ensures l.Destroyed == old(l.Destroyed) + [x]
  {
    ghost var s := l.Contents;
    inserted := l.InsertAt(index, x);
    erased := l.EraseAt(index);
    EraseUndoesInsert(s, index, x);
  }
}
