/** A linked, unbalanced binary search tree with iterative operations (src/ubin/ds.py). */
module BinarySearchTrees {
  import opened StableOrder

  class Node<T> {
    const value: T
    var left: Node?<T>
    var right: Node?<T>

    constructor (value: T)
      ensures this.value == value && left == null && right == null
    {
      this.value := value;
      left, right := null, null;
    }
  }

  /** The shape of a linked tree: which node is where. */
  datatype Shape<T> = Leaf | Branch(left: Shape<T>, node: Node<T>, right: Shape<T>)

  ghost function Nodes<T>(s: Shape<T>): set<Node<T>> {
    match s
    case Leaf => {}
    case Branch(l, n, r) => Nodes(l) + {n} + Nodes(r)
  }

  /** The links starting at root have this shape. */
  ghost predicate Linked<T>(root: Node?<T>, s: Shape<T>)
    reads Nodes(s)
  {
    match s
    case Leaf => root == null
    case Branch(l, n, r) => root == n && Linked(n.left, l) && Linked(n.right, r)
  }

  ghost predicate Acyclic<T>(s: Shape<T>) {
    match s
    case Leaf => true
    case Branch(l, n, r) => n !in Nodes(l) && n !in Nodes(r) && Nodes(l) !! Nodes(r) && Acyclic(l) && Acyclic(r)
  }

  ghost function Inorder<T>(s: Shape<T>): seq<T> {
    match s
    case Leaf => []
    case Branch(l, n, r) => Inorder(l) + ([n.value] + Inorder(r))
  }

  /** Left values are less than the node's, right values are not. */
  ghost predicate Ordered<T>(lt: Less<T>, s: Shape<T>) {
    match s
    case Leaf => true
    case Branch(l, n, r) =>
      && (forall x :: x in Inorder(l) ==> lt(x, n.value))
      && (forall x :: x in Inorder(r) ==> !lt(x, n.value))
      && Ordered(lt, l) && Ordered(lt, r)
  }

  // Insertion as a function on shapes

  ghost function Attach<T>(lt: Less<T>, s: Shape<T>, node: Node<T>): Shape<T> {
    match s
    case Leaf => Branch(Leaf, node, Leaf)
    case Branch(l, n, r) =>
      if lt(node.value, n.value) then Branch(Attach(lt, l, node), n, r) else Branch(l, n, Attach(lt, r, node))
  }

  /** The node that a new value is hung under. */
  ghost function Site<T>(lt: Less<T>, s: Shape<T>, value: T): Node<T>
    requires s.Branch?
    ensures Site(lt, s, value) in Nodes(s)
  {
    var child := if lt(value, s.node.value) then s.left else s.right;
    if child.Leaf? then s.node else Site(lt, child, value)
  }

  lemma {:induction false} AttachNodes<T>(lt: Less<T>, s: Shape<T>, node: Node<T>)
    requires Acyclic(s) && node !in Nodes(s)
    ensures Nodes(Attach(lt, s, node)) == Nodes(s) + {node} && Acyclic(Attach(lt, s, node))
  {
    if s.Branch? {
      if lt(node.value, s.node.value) {
        AttachNodes(lt, s.left, node);
      } else {
        AttachNodes(lt, s.right, node);
      }
    }
  }

  type Links<!T> = map<Node<T>, (Node?<T>, Node?<T>)>

  ghost function LinksOf<T>(nodes: set<Node<T>>): Links<T>
    reads nodes
  {
    map n | n in nodes :: (n.left, n.right)
  }

  /** Linked, for links recorded in a map. */
  ghost predicate LinkedBy<T>(links: Links<T>, root: Node?<T>, s: Shape<T>) {
    match s
    case Leaf => root == null
    case Branch(l, n, r) => root == n && n in links && LinkedBy(links, links[n].0, l) && LinkedBy(links, links[n].1, r)
  }

  lemma {:induction false} LinkedAsRecorded<T>(links: Links<T>, root: Node?<T>, s: Shape<T>)
    requires forall n :: n in Nodes(s) ==> n in links && links[n] == (n.left, n.right)
    ensures Linked(root, s) <==> LinkedBy(links, root, s)
    decreases s
  {
    if s.Branch? {
      assert s.node in Nodes(s);
      LinkedAsRecorded(links, s.node.left, s.left);
      LinkedAsRecorded(links, s.node.right, s.right);
    }
  }

  lemma {:induction false} LinkedElsewhere<T>(links: Links<T>, later: Links<T>, root: Node?<T>, s: Shape<T>)
    requires LinkedBy(links, root, s)
    requires forall n :: n in Nodes(s) && n in links ==> n in later && later[n] == links[n]
    ensures LinkedBy(later, root, s)
  {
    if s.Branch? {
      LinkedElsewhere(links, later, links[s.node].0, s.left);
      LinkedElsewhere(links, later, links[s.node].1, s.right);
    }
  }

  /** The links after hanging the node under at. */
  ghost function Hung<T>(lt: Less<T>, links: Links<T>, node: Node<T>, at: Node<T>): Links<T>
    requires at in links
  {
    links[node := (null, null)][at := if lt(node.value, at.value) then (node, links[at].1) else (links[at].0, node)]
  }

  /** Hanging the node under its site turns the links of s into the links of Attach(s). */
  lemma {:induction false} AttachLinks<T>(lt: Less<T>, links: Links<T>, root: Node?<T>, s: Shape<T>, node: Node<T>)
    requires s.Branch? && LinkedBy(links, root, s) && Acyclic(s) && node !in Nodes(s)
    requires Site(lt, s, node.value) in links
    ensures LinkedBy(Hung(lt, links, node, Site(lt, s, node.value)), root, Attach(lt, s, node))
  {
    var at := Site(lt, s, node.value);
    var later := Hung(lt, links, node, at);
    if lt(node.value, s.node.value) {
      if s.left.Branch? {
        AttachLinks(lt, links, links[s.node].0, s.left, node);
      }
      LinkedElsewhere(links, later, links[s.node].1, s.right);
    } else {
      if s.right.Branch? {
        AttachLinks(lt, links, links[s.node].1, s.right, node);
      }
      LinkedElsewhere(links, later, links[s.node].0, s.left);
    }
  }

  /** Puts x after every element that is not greater. */
  ghost function InsertAfter<T>(lt: Less<T>, x: T, s: seq<T>): seq<T> {
    if s == [] || lt(x, s[0]) then [x] + s else [s[0]] + InsertAfter(lt, x, s[1..])
  }

  lemma {:induction false} InsertAfterFront<T>(lt: Less<T>, x: T, a: seq<T>, b: seq<T>)
    requires b != [] && lt(x, b[0])
    ensures InsertAfter(lt, x, a + b) == InsertAfter(lt, x, a) + b
  {
    if a == [] {
      assert a + b == b;
    } else {
      assert (a + b)[1..] == a[1..] + b;
      InsertAfterFront(lt, x, a[1..], b);
    }
  }

  lemma {:induction false} InsertAfterBack<T>(lt: Less<T>, x: T, a: seq<T>, b: seq<T>)
    requires forall y :: y in a ==> !lt(x, y)
    ensures InsertAfter(lt, x, a + b) == a + InsertAfter(lt, x, b)
  {
    if a == [] {
      assert a + b == b;
    } else {
      assert (a + b)[1..] == a[1..] + b;
      InsertAfterBack(lt, x, a[1..], b);
    }
  }

  lemma {:induction false} InsertAfterIsMerged<T>(lt: Less<T>, x: T, s: seq<T>)
    ensures InsertAfter(lt, x, s) == Merged(lt, s, [x])
  {
    if s != [] && !lt(x, s[0]) {
      InsertAfterIsMerged(lt, x, s[1..]);
    }
  }

  /** Appending to the inserted values inserts into their stable arrangement after all ties. */
  lemma ValuesAppend<T(!new)>(lt: Less<T>, s: seq<T>, x: T)
    requires StrictWeak(lt)
    ensures Values(lt, s + [x]) == InsertAfter(lt, x, Values(lt, s))
  {
    ValuesConcat(lt, s, [x]);
    assert [x][1..] == [];
    assert Values(lt, [x]) == Insert(lt, x, Values(lt, [])) == [x];
    InsertAfterIsMerged(lt, x, Values(lt, s));
  }

  lemma {:induction false} InsertAfterMembers<T>(lt: Less<T>, x: T, s: seq<T>)
    ensures forall y :: y in InsertAfter(lt, x, s) <==> y == x || y in s
    ensures |InsertAfter(lt, x, s)| == |s| + 1
  {
    if s != [] && !lt(x, s[0]) {
      InsertAfterMembers(lt, x, s[1..]);
      assert s == [s[0]] + s[1..];
    }
  }

  /** Insertion keeps the search order and puts the value after its ties. */
  lemma {:induction false} AttachOrdered<T(!new)>(lt: Less<T>, s: Shape<T>, node: Node<T>)
    requires StrictWeak(lt) && Ordered(lt, s)
    ensures Ordered(lt, Attach(lt, s, node))
    ensures Inorder(Attach(lt, s, node)) == InsertAfter(lt, node.value, Inorder(s))
  {
    var x := node.value;
    match s {
      case Leaf =>
      case Branch(l, n, r) =>
        if lt(x, n.value) {
          AttachOrdered(lt, l, node);
          InsertAfterFront(lt, x, Inorder(l), [n.value] + Inorder(r));
          InsertAfterMembers(lt, x, Inorder(l));
        } else {
          AttachOrdered(lt, r, node);
          forall y | y in Inorder(l) ensures !lt(x, y) {
            assert lt(y, n.value);
          }
          InsertAfterBack(lt, x, Inorder(l), [n.value] + Inorder(r));
          assert ([n.value] + Inorder(r))[1..] == Inorder(r);
          InsertAfterMembers(lt, x, Inorder(r));
        }
    }
  }

  lemma ValuesMembers<T(!new)>(lt: Less<T>, s: seq<T>, x: T)
    requires StrictWeak(lt)
    ensures x in Values(lt, s) <==> x in s
  {
    ValuesCorrect(lt, s);
    assert x in s <==> x in multiset(s);
    assert x in Values(lt, s) <==> x in multiset(Values(lt, s));
  }

  /** A value other than the node's can only be on the side that the comparison points to. */
  lemma SearchStep<T(!new)>(lt: Less<T>, s: Shape<T>, x: T)
    requires StrictWeak(lt) && Ordered(lt, s) && s.Branch?
    ensures x == s.node.value ==> x in Inorder(s)
    ensures x != s.node.value && lt(x, s.node.value) ==> (x in Inorder(s) <==> x in Inorder(s.left))
    ensures x != s.node.value && !lt(x, s.node.value) ==> (x in Inorder(s) <==> x in Inorder(s.right))
  {
    assert x in Inorder(s) <==> x in Inorder(s.left) || x in [s.node.value] + Inorder(s.right);
  }

  /**
   The traversal of an ordered shape lists the stable arrangement of what was inserted; the first value
   is at the root.
   */
  ghost predicate Arranged<T(!new)>(lt: Less<T>, s: Shape<T>, inserted: seq<T>) {
    && StrictWeak(lt) && Ordered(lt, s) && Inorder(s) == Values(lt, inserted)
    && (s.Branch? ==> inserted != [] && s.node.value == inserted[0])
  }

  lemma LeafIsEmpty<T(!new)>(lt: Less<T>, inserted: seq<T>)
    requires Arranged(lt, Leaf, inserted)
    ensures inserted == []
  {
    if inserted != [] {
      ValuesMembers(lt, inserted, inserted[0]);
    }
  }

  /** Inserting keeps everything that the class promises about its shape. */
  lemma AttachCorrect<T(!new)>(lt: Less<T>, s: Shape<T>, inserted: seq<T>, node: Node<T>)
    requires Arranged(lt, s, inserted) && Acyclic(s) && node !in Nodes(s)
    ensures var t := Attach(lt, s, node);
            Arranged(lt, t, inserted + [node.value]) && Acyclic(t) && Nodes(t) == Nodes(s) + {node}
  {
    AttachNodes(lt, s, node);
    AttachOrdered(lt, s, node);
    ValuesAppend(lt, inserted, node.value);
    if s.Leaf? {
      LeafIsEmpty(lt, inserted);
    }
  }

  /** The descent of an insertion: finds the free place and links the node there. */
  method Hang<T>(lt: Less<T>, root: Node<T>, node: Node<T>, ghost shape: Shape<T>)
    requires Linked(root, shape) && Acyclic(shape) && node !in Nodes(shape)
    requires node.left == null && node.right == null
    modifies Nodes(shape)
    ensures Linked(root, Attach(lt, shape, node))
  {
    ghost var links := LinksOf(Nodes(shape));
    LinkedAsRecorded(links, root, shape);
    AttachLinks(lt, links, root, shape, node);
    var current: Node<T> := root;
    ghost var sub := shape;
    ghost var at := Site(lt, shape, node.value);
    while true
      invariant Linked(current, sub) && sub.Branch? && Nodes(sub) <= Nodes(shape)
      invariant at == Site(lt, sub, node.value)
      invariant forall n :: n in Nodes(shape) ==> links[n] == (n.left, n.right)
      decreases sub
    {
      if lt(node.value, current.value) {
        if current.left == null {
          current.left := node;
          break;
        }
        current, sub := current.left, sub.left;
      } else {
        if current.right == null {
          current.right := node;
          break;
        }
        current, sub := current.right, sub.right;
      }
    }
    HungAsRecorded(lt, links, root, shape, node);
  }

  lemma HungAsRecorded<T>(lt: Less<T>, links: Links<T>, root: Node<T>, s: Shape<T>, node: Node<T>)
    requires s.Branch? && Acyclic(s) && node !in Nodes(s) && links.Keys == Nodes(s)
    requires LinkedBy(Hung(lt, links, node, Site(lt, s, node.value)), root, Attach(lt, s, node))
    requires forall n :: n in Nodes(s) + {node} ==>
               Hung(lt, links, node, Site(lt, s, node.value))[n] == (n.left, n.right)
    ensures Linked(root, Attach(lt, s, node))
  {
    AttachNodes(lt, s, node);
    LinkedAsRecorded(Hung(lt, links, node, Site(lt, s, node.value)), root, Attach(lt, s, node));
  }

  // The class

  /** What is looked for: a value of the tree's type, or one whose comparison with those raises TypeError. */
  datatype Probe<!T(==)> = Comparable(value: T) | Incomparable(equals: T -> bool) {
    predicate Equals(x: T) {
      match this
      case Comparable(v) => v == x
      case Incomparable(eq) => eq(x)
    }
  }

  class BinarySearchTree<T(==, !new)> {
    const lt: Less<T>
    var root: Node?<T>
    var size: nat
    ghost var shape: Shape<T>
    ghost var nodes: set<Node<T>>
    ghost var inserted: seq<T>

    ghost predicate Valid()
      reads this, nodes
    {
      && nodes == Nodes(shape) && Linked(root, shape) && Acyclic(shape)
      && Arranged(lt, shape, inserted)
      && size == |inserted|
    }

    constructor (lt: Less<T>, values: seq<T>)
      requires StrictWeak(lt)
      ensures Valid() && fresh(nodes) && this.lt == lt && inserted == values
    {
      this.lt := lt;
      root, size := null, 0;
      shape, nodes, inserted := Leaf, {}, [];
      new;
      for i := 0 to |values|
        invariant Valid() && fresh(nodes) && inserted == values[..i]
      {
        Insert(values[i]);
      }
    }

    method Insert(value: T)
      requires Valid()
      modifies this, nodes
      ensures Valid() && fresh(nodes - old(nodes))
      ensures inserted == old(inserted) + [value]
    {
      hide Arranged;
      var node := new Node(value);
      AttachCorrect(lt, shape, inserted, node);
      if root == null {
        LeafIsEmpty(lt, inserted);
        root := node;
        size := 1;
      } else {
        Hang(lt, root, node, shape);
        size := size + 1;
      }
      shape, nodes, inserted := Attach(lt, shape, node), nodes + {node}, inserted + [value];
    }

    /** Finds every inserted value; a value that cannot be compared is found at the root only. */
    method Contains(probe: Probe<T>) returns (found: bool)
      requires Valid()
      ensures match probe
              case Comparable(value) => found <==> value in inserted
              case Incomparable(equals) => found <==> inserted != [] && equals(inserted[0])
    {
      if probe.Comparable? {
        ValuesMembers(lt, inserted, probe.value);
      }
      if root == null {
        LeafIsEmpty(lt, inserted);
      }
      var current := root;
      ghost var sub := shape;
      while current != null
        invariant Linked(current, sub) && Ordered(lt, sub)
        invariant probe.Comparable? ==> (probe.value in Inorder(sub) <==> probe.value in Inorder(shape))
        invariant probe.Incomparable? ==> current == root
        decreases sub
      {
        if probe.Equals(current.value) {
          if probe.Comparable? {
            SearchStep(lt, sub, probe.value);
          }
          return true;
        }
        match probe {
          case Incomparable(_) =>
            return false;
          case Comparable(value) =>
            SearchStep(lt, sub, value);
            if lt(value, current.value) {
              current, sub := current.left, sub.left;
            } else {
              current, sub := current.right, sub.right;
            }
        }
      }
      return false;
    }

    method InorderValues() returns (result: seq<T>)
      requires Valid()
      ensures result == Values(lt, inserted)
    {
      RestOfNone(shape);
      hide Rest, Waiting, Inorder, Ordered, Acyclic, Values, StrictWeak;
      result := [];
      var stack: seq<Node<T>> := [];
      ghost var shapes: seq<Shape<T>> := [];
      var current := root;
      ghost var sub := shape;
      while current != null || stack != []
        invariant Linked(current, sub) && Nodes(sub) <= nodes && Stacked(nodes, stack, shapes)
        invariant result + Rest(sub, shapes) == Inorder(shape)
        decreases |Rest(sub, shapes)|
      {
        while current != null
          invariant Linked(current, sub) && Nodes(sub) <= nodes && Stacked(nodes, stack, shapes)
          invariant result + Rest(sub, shapes) == Inorder(shape)
          invariant current != null || stack != []
          decreases sub
        {
          PushRest(sub, shapes);
          stack, shapes := stack + [current], shapes + [sub];
          current, sub := current.left, sub.left;
        }
        var top := |stack| - 1;
        PopRest(shapes);
        current, sub := stack[top], shapes[top];
        stack, shapes := stack[..top], shapes[..top];
        result := result + [current.value];
        current, sub := current.right, sub.right;
      }
      RestOfNone(sub);
    }

    method Len() returns (n: nat)
      requires Valid()
      ensures n == |inserted|
    {
      n := size;
    }
  }

  /** The traversal stack holds nodes whose left parts are done. */
  ghost predicate Stacked<T>(nodes: set<Node<T>>, stack: seq<Node<T>>, shapes: seq<Shape<T>>)
    reads nodes
  {
    && |stack| == |shapes|
    && forall k :: 0 <= k < |stack| ==>
         && shapes[k].Branch? && shapes[k].node == stack[k] && Nodes(shapes[k]) <= nodes && stack[k] in nodes
         && Linked(stack[k].right, shapes[k].right)
  }

  /** What the stacked nodes still contribute, topmost first. */
  ghost function Waiting<T>(shapes: seq<Shape<T>>): seq<T>
    requires forall s :: s in shapes ==> s.Branch?
  {
    if shapes == [] then []
    else var top := shapes[|shapes| - 1];
         [top.node.value] + (Inorder(top.right) + Waiting(shapes[..|shapes| - 1]))
  }

  /** What is still to be listed: the current subtree, then the stacked nodes. */
  ghost function Rest<T>(s: Shape<T>, shapes: seq<Shape<T>>): seq<T>
    requires forall t :: t in shapes ==> t.Branch?
  {
    Inorder(s) + Waiting(shapes)
  }

  lemma RestOfNone<T>(s: Shape<T>)
    ensures Rest(s, []) == Inorder(s)
    ensures s.Leaf? ==> Inorder(s) == []
  {
  }

  lemma PushRest<T>(s: Shape<T>, shapes: seq<Shape<T>>)
    requires s.Branch? && forall t :: t in shapes ==> t.Branch?
    ensures Rest(s, shapes) == Rest(s.left, shapes + [s])
  {
    assert (shapes + [s])[..|shapes|] == shapes;
  }

  lemma PopRest<T>(shapes: seq<Shape<T>>)
    requires shapes != [] && forall t :: t in shapes ==> t.Branch?
    ensures var top := shapes[|shapes| - 1];
            Rest(Leaf, shapes) == [top.node.value] + Rest(top.right, shapes[..|shapes| - 1])
  {
  }
}
