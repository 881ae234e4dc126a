/**
 * The category tree of the delta-v library: categories (`MiddleNode`) group
 * other nodes, locations (`EndNode`) carry the handle of their vertex in the
 * cost graph. Lookup is by name, depth-first, own name before children,
 * children in stored order, first match wins.
 */
module MenuTrees {
  import opened Wrappers

  /** The error a failed search returns; it carries the name that was searched. */
  datatype NoSuchNodeError = NoSuchNodeError(name: string)
  {
    /** The name whose search failed. */
    function CauseName(): (r: string)
      ensures NoSuchNodeError(r) == this
    {
      name
    }
  }

  datatype MenuTree =
    | MiddleNode(name: string, children: seq<MenuTree>)
    | EndNode(name: string, index: nat)
  {
    /** The node's own name, for categories and locations alike. */
    function Name(): (r: string)
      ensures Search(r) == Ok(this)
    {
      name
    }

    /** The graph handle of a location; a category has none (the source panics). */
    function Index(): (r: nat)
      requires EndNode?
      ensures EndNode(name, r) == this
    {
      index
    }

    /** Depth-first, first-match lookup of a node by name. */
    function Search(n: string): (r: Result<MenuTree, NoSuchNodeError>)
      ensures r.Ok? ==> r.value.name == n
      ensures r.Err? ==> r.error == NoSuchNodeError(n)
      decreases this, 1
    {
      match this
      case EndNode(name, _) =>
        if name == n then Ok(this) else Err(NoSuchNodeError(n))
      case MiddleNode(name, children) =>
        if name == n then Ok(this) else SearchChildren(children, n)
    }

    /** `tree[n]`: the node `Search` finds; a missing name is a panic in the source. */
    function At(n: string): (r: MenuTree)
      requires Search(n).Ok?
      ensures r.name == n
      ensures Search(n) == Ok(r)
    {
      SearchIsPreorderFirst(this, n);
      Search(n).value
    }
  }

  /** The loop over a category's children: the first child search that succeeds. */
  function SearchChildren(cs: seq<MenuTree>, n: string): (r: Result<MenuTree, NoSuchNodeError>)
    ensures r.Ok? ==> r.value.name == n
    ensures r.Err? ==> r.error == NoSuchNodeError(n)
    decreases cs, 0
  {
    if cs == [] then Err(NoSuchNodeError(n))
    else
      var r := cs[0].Search(n);
      if r.Ok? then r else SearchChildren(cs[1..], n)
  }

  // ---------------------------------------------------------------------------
  // Reference definition: the pre-order listing and a linear first match in it.
  // ---------------------------------------------------------------------------

  /** Every node of the tree, each before its children, children in stored order. */
  function Preorder(t: MenuTree): (r: seq<MenuTree>)
    ensures |r| > 0 && r[0] == t
    decreases t, 1
  {
    [t] + (if t.MiddleNode? then PreorderAll(t.children) else [])
  }

  function PreorderAll(cs: seq<MenuTree>): seq<MenuTree>
    decreases cs, 0
  {
    if cs == [] then [] else Preorder(cs[0]) + PreorderAll(cs[1..])
  }

  /** The names of all nodes of a tree. */
  function Names(t: MenuTree): set<string>
  {
    set x | x in Preorder(t) :: x.name
  }

  /** The first node of `s` named `n`, or the error naming `n` when there is none. */
  function FindByName(s: seq<MenuTree>, n: string): (r: Result<MenuTree, NoSuchNodeError>)
    ensures r.Ok? ==> exists i :: 0 <= i < |s| && s[i] == r.value && r.value.name == n &&
                                 forall j :: 0 <= j < i ==> s[j].name != n
    ensures r.Err? <==> forall i :: 0 <= i < |s| ==> s[i].name != n
    ensures r.Err? ==> r.error.CauseName() == n
  {
    if s == [] then Err(NoSuchNodeError(n))
    else if s[0].name == n then Ok(s[0])
    else
      var r := FindByName(s[1..], n);
      assert forall i :: 1 <= i < |s| ==> s[i] == s[1..][i - 1];
      r
  }

  lemma {:induction false} FindByNameAppend(a: seq<MenuTree>, b: seq<MenuTree>, n: string)
    ensures FindByName(a + b, n) ==
            if FindByName(a, n).Ok? then FindByName(a, n) else FindByName(b, n)
  {
    if a != [] {
      assert (a + b)[1..] == a[1..] + b;
      FindByNameAppend(a[1..], b, n);
    } else {
      assert a + b == b;
    }
  }

  // ---------------------------------------------------------------------------
  // Search agrees with the reference definition
  // ---------------------------------------------------------------------------

  /** `Search` returns the first node of the pre-order listing that has the name. */
  lemma {:induction false} SearchIsPreorderFirst(t: MenuTree, n: string)
    ensures t.Search(n) == FindByName(Preorder(t), n)
    decreases t, 1
  {
    match t
    case EndNode(_, _) =>
      assert Preorder(t)[1..] == [];
    case MiddleNode(name, children) =>
      assert Preorder(t)[1..] == PreorderAll(children);
      if name != n {
        SearchChildrenIsPreorderFirst(children, n);
      }
  }

  lemma {:induction false} SearchChildrenIsPreorderFirst(cs: seq<MenuTree>, n: string)
    ensures SearchChildren(cs, n) == FindByName(PreorderAll(cs), n)
    decreases cs, 0
  {
    if cs != [] {
      SearchIsPreorderFirst(cs[0], n);
      SearchChildrenIsPreorderFirst(cs[1..], n);
      FindByNameAppend(Preorder(cs[0]), PreorderAll(cs[1..]), n);
    }
  }

  /** A successful search returns a node of the tree that has the searched name. */
  lemma SearchFindsNamed(t: MenuTree, n: string)
    requires t.Search(n).Ok?
    ensures t.Search(n).value.Name() == n
    ensures t.Search(n).value in Preorder(t)
  {
    SearchIsPreorderFirst(t, n);
  }

  /** Search fails exactly when no node has the name, and the error names it. */
  lemma SearchErrIffAbsent(t: MenuTree, n: string)
    ensures t.Search(n).Err? <==> n !in Names(t)
    ensures t.Search(n).Err? ==> t.Search(n).error.CauseName() == n
  {
    SearchIsPreorderFirst(t, n);
    var s := Preorder(t);
    if n in Names(t) {
      var x :| x in s && x.name == n;
      var i :| 0 <= i < |s| && s[i] == x;
    }
  }

  /** Children are tried in stored order: the first child whose subtree matches decides. */
  lemma {:induction false} SearchFirstMatchingChild(t: MenuTree, n: string, k: nat)
    requires t.MiddleNode? && t.name != n
    requires k < |t.children| && t.children[k].Search(n).Ok?
    requires forall j :: 0 <= j < k ==> t.children[j].Search(n).Err?
    ensures t.Search(n) == t.children[k].Search(n)
  {
    FirstMatchingChild(t.children, n, k);
  }

  lemma {:induction false} FirstMatchingChild(cs: seq<MenuTree>, n: string, k: nat)
    requires k < |cs| && cs[k].Search(n).Ok?
    requires forall j :: 0 <= j < k ==> cs[j].Search(n).Err?
    ensures SearchChildren(cs, n) == cs[k].Search(n)
  {
    if k > 0 {
      assert cs[1..][k - 1] == cs[k];
      FirstMatchingChild(cs[1..], n, k - 1);
    }
  }

  /**
   * Search returns the node at the first position of the pre-order listing
   * that carries the name. Position 0 is the node itself, so a category named
   * `n` is returned before any child is looked at, and a later node with the
   * same name is never returned.
   */
  lemma SearchReturnsFirstInPreorder(t: MenuTree, n: string, i: nat)
    requires i < |Preorder(t)| && Preorder(t)[i].name == n
    requires forall j :: 0 <= j < i ==> Preorder(t)[j].name != n
    ensures t.Search(n) == Ok(Preorder(t)[i])
  {
    SearchIsPreorderFirst(t, n);
    var s := Preorder(t);
    var k :| 0 <= k < |s| && s[k] == FindByName(s, n).value && s[k].name == n &&
             forall j :: 0 <= j < k ==> s[j].name != n;
    assert k == i;
  }

  /** The handles of the locations of a tree, in tree order. */
  function Handles(t: MenuTree): seq<nat>
    decreases t, 1
  {
    if t.EndNode? then [t.index] else HandlesAll(t.children)
  }

  function HandlesAll(cs: seq<MenuTree>): seq<nat>
    decreases cs, 0
  {
    if cs == [] then [] else Handles(cs[0]) + HandlesAll(cs[1..])
  }

  /** Every location of the tree contributes its handle. */
  lemma {:induction false} HandleListed(t: MenuTree, x: MenuTree)
    requires x in Preorder(t) && x.EndNode?
    ensures x.index in Handles(t)
    decreases t, 1
  {
    if x != t {
      HandleListedAll(t.children, x);
    }
  }

  lemma {:induction false} HandleListedAll(cs: seq<MenuTree>, x: MenuTree)
    requires x in PreorderAll(cs) && x.EndNode?
    ensures x.index in HandlesAll(cs)
    decreases cs, 0
  {
    if x in Preorder(cs[0]) {
      HandleListed(cs[0], x);
    } else {
      HandleListedAll(cs[1..], x);
    }
  }

  // ---------------------------------------------------------------------------
  // The test tree of the source's unit tests
  // ---------------------------------------------------------------------------

  /** The unit tests' tree; its locations carry the handles 0 to 3 in tree order. */
  function TestTree(): (t: MenuTree)
    ensures Handles(t) == [0, 1, 2, 3]
  {
    MiddleNode("Category1", [
      MiddleNode("Category2", [EndNode("Node1", 0), EndNode("Node2", 1)]),
      EndNode("Node3", 2),
      EndNode("Node4", 3)])
  }

  /** The searches of the unit tests: a category by name, a location with its handle, a missing name. */
  lemma TestTreeSearches()
    ensures TestTree().Search("Category2") == Ok(TestTree().children[0])
    ensures TestTree().Search("Category2").value.Name() == "Category2"
    ensures TestTree().Search("Node1") == Ok(EndNode("Node1", 0))
    ensures TestTree().Search("Node1").value.Index() == 0
    ensures TestTree().At("Category2").Name() == "Category2"
    ensures TestTree().At("Node1").Index() == 0
    ensures TestTree().Search("test") == Err(NoSuchNodeError("test"))
  {
  }
}
