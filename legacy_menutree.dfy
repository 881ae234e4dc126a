/**
 * The earlier menu tree of the application crate: categories and locations
 * as two node kinds behind one interface, locations carrying a numeric id.
 * A category reports the largest machine word as its id, and id search only
 * ever matches locations.
 */
module LegacyMenuTree {
  import opened Wrappers

  /** The largest value of a 64-bit unsigned machine word. */
  const USIZE_MAX: nat := 0xFFFF_FFFF_FFFF_FFFF

  type Usize = x: nat | x <= USIZE_MAX

  datatype MenuTree =
    | MiddleNode(name: string, children: seq<MenuTree>)
    | EndNode(name: string, id: Usize)
  {
    /** A location's id; a category has none and answers the largest word instead. */
    function GetId(): (r: Usize)
      ensures MiddleNode? ==> r == USIZE_MAX
      ensures EndNode? ==> EndNode(name, r) == this
    {
      match this
      case MiddleNode(_, _) => USIZE_MAX
      case EndNode(_, id) => id
    }

    function GetName(): (r: string)
      ensures SearchByName(r) == Some(this)
    {
      name
    }

    /** The first location, in depth-first order, whose id is `id`; categories never match. */
    function SearchById(id: Usize): (r: Option<MenuTree>)
      ensures r.Some? ==> r.value.EndNode? && r.value.id == id
      decreases this, 1
    {
      match this
      case MiddleNode(_, children) => SearchByIdAll(children, id)
      case EndNode(_, own) => if own == id then Some(this) else None
    }

    /** The first node, in depth-first order with each node before its children, named `n`. */
    function SearchByName(n: string): (r: Option<MenuTree>)
      ensures r.Some? ==> r.value.name == n
      decreases this, 1
    {
      match this
      case MiddleNode(name, children) =>
        if name == n then Some(this) else SearchByNameAll(children, n)
      case EndNode(name, _) => if name == n then Some(this) else None
    }
  }

  /** The loop over a category's children in id search: the first child that finds one. */
  function SearchByIdAll(cs: seq<MenuTree>, id: Usize): (r: Option<MenuTree>)
    ensures r.Some? ==> r.value.EndNode? && r.value.id == id
    decreases cs, 0
  {
    if cs == [] then None
    else
      var r := cs[0].SearchById(id);
      if r.Some? then r else SearchByIdAll(cs[1..], id)
  }

  /** The loop over a category's children in name search. */
  function SearchByNameAll(cs: seq<MenuTree>, n: string): (r: Option<MenuTree>)
    ensures r.Some? ==> r.value.name == n
    decreases cs, 0
  {
    if cs == [] then None
    else
      var r := cs[0].SearchByName(n);
      if r.Some? then r else SearchByNameAll(cs[1..], n)
  }

  // ---------------------------------------------------------------------------
  // Reference definitions over the pre-order listing
  // ---------------------------------------------------------------------------

  function Preorder(t: MenuTree): (r: seq<MenuTree>)
    ensures |r| > 0 && r[0] == t
    decreases t, 1
  {
    [t] + (if t.MiddleNode? then PreorderAll(t.children) else [])
  }

  function PreorderAll(cs: seq<MenuTree>): seq<MenuTree>
    decreases cs, 0
  {
    if cs == [] then [] else Preorder(cs[0]) + PreorderAll(cs[1..])
  }

  /** `x` is a location carrying the id `id`. */
  predicate IsLocationWithId(x: MenuTree, id: Usize)
  {
    x.EndNode? && x.id == id
  }

  /** The first location of `s` with id `id`. */
  function FindById(s: seq<MenuTree>, id: Usize): (r: Option<MenuTree>)
    ensures r.Some? ==> exists i :: 0 <= i < |s| && s[i] == r.value && IsLocationWithId(s[i], id) &&
                                 forall j :: 0 <= j < i ==> !IsLocationWithId(s[j], id)
    ensures r.None? <==> forall i :: 0 <= i < |s| ==> !IsLocationWithId(s[i], id)
  {
    if s == [] then None
    else if IsLocationWithId(s[0], id) then Some(s[0])
    else
      var r := FindById(s[1..], id);
      assert forall i :: 1 <= i < |s| ==> s[i] == s[1..][i - 1];
      r
  }

  /** The first node of `s` named `n`. */
  function FindByName(s: seq<MenuTree>, n: string): (r: Option<MenuTree>)
    ensures r.Some? ==> exists i :: 0 <= i < |s| && s[i] == r.value && s[i].name == n &&
                                 forall j :: 0 <= j < i ==> s[j].name != n
    ensures r.None? <==> forall i :: 0 <= i < |s| ==> s[i].name != n
  {
    if s == [] then None
    else if s[0].name == n then Some(s[0])
    else
      var r := FindByName(s[1..], n);
      assert forall i :: 1 <= i < |s| ==> s[i] == s[1..][i - 1];
      r
  }

  lemma {:induction false} FindByIdAppend(a: seq<MenuTree>, b: seq<MenuTree>, id: Usize)
    ensures FindById(a + b, id) == if FindById(a, id).Some? then FindById(a, id) else FindById(b, id)
  {
    if a != [] {
      assert (a + b)[1..] == a[1..] + b;
      FindByIdAppend(a[1..], b, id);
    } else {
      assert a + b == b;
    }
  }

  lemma {:induction false} FindByNameAppend(a: seq<MenuTree>, b: seq<MenuTree>, n: string)
    ensures FindByName(a + b, n) == if FindByName(a, n).Some? then FindByName(a, n) else FindByName(b, n)
  {
    if a != [] {
      assert (a + b)[1..] == a[1..] + b;
      FindByNameAppend(a[1..], b, n);
    } else {
      assert a + b == b;
    }
  }

  // ---------------------------------------------------------------------------
  // The searches agree with the reference definitions
  // ---------------------------------------------------------------------------

  /** Id search returns the first location of the pre-order listing with that id. */
  lemma {:induction false} SearchByIdIsPreorderFirst(t: MenuTree, id: Usize)
    ensures t.SearchById(id) == FindById(Preorder(t), id)
    decreases t, 1
  {
    match t
    case EndNode(_, _) =>
      assert Preorder(t)[1..] == [];
    case MiddleNode(_, children) =>
      assert Preorder(t)[1..] == PreorderAll(children);
      SearchByIdAllIsPreorderFirst(children, id);
  }

  lemma {:induction false} SearchByIdAllIsPreorderFirst(cs: seq<MenuTree>, id: Usize)
    ensures SearchByIdAll(cs, id) == FindById(PreorderAll(cs), id)
    decreases cs, 0
  {
    if cs != [] {
      SearchByIdIsPreorderFirst(cs[0], id);
      SearchByIdAllIsPreorderFirst(cs[1..], id);
      FindByIdAppend(Preorder(cs[0]), PreorderAll(cs[1..]), id);
    }
  }

  /** Name search returns the first node of the pre-order listing with that name. */
  lemma {:induction false} SearchByNameIsPreorderFirst(t: MenuTree, n: string)
    ensures t.SearchByName(n) == FindByName(Preorder(t), n)
    decreases t, 1
  {
    match t
    case EndNode(_, _) =>
      assert Preorder(t)[1..] == [];
    case MiddleNode(name, children) =>
      assert Preorder(t)[1..] == PreorderAll(children);
      if name != n {
        SearchByNameAllIsPreorderFirst(children, n);
      }
  }

  lemma {:induction false} SearchByNameAllIsPreorderFirst(cs: seq<MenuTree>, n: string)
    ensures SearchByNameAll(cs, n) == FindByName(PreorderAll(cs), n)
    decreases cs, 0
  {
    if cs != [] {
      SearchByNameIsPreorderFirst(cs[0], n);
      SearchByNameAllIsPreorderFirst(cs[1..], n);
      FindByNameAppend(Preorder(cs[0]), PreorderAll(cs[1..]), n);
    }
  }

  /**
   * Id search finds a location of the tree whose id is `id`, never a category,
   * and finds nothing exactly when no location carries that id.
   */
  lemma SearchByIdSound(t: MenuTree, id: Usize)
    ensures t.SearchById(id).Some? ==>
              t.SearchById(id).value.EndNode? && t.SearchById(id).value.GetId() == id &&
              t.SearchById(id).value in Preorder(t)
    ensures t.SearchById(id).None? <==>
              forall x :: x in Preorder(t) ==> !IsLocationWithId(x, id)
  {
    SearchByIdIsPreorderFirst(t, id);
    var s := Preorder(t);
    if exists x :: x in s && IsLocationWithId(x, id) {
      var x :| x in s && IsLocationWithId(x, id);
      var i :| 0 <= i < |s| && s[i] == x;
    }
  }

  /**
   * Name search finds a node of the tree with that name, and finds nothing
   * exactly when no node has it.
   */
  lemma SearchByNameSound(t: MenuTree, n: string)
    ensures t.SearchByName(n).Some? ==>
              t.SearchByName(n).value.GetName() == n && t.SearchByName(n).value in Preorder(t)
    ensures t.SearchByName(n).None? <==> forall x :: x in Preorder(t) ==> x.name != n
  {
    SearchByNameIsPreorderFirst(t, n);
    var s := Preorder(t);
    if exists x :: x in s && x.name == n {
      var x :| x in s && x.name == n;
      var i :| 0 <= i < |s| && s[i] == x;
    }
  }

  /**
   * A category reports the largest word as its id, yet searching for that id
   * does not return it: id search and `GetId` disagree on categories.
   */
  lemma CategoryIdNotSearchable(t: MenuTree)
    requires t.MiddleNode?
    ensures t.GetId() == USIZE_MAX
    ensures t.SearchById(t.GetId()) != Some(t)
  {
    SearchByIdSound(t, USIZE_MAX);
  }

  // ---------------------------------------------------------------------------
  // The test tree of the unit tests
  // ---------------------------------------------------------------------------

  /** The unit tests' tree: the ids 0 to 3 belong to Node1 to Node4. */
  function TestTree(): (t: MenuTree)
    ensures t.SearchById(0) == Some(EndNode("Node1", 0))
    ensures t.SearchById(1) == Some(EndNode("Node2", 1))
    ensures t.SearchById(2) == Some(EndNode("Node3", 2))
    ensures t.SearchById(3) == Some(EndNode("Node4", 3))
  {
    MiddleNode("Category1", [
      MiddleNode("Category2", [EndNode("Node1", 0), EndNode("Node2", 1)]),
      EndNode("Node3", 2),
      EndNode("Node4", 3)])
  }

  lemma TestTreeSearches()
    ensures TestTree().SearchById(1).Some? && TestTree().SearchById(1).value.GetName() == "Node2"
    ensures TestTree().SearchById(100) == None
    ensures TestTree().SearchByName("Node1").Some? && TestTree().SearchByName("Node1").value.GetId() == 0
    ensures TestTree().SearchByName("Doesn't exist") == None
    ensures TestTree().SearchByName("Category1").Some? &&
            TestTree().SearchByName("Category1").value.GetId() == USIZE_MAX
  {
  }
}
