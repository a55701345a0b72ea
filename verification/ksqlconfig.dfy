/**
 * The configuration tree of singupy/ksql.py: `config.add_child`, the choice
 * `assert_configuration` makes for each node, the DROP statement, and the order in which
 * `create_configuration`, `delete_configuration` and `assert_configuration` walk the tree.
 * The requests to the server become actions in a plan; what the server holds is the set of
 * names it knows, with the statements the DESCRIBE requests return given as a map.
 */
module KsqlConfig {
  import opened Base

  /** A `config` node: name, type, the requested and the last built statement, and its own children. */
  datatype Config = Config(name: string, kind: string, request: Option<string>, built: Option<string>, children: seq<Config>)

  // ---------------------------------------------------------------------------------------------
  // add_child
  // ---------------------------------------------------------------------------------------------

  /** The ValueErrors of `add_child`, and the failure of the `config` constructor it calls. */
  datatype ChildError = NoChildGiven | BothGiven | ConstructorFailed(createString: string)

  /**
   * `parent.add_child(child, create_string)`, where `constructed` is what `config(create_string,
   * is_actual)` gives (`None` when it raises). Exactly one of `child` and `create_string` must
   * be given; then exactly that child, or the constructed one, is appended and nothing else changes.
   */
  function AddChild(parent: Config, child: Option<Config>, createString: Option<string>, constructed: Option<Config>): (r: Result<Config, ChildError>)
    ensures r == Failure(NoChildGiven) <==> child.None? && createString.None?
    ensures r == Failure(BothGiven) <==> child.Some? && createString.Some?
    ensures r.Failure? && r.error.ConstructorFailed? <==> child.None? && createString.Some? && constructed.None?
    ensures r.Success? ==> r.value.(children := parent.children) == parent
    ensures r.Success? ==> |r.value.children| == |parent.children| + 1
                           && r.value.children[..|parent.children|] == parent.children
                           && r.value.children[|parent.children|] == if child.Some? then child.value else constructed.value
  {
    if child.Some? && createString.None? then
      Success(parent.(children := parent.children + [child.value]))
    else if createString.Some? && child.None? then
      if constructed.Some? then Success(parent.(children := parent.children + [constructed.value]))
      else Failure(ConstructorFailed(createString.value))
    else if createString.None? && child.None? then
      Failure(NoChildGiven)
    else
      Failure(BothGiven)
  }

  /** Children added one after the other keep the order they were added in. */
  lemma AddChildInOrder(parent: Config, a: Config, b: Config)
    requires AddChild(parent, Some(a), None, None).Success?
    requires AddChild(AddChild(parent, Some(a), None, None).value, Some(b), None, None).Success?
    ensures AddChild(AddChild(parent, Some(a), None, None).value, Some(b), None, None).value.children
         == parent.children + [a, b]
  {
  }

  // ---------------------------------------------------------------------------------------------
  // The decision of assert_configuration
  // ---------------------------------------------------------------------------------------------

  /** What `assert_configuration` does with one node after asking the server for its statement. */
  datatype Decision = CreateIt | Keep | Recreate

  /**
   * The statement the server reports for the node (`None` when it has none) decides: create a
   * missing node, keep one whose statement is the requested or the last built one, and delete
   * and create again one whose statement differs from both.
   */
  function Decide(c: Config, actual: Option<string>): (d: Decision)
    ensures d == CreateIt <==> actual.None?
    ensures d == Keep <==> actual.Some? && (actual == c.request || actual == c.built)
    ensures d == Recreate <==> actual.Some? && actual != c.request && actual != c.built
  {
    if actual.None? then CreateIt
    else if actual == c.request || actual == c.built then Keep
    else Recreate
  }

  /** The statement `DESCRIBE <name>;` returns: the server's statement for that name, if it has one. */
  function Describe(server: map<string, string>, name: string): Option<string> {
    if name in server then Some(server[name]) else None
  }

  // ---------------------------------------------------------------------------------------------
  // Plans
  // ---------------------------------------------------------------------------------------------

  /** A CREATE or a DROP request sent for the node with that name. */
  datatype Action = CreateAction(name: string) | DropAction(name: string)

  /** `create_configuration`: the node first, then each child's subtree in order. */
  function CreatePlan(c: Config): (r: seq<Action>)
    ensures |r| > 0 && r[0] == CreateAction(c.name)
    ensures forall a :: a in r ==> a.CreateAction? && a.name in Names(c)
    decreases c, 1
  {
    var bs := Creates(c.children);
    assert forall a :: a in Flatten(bs) ==> a.CreateAction? && a.name in NamesAll(c.children) by {
      forall a | a in Flatten(bs)
        ensures a.CreateAction? && a.name in NamesAll(c.children)
      {
        FlattenMember(bs, a);
        var i :| 0 <= i < |bs| && a in bs[i];
        NamesAllHas(c.children, i);
      }
    }
    [CreateAction(c.name)] + Flatten(bs)
  }

  function Creates(cs: seq<Config>): (r: seq<seq<Action>>)
    ensures |r| == |cs|
    decreases cs, 0
  {
    seq(|cs|, i requires 0 <= i < |cs| => CreatePlan(cs[i]))
  }

  /** `delete_configuration`: each child's subtree in order, then the node. */
  function DeletePlan(c: Config): (r: seq<Action>)
    ensures |r| > 0 && r[|r| - 1] == DropAction(c.name)
    ensures forall a :: a in r ==> a.DropAction? && a.name in Names(c)
    decreases c, 1
  {
    var bs := Deletes(c.children);
    assert forall a :: a in Flatten(bs) ==> a.DropAction? && a.name in NamesAll(c.children) by {
      forall a | a in Flatten(bs)
        ensures a.DropAction? && a.name in NamesAll(c.children)
      {
        FlattenMember(bs, a);
        var i :| 0 <= i < |bs| && a in bs[i];
        NamesAllHas(c.children, i);
      }
    }
    Flatten(bs) + [DropAction(c.name)]
  }

  function Deletes(cs: seq<Config>): (r: seq<seq<Action>>)
    ensures |r| == |cs|
    decreases cs, 0
  {
    seq(|cs|, i requires 0 <= i < |cs| => DeletePlan(cs[i]))
  }

  /**
   * The requests a node's own decision sends; a recreated node is deleted and created with its
   * whole subtree. Nothing is sent exactly when the node is kept, and a drop only on a recreate.
   */
  function Own(c: Config, server: map<string, string>): (r: seq<Action>)
    ensures r == [] <==> Decide(c, Describe(server, c.name)) == Keep
    ensures Decide(c, Describe(server, c.name)) != Recreate ==> forall a :: a in r ==> a.CreateAction?
    ensures forall a :: a in r ==> a.name in Names(c)
    ensures forall i, j :: 0 <= i < j < |r| ==> !(r[i].CreateAction? && r[j].DropAction?)
  {
    match Decide(c, Describe(server, c.name))
    case CreateIt => CreatePlan(c)
    case Keep => []
    case Recreate =>
      var drops, creates := DeletePlan(c), CreatePlan(c);
      assert forall k :: 0 <= k < |drops| ==> (drops + creates)[k] == drops[k] && drops[k] in drops;
      assert forall k :: |drops| <= k < |drops + creates| ==>
        (drops + creates)[k] == creates[k - |drops|] && creates[k - |drops|] in creates;
      drops + creates
  }

  /** `assert_configuration`: each child's subtree asserted in order, then the node's own decision. */
  function AssertPlan(c: Config, server: map<string, string>): (r: seq<Action>)
    ensures forall a :: a in r ==> a.name in Names(c)
    decreases c, 1
  {
    var bs := Asserts(c.children, server);
    assert forall a :: a in Flatten(bs) ==> a.name in NamesAll(c.children) by {
      forall a | a in Flatten(bs)
        ensures a.name in NamesAll(c.children)
      {
        FlattenMember(bs, a);
        var i :| 0 <= i < |bs| && a in bs[i];
        NamesAllHas(c.children, i);
      }
    }
    Flatten(bs) + Own(c, server)
  }

  function Asserts(cs: seq<Config>, server: map<string, string>): (r: seq<seq<Action>>)
    ensures |r| == |cs|
    decreases cs, 0
  {
    seq(|cs|, i requires 0 <= i < |cs| => AssertPlan(cs[i], server))
  }

  // ---------------------------------------------------------------------------------------------
  // Traversal order
  // ---------------------------------------------------------------------------------------------

  /** A path of child indices that stays inside the tree. */
  predicate ValidPath(c: Config, path: seq<nat>)
    decreases |path|
  {
    path == [] || (path[0] < |c.children| && ValidPath(c.children[path[0]], path[1..]))
  }

  /** The node a valid path leads to. */
  function At(c: Config, path: seq<nat>): Config
    requires ValidPath(c, path)
    decreases |path|
  {
    if path == [] then c else At(c.children[path[0]], path[1..])
  }

  /** Where the CREATE of the node at `path` sits in the create plan. */
  function PrePos(c: Config, path: seq<nat>): nat
    requires ValidPath(c, path)
    decreases |path|
  {
    if path == [] then 0
    else 1 + |Flatten(Creates(c.children)[..path[0]])| + PrePos(c.children[path[0]], path[1..])
  }

  /** Where the DROP of the node at `path` sits in the delete plan. */
  function PostPos(c: Config, path: seq<nat>): nat
    requires ValidPath(c, path)
    decreases |path|
  {
    if path == [] then |Flatten(Deletes(c.children))|
    else |Flatten(Deletes(c.children)[..path[0]])| + PostPos(c.children[path[0]], path[1..])
  }

  /** Where the requests of the own decision of the node at `path` start in the assert plan. */
  function OwnPos(c: Config, server: map<string, string>, path: seq<nat>): nat
    requires ValidPath(c, path)
    decreases |path|
  {
    if path == [] then |Flatten(Asserts(c.children, server))|
    else |Flatten(Asserts(c.children, server)[..path[0]])| + OwnPos(c.children[path[0]], server, path[1..])
  }

  /** A path into a subtree is a path to the subtree's root followed by a path inside it. */
  lemma {:induction false} ValidPathSplit(c: Config, p: seq<nat>, q: seq<nat>)
    requires ValidPath(c, p + q)
    ensures ValidPath(c, p) && ValidPath(At(c, p), q) && At(At(c, p), q) == At(c, p + q)
    decreases |p|
  {
    if p == [] {
      assert p + q == q;
    } else {
      assert (p + q)[0] == p[0] && (p + q)[1..] == p[1..] + q;
      ValidPathSplit(c.children[p[0]], p[1..], q);
    }
  }

  /** The create walk is the node's CREATE followed by the children's walks. */
  lemma CreatePlanShape(c: Config)
    ensures CreatePlan(c) == [CreateAction(c.name)] + Flatten(Creates(c.children))
  {
  }

  /** Request `k` of child `i`'s create walk sits in the node's create walk after the node and the earlier children. */
  lemma CreatePlanIndex(c: Config, i: nat, k: nat)
    requires i < |c.children| && k < |CreatePlan(c.children[i])|
    ensures 1 + |Flatten(Creates(c.children)[..i])| + k < |CreatePlan(c)|
    ensures CreatePlan(c)[1 + |Flatten(Creates(c.children)[..i])| + k] == CreatePlan(c.children[i])[k]
  {
    var bs := Creates(c.children);
    assert bs[i] == CreatePlan(c.children[i]);
    CreatePlanShape(c);
    FlattenIndexAfter([CreateAction(c.name)], bs, [], CreatePlan(c), i, k);
  }

  /** The create plan sends a CREATE for every node of the tree. */
  lemma {:induction false} CreateAtPrePos(c: Config, path: seq<nat>)
    requires ValidPath(c, path)
    ensures PrePos(c, path) < |CreatePlan(c)| && CreatePlan(c)[PrePos(c, path)] == CreateAction(At(c, path).name)
    decreases |path|
  {
    if path != [] {
      var i, rest := path[0], path[1..];
      assert PrePos(c, path) == 1 + |Flatten(Creates(c.children)[..i])| + PrePos(c.children[i], rest);
      assert At(c, path) == At(c.children[i], rest);
      CreateAtPrePos(c.children[i], rest);
      CreatePlanIndex(c, i, PrePos(c.children[i], rest));
    } else {
      assert CreatePlan(c)[0] == CreateAction(c.name);
    }
  }

  /** The delete plan sends a DROP for every node of the tree. */
  lemma DropAtPostPos(c: Config, path: seq<nat>)
    requires ValidPath(c, path)
    ensures PostPos(c, path) < |DeletePlan(c)| && DeletePlan(c)[PostPos(c, path)] == DropAction(At(c, path).name)
  {
    DeletePlanIsWalk(c);
    PostPosIsWalkPos(c, path);
    WalkHasBlock(c, DropOf(), path);
    var pos := WalkPos(c, DropOf(), path);
    assert DeletePlan(c)[pos] == Walk(c, DropOf())[pos..pos + 1][0];
  }

  /** Creating goes top-down: every node is created before each node below it. */
  lemma {:induction false} PrePosAncestor(c: Config, p: seq<nat>, q: seq<nat>)
    requires ValidPath(c, p + q) && q != []
    ensures ValidPath(c, p) && PrePos(c, p) < PrePos(c, p + q)
    decreases |p|
  {
    ValidPathSplit(c, p, q);
    if p != [] {
      assert (p + q)[0] == p[0] && (p + q)[1..] == p[1..] + q;
      PrePosAncestor(c.children[p[0]], p[1..], q);
    }
  }

  /** Deleting goes bottom-up: every node is dropped after each node below it. */
  lemma {:induction false} PostPosAncestor(c: Config, p: seq<nat>, q: seq<nat>)
    requires ValidPath(c, p + q) && q != []
    ensures ValidPath(c, p) && PostPos(c, p + q) < PostPos(c, p)
    decreases |p|
  {
    ValidPathSplit(c, p, q);
    if p == [] {
      assert p + q == q;
      var i := q[0];
      var bs := Deletes(c.children);
      DropAtPostPos(c.children[i], q[1..]);
      assert bs[i] == DeletePlan(c.children[i]);
      FlattenIndex(bs, i, PostPos(c.children[i], q[1..]));
    } else {
      assert (p + q)[0] == p[0] && (p + q)[1..] == p[1..] + q;
      PostPosAncestor(c.children[p[0]], p[1..], q);
    }
  }
  /** Creating visits siblings in list order: child i's whole subtree is created before child j, for i < j. */
  lemma {:induction false} PrePosSiblings(c: Config, p: seq<nat>, i: nat, j: nat, q: seq<nat>)
    requires i < j && ValidPath(c, p + [i] + q) && ValidPath(c, p + [j])
    ensures PrePos(c, p + [i] + q) < PrePos(c, p + [j])
    decreases |p|
  {
    if p == [] {
      assert p + [i] + q == [i] + q && ([i] + q)[1..] == q && p + [j] == [j] && [j][1..] == [];
      var bs := Creates(c.children);
      CreateAtPrePos(c.children[i], q);
      assert bs[i] == CreatePlan(c.children[i]);
      FlattenBlockBefore(bs, i, j);
    } else {
      assert (p + [i] + q)[0] == p[0] && (p + [i] + q)[1..] == p[1..] + [i] + q;
      assert (p + [j])[0] == p[0] && (p + [j])[1..] == p[1..] + [j];
      PrePosSiblings(c.children[p[0]], p[1..], i, j, q);
    }
  }

  /** Deleting visits siblings in list order: child i's whole subtree is dropped before child j, for i < j. */
  lemma {:induction false} PostPosSiblings(c: Config, p: seq<nat>, i: nat, j: nat, q: seq<nat>)
    requires i < j && ValidPath(c, p + [i] + q) && ValidPath(c, p + [j])
    ensures PostPos(c, p + [i] + q) < PostPos(c, p + [j])
    decreases |p|
  {
    if p == [] {
      assert p + [i] + q == [i] + q && ([i] + q)[1..] == q && p + [j] == [j] && [j][1..] == [];
      var bs := Deletes(c.children);
      DropAtPostPos(c.children[i], q);
      assert bs[i] == DeletePlan(c.children[i]);
      FlattenBlockBefore(bs, i, j);
    } else {
      assert (p + [i] + q)[0] == p[0] && (p + [i] + q)[1..] == p[1..] + [i] + q;
      assert (p + [j])[0] == p[0] && (p + [j])[1..] == p[1..] + [j];
      PostPosSiblings(c.children[p[0]], p[1..], i, j, q);
    }
  }


  /**
   * A post-order walk of the tree: each child's walk in order, then a block of the node's own.
   * The assert plan is the walk whose block is the node's own decision (`AssertPlanIsWalk`).
   */
  function Walk(c: Config, own: Config -> seq<Action>): seq<Action>
    decreases c, 1
  {
    Flatten(Walks(c.children, own)) + own(c)
  }

  function Walks(cs: seq<Config>, own: Config -> seq<Action>): (r: seq<seq<Action>>)
    ensures |r| == |cs|
    decreases cs, 0
  {
    seq(|cs|, i requires 0 <= i < |cs| => Walk(cs[i], own))
  }

  /** Where the block of the node at `path` starts in the walk. */
  function WalkPos(c: Config, own: Config -> seq<Action>, path: seq<nat>): nat
    requires ValidPath(c, path)
    decreases |path|
  {
    if path == [] then |Flatten(Walks(c.children, own))|
    else |Flatten(Walks(c.children, own)[..path[0]])| + WalkPos(c.children[path[0]], own, path[1..])
  }

  /** The walk holds the block of every node of the tree, whole, at its position. */
  lemma {:induction false} WalkHasBlock(c: Config, own: Config -> seq<Action>, path: seq<nat>)
    requires ValidPath(c, path)
    ensures WalkPos(c, own, path) + |own(At(c, path))| <= |Walk(c, own)|
    ensures Walk(c, own)[WalkPos(c, own, path)..WalkPos(c, own, path) + |own(At(c, path))|] == own(At(c, path))
    decreases |path|
  {
    if path != [] {
      var i := path[0];
      var bs := Walks(c.children, own);
      WalkHasBlock(c.children[i], own, path[1..]);
      assert bs[i] == Walk(c.children[i], own);
      FlattenBlockAt(bs, i, WalkPos(c.children[i], own, path[1..]), own(At(c, path)), Walk(c, own), WalkPos(c, own, path));
    }
  }

  /** The walk is post-order: the blocks of every node below a node end before the node's block starts. */
  lemma {:induction false} WalkPosAncestor(c: Config, own: Config -> seq<Action>, p: seq<nat>, q: seq<nat>)
    requires ValidPath(c, p + q) && q != []
    ensures ValidPath(c, p) && WalkPos(c, own, p + q) + |own(At(c, p + q))| <= WalkPos(c, own, p)
    decreases |p|
  {
    ValidPathSplit(c, p, q);
    if p == [] {
      assert p + q == q;
      var i := q[0];
      var bs := Walks(c.children, own);
      WalkHasBlock(c.children[i], own, q[1..]);
      assert bs[i] == Walk(c.children[i], own);
      FlattenBlock(bs, i);
    } else {
      assert (p + q)[0] == p[0] && (p + q)[1..] == p[1..] + q;
      WalkPosAncestor(c.children[p[0]], own, p[1..], q);
    }
  }
  /** The walk visits siblings in list order: every block in child i's subtree ends before child j's block starts, for i < j. */
  lemma {:induction false} WalkPosSiblings(c: Config, own: Config -> seq<Action>, p: seq<nat>, i: nat, j: nat, q: seq<nat>)
    requires i < j && ValidPath(c, p + [i] + q) && ValidPath(c, p + [j])
    ensures WalkPos(c, own, p + [i] + q) + |own(At(c, p + [i] + q))| <= WalkPos(c, own, p + [j])
    decreases |p|
  {
    if p == [] {
      assert p + [i] + q == [i] + q && ([i] + q)[1..] == q && p + [j] == [j] && [j][1..] == [];
      var bs := Walks(c.children, own);
      WalkHasBlock(c.children[i], own, q);
      assert bs[i] == Walk(c.children[i], own);
      FlattenBlockBefore(bs, i, j);
    } else {
      assert (p + [i] + q)[0] == p[0] && (p + [i] + q)[1..] == p[1..] + [i] + q;
      assert (p + [j])[0] == p[0] && (p + [j])[1..] == p[1..] + [j];
      WalkPosSiblings(c.children[p[0]], own, p[1..], i, j, q);
    }
  }


  /** The block the assert plan sends for a node: its own decision. */
  function OwnOf(server: map<string, string>): Config -> seq<Action> {
    c => Own(c, server)
  }

  /** The assert plan is the post-order walk whose block is each node's own decision. */
  lemma {:induction false} AssertPlanIsWalk(c: Config, server: map<string, string>)
    ensures AssertPlan(c, server) == Walk(c, OwnOf(server))
    decreases c, 1
  {
    AssertsAreWalks(c.children, server);
  }

  lemma {:induction false} AssertsAreWalks(cs: seq<Config>, server: map<string, string>)
    ensures Asserts(cs, server) == Walks(cs, OwnOf(server))
    decreases cs, 0
  {
    forall i | 0 <= i < |cs|
      ensures Asserts(cs, server)[i] == Walks(cs, OwnOf(server))[i]
    {
      AssertPlanIsWalk(cs[i], server);
    }
  }

  /** The block the delete plan sends for a node: its DROP. */
  function DropOf(): Config -> seq<Action> {
    (c: Config) => [DropAction(c.name)]
  }

  /** The delete plan is the walk that sends each node's DROP. */
  lemma {:induction false} DeletePlanIsWalk(c: Config)
    ensures DeletePlan(c) == Walk(c, DropOf())
    decreases c, 1
  {
    DeletesAreWalks(c.children);
  }

  lemma {:induction false} DeletesAreWalks(cs: seq<Config>)
    ensures Deletes(cs) == Walks(cs, DropOf())
    decreases cs, 0
  {
    forall i | 0 <= i < |cs|
      ensures Deletes(cs)[i] == Walks(cs, DropOf())[i]
    {
      DeletePlanIsWalk(cs[i]);
    }
  }

  /** The position of a node's DROP in the delete plan is that of its block in the walk. */
  lemma {:induction false} PostPosIsWalkPos(c: Config, path: seq<nat>)
    requires ValidPath(c, path)
    ensures PostPos(c, path) == WalkPos(c, DropOf(), path)
    decreases |path|
  {
    DeletesAreWalks(c.children);
    if path != [] {
      PostPosIsWalkPos(c.children[path[0]], path[1..]);
    }
  }

  /** The position of a node's own decision in the assert plan is that of its block in the walk. */
  lemma {:induction false} OwnPosIsWalkPos(c: Config, server: map<string, string>, path: seq<nat>)
    requires ValidPath(c, path)
    ensures OwnPos(c, server, path) == WalkPos(c, OwnOf(server), path)
    decreases |path|
  {
    AssertsAreWalks(c.children, server);
    if path != [] {
      OwnPosIsWalkPos(c.children[path[0]], server, path[1..]);
    }
  }

  /** The assert plan sends the own decision of every node of the tree as one block, at its position. */
  lemma OwnAtOwnPos(c: Config, server: map<string, string>, path: seq<nat>)
    requires ValidPath(c, path)
    ensures OwnPos(c, server, path) + |Own(At(c, path), server)| <= |AssertPlan(c, server)|
    ensures AssertPlan(c, server)[OwnPos(c, server, path)..OwnPos(c, server, path) + |Own(At(c, path), server)|]
         == Own(At(c, path), server)
  {
    var own := OwnOf(server);
    AssertPlanIsWalk(c, server);
    OwnPosIsWalkPos(c, server, path);
    WalkHasBlock(c, own, path);
    assert own(At(c, path)) == Own(At(c, path), server);
  }

  /**
   * Asserting goes bottom-up: the own decision of every node below a node is sent, in full,
   * before the node's own decision starts.
   */
  lemma OwnPosAncestor(c: Config, server: map<string, string>, p: seq<nat>, q: seq<nat>)
    requires ValidPath(c, p + q) && q != []
    ensures ValidPath(c, p) && OwnPos(c, server, p + q) + |Own(At(c, p + q), server)| <= OwnPos(c, server, p)
  {
    WalkPosAncestor(c, OwnOf(server), p, q);
    OwnPosIsWalkPos(c, server, p + q);
    OwnPosIsWalkPos(c, server, p);
  }
  /**
   * Asserting visits siblings in list order: the own decision of every node in child i's subtree
   * is sent, in full, before the own decision of child j starts, for i < j.
   */
  lemma OwnPosSiblings(c: Config, server: map<string, string>, p: seq<nat>, i: nat, j: nat, q: seq<nat>)
    requires i < j && ValidPath(c, p + [i] + q) && ValidPath(c, p + [j])
    ensures OwnPos(c, server, p + [i] + q) + |Own(At(c, p + [i] + q), server)| <= OwnPos(c, server, p + [j])
  {
    WalkPosSiblings(c, OwnOf(server), p, i, j, q);
    OwnPosIsWalkPos(c, server, p + [i] + q);
    OwnPosIsWalkPos(c, server, p + [j]);
  }



  // ---------------------------------------------------------------------------------------------
  // Effect of the plans
  // ---------------------------------------------------------------------------------------------

  /** The names of a node and of everything below it. */
  function Names(c: Config): set<string>
    decreases c, 1
  {
    {c.name} + NamesAll(c.children)
  }

  function NamesAll(cs: seq<Config>): set<string>
    decreases cs, 0
  {
    if cs == [] then {} else NamesAll(cs[..|cs| - 1]) + Names(cs[|cs| - 1])
  }

  /** A child's names are among its siblings' names together. */
  lemma {:induction false} NamesAllHas(cs: seq<Config>, i: nat)
    requires i < |cs|
    ensures Names(cs[i]) <= NamesAll(cs)
    decreases |cs|
  {
    var n := |cs| - 1;
    if i < n {
      NamesAllHas(cs[..n], i);
      assert cs[..n][i] == cs[i];
    }
  }

  /** The names the server knows after the requests of a plan: a CREATE adds one, a DROP removes one. */
  function Run(present: set<string>, plan: seq<Action>): set<string>
    decreases |plan|
  {
    if plan == [] then present
    else
      var before := Run(present, plan[..|plan| - 1]);
      match plan[|plan| - 1]
      case CreateAction(n) => before + {n}
      case DropAction(n) => before - {n}
  }

  lemma {:induction false} RunAppend(present: set<string>, a: seq<Action>, b: seq<Action>)
    ensures Run(present, a + b) == Run(Run(present, a), b)
    decreases |b|
  {
    if b == [] {
      assert a + b == a;
    } else {
      assert (a + b)[..|a + b| - 1] == a + b[..|b| - 1];
      RunAppend(present, a, b[..|b| - 1]);
    }
  }

  /** Running the create plan adds the names of the whole subtree. */
  lemma {:induction false} RunCreatePlan(present: set<string>, c: Config)
    ensures Run(present, CreatePlan(c)) == present + Names(c)
    decreases c, 1
  {
    RunAppend(present, [CreateAction(c.name)], Flatten(Creates(c.children)));
    assert Run(present, [CreateAction(c.name)]) == present + {c.name};
    RunCreates(present + {c.name}, c.children);
  }

  lemma {:induction false} RunCreates(present: set<string>, cs: seq<Config>)
    ensures Run(present, Flatten(Creates(cs))) == present + NamesAll(cs)
    decreases cs, 0
  {
    if cs != [] {
      var n := |cs| - 1;
      var bs := Creates(cs);
      assert bs[..n] == Creates(cs[..n]);
      RunCreates(present, cs[..n]);
      RunAppend(present, Flatten(bs[..n]), bs[n]);
      RunCreatePlan(present + NamesAll(cs[..n]), cs[n]);
    }
  }

  /** Running the delete plan removes the names of the whole subtree. */
  lemma {:induction false} RunDeletePlan(present: set<string>, c: Config)
    ensures Run(present, DeletePlan(c)) == present - Names(c)
    decreases c, 1
  {
    RunDeletes(present, c.children);
    RunAppend(present, Flatten(Deletes(c.children)), [DropAction(c.name)]);
    assert Run(present - NamesAll(c.children), [DropAction(c.name)]) == present - NamesAll(c.children) - {c.name};
  }

  lemma {:induction false} RunDeletes(present: set<string>, cs: seq<Config>)
    ensures Run(present, Flatten(Deletes(cs))) == present - NamesAll(cs)
    decreases cs, 0
  {
    if cs != [] {
      var n := |cs| - 1;
      var bs := Deletes(cs);
      assert bs[..n] == Deletes(cs[..n]);
      RunDeletes(present, cs[..n]);
      RunAppend(present, Flatten(bs[..n]), bs[n]);
      RunDeletePlan(present - NamesAll(cs[..n]), cs[n]);
    }
  }

  /**
   * Asserting a tree leaves every one of its names on the server and touches no other name,
   * starting from any set of names that includes what the server reported.
   */
  lemma {:induction false} RunAssertPlan(present: set<string>, c: Config, server: map<string, string>)
    requires server.Keys <= present
    ensures Run(present, AssertPlan(c, server)) == present + Names(c)
    decreases c, 1
  {
    var mid := present + NamesAll(c.children);
    RunAsserts(present, c.children, server);
    RunAppend(present, Flatten(Asserts(c.children, server)), Own(c, server));
    match Decide(c, Describe(server, c.name))
    case CreateIt =>
      RunCreatePlan(mid, c);
    case Keep =>
      assert Own(c, server) == [];
    case Recreate =>
      RunAppend(mid, DeletePlan(c), CreatePlan(c));
      RunDeletePlan(mid, c);
      RunCreatePlan(mid - Names(c), c);
  }

  lemma {:induction false} RunAsserts(present: set<string>, cs: seq<Config>, server: map<string, string>)
    requires server.Keys <= present
    ensures Run(present, Flatten(Asserts(cs, server))) == present + NamesAll(cs)
    decreases cs, 0
  {
    if cs != [] {
      var n := |cs| - 1;
      var bs := Asserts(cs, server);
      assert bs[..n] == Asserts(cs[..n], server);
      RunAsserts(present, cs[..n], server);
      RunAppend(present, Flatten(bs[..n]), bs[n]);
      RunAssertPlan(present + NamesAll(cs[..n]), cs[n], server);
    }
  }

  /** After `assert_configuration` the server knows every name of the tree, and nothing else changed. */
  lemma AssertEstablishesTree(c: Config, server: map<string, string>)
    ensures Run(server.Keys, AssertPlan(c, server)) == server.Keys + Names(c)
  {
    RunAssertPlan(server.Keys, c, server);
  }

  /** Every node is kept: the server reports the requested or the built statement for each. */
  predicate AllKept(c: Config, server: map<string, string>)
    decreases c
  {
    && Decide(c, Describe(server, c.name)) == Keep
    && forall i :: 0 <= i < |c.children| ==> AllKept(c.children[i], server)
  }

  /** A tree the server already holds as configured gets no request at all. */
  lemma {:induction false} AssertIdleWhenConfigured(c: Config, server: map<string, string>)
    requires AllKept(c, server)
    ensures AssertPlan(c, server) == []
    decreases c
  {
    var bs := Asserts(c.children, server);
    forall i | 0 <= i < |bs| ensures bs[i] == [] {
      AssertIdleWhenConfigured(c.children[i], server);
    }
    FlattenEmpty(bs);
  }

  // ---------------------------------------------------------------------------------------------
  // Examples
  // ---------------------------------------------------------------------------------------------

  /** A leaf node with a requested statement. */
  function Leaf(name: string, request: string): Config {
    Config(name, "STREAM", Some(request), None, [])
  }

  /** A leaf's walks are its own request, and asserting it is its own decision alone. */
  lemma LeafPlans(c: Config, server: map<string, string>)
    requires c.children == []
    ensures CreatePlan(c) == [CreateAction(c.name)]
    ensures DeletePlan(c) == [DropAction(c.name)]
    ensures AssertPlan(c, server) == Own(c, server)
  {
    assert Creates(c.children) == [] && Deletes(c.children) == [] && Asserts(c.children, server) == [];
  }

  /** With a single child, every walk is the node's request around the child's walk. */
  lemma OneChildPlans(c: Config, server: map<string, string>)
    requires |c.children| == 1
    ensures CreatePlan(c) == [CreateAction(c.name)] + CreatePlan(c.children[0])
    ensures DeletePlan(c) == DeletePlan(c.children[0]) + [DropAction(c.name)]
    ensures AssertPlan(c, server) == AssertPlan(c.children[0], server) + Own(c, server)
  {
    var child := c.children[0];
    assert Creates(c.children) == [CreatePlan(child)];
    assert Deletes(c.children) == [DeletePlan(child)];
    assert Asserts(c.children, server) == [AssertPlan(child, server)];
    FlattenOne(CreatePlan(child));
    FlattenOne(DeletePlan(child));
    FlattenOne(AssertPlan(child, server));
  }

  /**
   * On a server that has neither, asserting a parent with one child creates the child, then
   * the parent, then the child a second time: `create_configuration` of the parent walks into
   * the children that were just asserted.
   */
  lemma MissingTreeCreatesChildTwice(parent: Config, child: Config)
    requires parent == Config("p", "STREAM", Some("CREATE STREAM p ..;"), None, [child])
    requires child == Leaf("k", "CREATE STREAM k ..;")
    ensures AssertPlan(parent, map[]) == [CreateAction("k"), CreateAction("p"), CreateAction("k")]
  {
    LeafPlans(child, map[]);
    OneChildPlans(parent, map[]);
    assert Own(child, map[]) == CreatePlan(child);
    assert Own(parent, map[]) == CreatePlan(parent);
  }

  /**
   * A parent whose statement on the server changed, over a child that is as requested: the
   * child is kept, then the parent's subtree is dropped bottom-up and created again top-down.
   */
  lemma ChangedParentRecreatesSubtree(parent: Config, child: Config, server: map<string, string>)
    requires child == Leaf("k", "CREATE STREAM k ..;")
    requires parent == Config("p", "STREAM", Some("CREATE STREAM p ..;"), None, [child])
    requires server == map["k" := "CREATE STREAM k ..;", "p" := "CREATE STREAM p AS OLD;"]
    ensures AssertPlan(parent, server) == [DropAction("k"), DropAction("p"), CreateAction("p"), CreateAction("k")]
  {
    LeafPlans(child, server);
    OneChildPlans(parent, server);
    assert Describe(server, "k") == child.request;
    assert Own(child, server) == [];
    assert Describe(server, "p") == Some("CREATE STREAM p AS OLD;");
    assert Own(parent, server) == DeletePlan(parent) + CreatePlan(parent);
  }

  // ---------------------------------------------------------------------------------------------
  // The DROP statement
  // ---------------------------------------------------------------------------------------------

  /** The statement `delete_configuration` sends as written: the type in place of the name. */
  function DropStatementAsWritten(c: Config): (r: string)
    ensures |r| == 2 * |c.kind| + 7
    ensures r[..5] == "DROP " && r[5..5 + |c.kind|] == c.kind && r[|c.kind| + 6..|r| - 1] == c.kind
  {
    "DROP " + c.kind + " " + c.kind + ";"
  }

  /** The DROP statement for the node: its type, then its name. */
  function DropStatement(c: Config): (r: string)
    ensures |r| == |c.kind| + |c.name| + 7
    ensures r[..5] == "DROP " && r[5..5 + |c.kind|] == c.kind && r[|c.kind| + 6..|r| - 1] == c.name
  {
    "DROP " + c.kind + " " + c.name + ";"
  }

  /** Between nodes of one type the DROP statement tells them apart by name. */
  lemma DropStatementNamesNode(c1: Config, c2: Config)
    requires c1.kind == c2.kind
    ensures DropStatement(c1) == DropStatement(c2) <==> c1.name == c2.name
  {
    if DropStatement(c1) == DropStatement(c2) {
      assert c1.name == DropStatement(c1)[|c1.kind| + 6..|DropStatement(c1)| - 1];
    }
  }

  /** As written, two nodes of one type get the same DROP statement, whatever their names. */
  lemma DropStatementIgnoresName(c1: Config, c2: Config)
    requires c1.kind == c2.kind && c1.name != c2.name
    ensures DropStatementAsWritten(c1) == DropStatementAsWritten(c2)
    ensures DropStatement(c1) != DropStatement(c2)
  {
    DropStatementNamesNode(c1, c2);
  }

  // ---------------------------------------------------------------------------------------------
  // The request call
  // ---------------------------------------------------------------------------------------------

  /** What `post_query(host, query, properties={})` receives. */
  datatype Request = Request(host: string, query: string)

  /** Python's TypeError for a call to `post_query` with too few positional arguments, naming those missing, or too many. */
  datatype CallError = MissingArguments(names: seq<string>) | TooManyArguments(given: nat)

  /**
   * Binding positional arguments to `post_query(host, query, properties={})`: `host` and `query`
   * have no default, so a call with fewer than two arguments fails, naming the ones missing; a
   * third binds to `properties`, which the model does not carry, and a fourth is too many.
   */
  function PostQueryCall(args: seq<string>): (r: Result<Request, CallError>)
    ensures r.Success? <==> 2 <= |args| <= 3
    ensures r.Success? ==> r.value.host == args[0] && r.value.query == args[1]
    ensures |args| < 2 ==> r.Failure? && r.error.MissingArguments? && |args| + |r.error.names| == 2
                           && r.error.names[|r.error.names| - 1] == "query"
  {
    if |args| < 2 then Failure(MissingArguments(["host", "query"][|args|..]))
    else if |args| <= 3 then Success(Request(args[0], args[1]))
    else Failure(TooManyArguments(|args|))
  }

  /** The arguments `create_configuration` and `delete_configuration` pass as written: the statement alone. */
  function ArgsAsWritten(host: string, statement: string): seq<string> {
    [statement]
  }

  /** The arguments the call needs: the server, then the statement. */
  function Args(host: string, statement: string): seq<string> {
    [host, statement]
  }

  /**
   * As written, the statement binds to `host` and `query` is missing, so no CREATE or DROP
   * request is ever sent; with the host passed first the statement reaches the server.
   */
  lemma RequestWithoutHost(host: string, statement: string)
    ensures PostQueryCall(ArgsAsWritten(host, statement)) == Failure(MissingArguments(["query"]))
    ensures PostQueryCall(Args(host, statement)) == Success(Request(host, statement))
  {
  }
}
