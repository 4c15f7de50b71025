/**
  The story forest. Every story node has an id, an author nickname, a content, an image URL and
  at most one parent. The store is a finite map from id to node together with the order in which
  the nodes were created; it only grows.

  The repository queries the story service calls (findRootStories, findChildByParentId,
  findAllChildrenByRootId, findRecursivelyByLeafId, findParentByChildId, findById) are defined
  here by what they return over that map, listing nodes in creation order.
 */
module StoryForest {
  import opened Wrappers

  type StoryId = int

  datatype Story = Story(
    id: StoryId,
    authorNickname: string,
    content: string,
    imageUrl: string,
    parent: Option<StoryId>)

  /** The stored nodes by id, and the ids in the order the nodes were created. */
  datatype Forest = Forest(nodes: map<StoryId, Story>, order: seq<StoryId>)

  predicate NoDuplicates(s: seq<StoryId>) {
    forall i, j :: 0 <= i < j < |s| ==> s[i] != s[j]
  }

  /** The first position of x in s. */
  function IndexOf(s: seq<StoryId>, x: StoryId): (i: nat)
    requires x in s
    ensures i < |s| && s[i] == x
    ensures forall j :: 0 <= j < i ==> s[j] != x
  {
    if s[0] == x then 0 else 1 + IndexOf(s[1..], x)
  }

  /** The parent of the i-th created node, if it has one, was created before it. */
  predicate ParentCreatedBefore(f: Forest, i: int)
    requires 0 <= i < |f.order| && f.order[i] in f.nodes
  {
    match f.nodes[f.order[i]].parent
    case None => true
    case Some(p) => p in f.order[..i]
  }

  /**
    The store's invariant: `order` lists every stored id exactly once, each node is stored under
    its own id, and a node's parent existed when the node was created. The last conjunct is what
    an append-only store whose parents must already exist guarantees; acyclicity follows from it
    (ValidIsAcyclic).
   */
  predicate Valid(f: Forest) {
    && NoDuplicates(f.order)
    && (forall i :: 0 <= i < |f.order| ==> f.order[i] in f.nodes)
    && (forall k :: k in f.nodes ==> k in f.order)
    && (forall k :: k in f.nodes ==> f.nodes[k].id == k)
    && (forall i :: 0 <= i < |f.order| ==> ParentCreatedBefore(f, i))
  }

  /** A node's position in creation order. */
  function Rank(f: Forest, x: StoryId): nat
    requires Valid(f) && x in f.nodes
  {
    IndexOf(f.order, x)
  }

  lemma ParentCreatedEarlier(f: Forest, x: StoryId)
    requires Valid(f) && x in f.nodes && f.nodes[x].parent.Some?
    ensures f.nodes[x].parent.value in f.nodes
    ensures Rank(f, f.nodes[x].parent.value) < Rank(f, x)
  {
    var i := IndexOf(f.order, x);
    var p := f.nodes[x].parent.value;
    assert ParentCreatedBefore(f, i);
    assert p in f.order[..i];
    var j :| 0 <= j < i && f.order[..i][j] == p;
    assert f.order[j] == p;
    assert p in f.nodes;
    var k := IndexOf(f.order, p);
    assert k == j;
  }

  /** s is the node stored under its id. */
  predicate Stored(f: Forest, s: Story) {
    s.id in f.nodes && f.nodes[s.id] == s
  }

  /** Referential integrity: every parent reference names a stored node. */
  predicate Closed(f: Forest) {
    forall k :: k in f.nodes && f.nodes[k].parent.Some? ==> f.nodes[k].parent.value in f.nodes
  }

  /** The k-th ancestor of x (x itself for k = 0); None once the walk passes a root or leaves the store. */
  function Up(f: Forest, x: StoryId, k: nat): (a: Option<StoryId>)
    ensures a.Some? ==> a.value in f.nodes
    decreases k
  {
    if x !in f.nodes then None
    else if k == 0 then Some(x)
    else match f.nodes[x].parent
      case None => None
      case Some(p) => Up(f, p, k - 1)
  }

  /** No node is, directly or transitively, its own ancestor. */
  ghost predicate Acyclic(f: Forest) {
    forall x, k: nat :: 0 < k && x in f.nodes ==> Up(f, x, k) != Some(x)
  }

  lemma ValidIsClosed(f: Forest)
    requires Valid(f)
    ensures Closed(f)
  {
    forall k | k in f.nodes && f.nodes[k].parent.Some?
      ensures f.nodes[k].parent.value in f.nodes
    {
      ParentCreatedEarlier(f, k);
    }
  }

  /** Every proper ancestor of a node was created before it. */
  lemma {:induction false} AncestorCreatedEarlier(f: Forest, x: StoryId, k: nat)
    requires Valid(f) && x in f.nodes && 0 < k && Up(f, x, k).Some?
    ensures Rank(f, Up(f, x, k).value) < Rank(f, x)
    decreases k
  {
    var p := f.nodes[x].parent.value;
    ParentCreatedEarlier(f, x);
    if k > 1 {
      AncestorCreatedEarlier(f, p, k - 1);
    }
  }

  lemma ValidIsAcyclic(f: Forest)
    requires Valid(f)
    ensures Acyclic(f)
  {
    forall x, k: nat | 0 < k && x in f.nodes
      ensures Up(f, x, k) != Some(x)
    {
      if Up(f, x, k).Some? {
        AncestorCreatedEarlier(f, x, k);
      }
    }
  }

  /** What the repository's save does to the store: the node is stored under its id, last in creation order. */
  function Insert(f: Forest, s: Story): (g: Forest)
    ensures g.nodes.Keys == f.nodes.Keys + {s.id} && g.nodes[s.id] == s
    ensures forall k :: k in f.nodes && k != s.id ==> g.nodes[k] == f.nodes[k]
    ensures |g.order| == |f.order| + 1 && g.order[..|f.order|] == f.order && g.order[|f.order|] == s.id
  {
    Forest(f.nodes[s.id := s], f.order + [s.id])
  }

  lemma InsertPreservesValid(f: Forest, s: Story)
    requires Valid(f)
    requires s.id !in f.nodes
    requires s.parent.None? || s.parent.value in f.nodes
    ensures Valid(Insert(f, s))
  {
    var g := Insert(f, s);
    var n := |f.order|;
    forall i | 0 <= i < |g.order|
      ensures g.order[i] in g.nodes && ParentCreatedBefore(g, i)
    {
      assert g.order[..i] == if i < n then f.order[..i] else f.order;
      if i < n {
        assert g.order[i] == f.order[i] && f.order[i] != s.id;
        assert ParentCreatedBefore(f, i);
      }
    }
  }

  /** Appending a fresh node leaves every existing node's ancestors as they were. */
  lemma {:induction false} InsertKeepsAncestors(f: Forest, s: Story, x: StoryId, k: nat)
    requires Closed(f) && s.id !in f.nodes && x in f.nodes
    ensures Up(Insert(f, s), x, k) == Up(f, x, k)
    decreases k
  {
    var g := Insert(f, s);
    assert g.nodes[x] == f.nodes[x];
    if k > 0 && f.nodes[x].parent.Some? {
      InsertKeepsAncestors(f, s, f.nodes[x].parent.value, k - 1);
    }
  }

  /**
    Saving a node under a fresh id whose parent is either absent or an existing node keeps the
    forest acyclic and referentially intact. Only referential integrity of the old store is
    assumed, not the creation-order invariant.
   */
  lemma InsertPreservesAcyclic(f: Forest, s: Story)
    requires Closed(f) && Acyclic(f)
    requires s.id !in f.nodes
    requires s.parent.None? || s.parent.value in f.nodes
    ensures Closed(Insert(f, s)) && Acyclic(Insert(f, s))
  {
    var g := Insert(f, s);
    forall x, k: nat | 0 < k && x in g.nodes
      ensures Up(g, x, k) != Some(x)
    {
      if x == s.id {
        if s.parent.Some? {
          var p := s.parent.value;
          assert Up(g, x, k) == Up(g, p, k - 1);
          InsertKeepsAncestors(f, s, p, k - 1);
        }
      } else {
        InsertKeepsAncestors(f, s, x, k);
      }
    }
  }

  /** No two nodes of the list share an id. */
  predicate DistinctIds(stories: seq<Story>) {
    forall i, j :: 0 <= i < j < |stories| ==> stories[i].id != stories[j].id
  }

  /**
    The nodes of `ids`, in that order, that satisfy `keep`. When the ids are distinct and each
    node is stored under its own id, no node is listed twice.
   */
  function Select(f: Forest, ids: seq<StoryId>, keep: Story -> bool): (r: seq<Story>)
    requires forall i :: 0 <= i < |ids| ==> ids[i] in f.nodes
    ensures |r| <= |ids|
    ensures forall s :: s in r <==> keep(s) && exists i :: 0 <= i < |ids| && f.nodes[ids[i]] == s
    ensures NoDuplicates(ids) && (forall i :: 0 <= i < |ids| ==> f.nodes[ids[i]].id == ids[i]) ==>
      DistinctIds(r)
  {
    if ids == [] then []
    else
      var s := f.nodes[ids[0]];
      var rest := Select(f, ids[1..], keep);
      assert NoDuplicates(ids) && (forall i :: 0 <= i < |ids| ==> f.nodes[ids[i]].id == ids[i]) ==>
        DistinctIds(rest) && forall t :: t in rest ==> t.id != s.id
      by {
        if NoDuplicates(ids) && (forall i :: 0 <= i < |ids| ==> f.nodes[ids[i]].id == ids[i]) {
          assert NoDuplicates(ids[1..]);
          forall t | t in rest
            ensures t.id != s.id
          {
            var i :| 0 <= i < |ids[1..]| && f.nodes[ids[1..][i]] == t;
            assert ids[1..][i] == ids[i + 1];
          }
        }
      }
      (if keep(s) then [s] else []) + rest
  }

  /** In a valid store, a node listed in creation order is exactly a stored node. */
  lemma StoredInOrder(f: Forest)
    requires Valid(f)
    ensures forall s :: (exists i :: 0 <= i < |f.order| && f.nodes[f.order[i]] == s) <==> Stored(f, s)
  {
    forall s | Stored(f, s)
      ensures exists i :: 0 <= i < |f.order| && f.nodes[f.order[i]] == s
    {
      var i := IndexOf(f.order, s.id);
      assert f.nodes[f.order[i]] == s;
    }
    forall s | exists i :: 0 <= i < |f.order| && f.nodes[f.order[i]] == s
      ensures Stored(f, s)
    {
      var i :| 0 <= i < |f.order| && f.nodes[f.order[i]] == s;
      assert f.order[i] in f.nodes && f.nodes[f.order[i]].id == f.order[i];
    }
  }

  /** findById */
  function FindById(f: Forest, id: StoryId): (r: Option<Story>)
    requires Valid(f)
    ensures r.Some? <==> id in f.nodes
    ensures r.Some? ==> Stored(f, r.value) && r.value.id == id
  {
    if id in f.nodes then Some(f.nodes[id]) else None
  }

  /** findRootStories: the stored nodes that have no parent. */
  function FindRootStories(f: Forest): (roots: seq<Story>)
    requires Valid(f)
    ensures forall s :: s in roots <==> Stored(f, s) && s.parent.None?
    ensures DistinctIds(roots)
  {
    StoredInOrder(f);
    Select(f, f.order, (s: Story) => s.parent.None?)
  }

  /** findChildByParentId: the stored nodes whose parent is `parentId`. */
  function FindChildByParentId(f: Forest, parentId: StoryId): (children: seq<Story>)
    requires Valid(f)
    ensures forall s :: s in children <==> Stored(f, s) && s.parent == Some(parentId)
    ensures DistinctIds(children)
  {
    StoredInOrder(f);
    Select(f, f.order, (s: Story) => s.parent == Some(parentId))
  }

  /** x is root itself or is reached from root by following child links (x's parent chain passes through root). */
  predicate DescendsFrom(f: Forest, x: StoryId, root: StoryId)
    requires Valid(f)
    decreases if x in f.nodes then Rank(f, x) + 1 else 0
  {
    if x !in f.nodes then false
    else if x == root then true
    else match f.nodes[x].parent
      case None => false
      case Some(p) =>
        ParentCreatedEarlier(f, x);
        DescendsFrom(f, p, root)
  }

  /** findAllChildrenByRootId: the scenario of `rootId`, i.e. the node itself and all its transitive descendants. */
  function FindAllChildrenByRootId(f: Forest, rootId: StoryId): (scenario: seq<Story>)
    requires Valid(f)
    ensures forall s :: s in scenario <==> Stored(f, s) && DescendsFrom(f, s.id, rootId)
    ensures DistinctIds(scenario)
  {
    StoredInOrder(f);
    var members := set x | x in f.nodes && DescendsFrom(f, x, rootId);
    Select(f, f.order, (s: Story) => s.id in members)
  }

  /**
    findRecursivelyByLeafId: the node and its ancestors up to a root, leaf first. Each element is
    stored, links to the next one as its parent, and the last one is a root.
   */
  function FindRecursivelyByLeafId(f: Forest, leafId: StoryId): (chain: seq<Story>)
    requires Valid(f)
    ensures leafId in f.nodes <==> chain != []
    ensures chain != [] ==> chain[0] == f.nodes[leafId] && chain[|chain| - 1].parent.None?
    ensures forall i :: 0 <= i < |chain| ==> Stored(f, chain[i])
    ensures forall i, j :: 0 <= i && j == i + 1 && j < |chain| ==> chain[i].parent == Some(chain[j].id)
    decreases if leafId in f.nodes then Rank(f, leafId) + 1 else 0
  {
    if leafId !in f.nodes then []
    else
      var node := f.nodes[leafId];
      match node.parent
      case None => [node]
      case Some(p) =>
        ParentCreatedEarlier(f, leafId);
        [node] + FindRecursivelyByLeafId(f, p)
  }

  /** findParentByChildId: the stored parent of the stored node `childId`, if it has one. */
  function FindParentByChildId(f: Forest, childId: StoryId): (r: Option<Story>)
    requires Valid(f)
    ensures r.Some? <==> childId in f.nodes && f.nodes[childId].parent.Some?
    ensures r.Some? ==> Stored(f, r.value) && f.nodes[childId].parent == Some(r.value.id)
  {
    ValidIsClosed(f);
    match FindById(f, childId)
    case None => None
    case Some(child) =>
      match child.parent
      case None => None
      case Some(p) => FindById(f, p)
  }

  // ----- Properties of the queries -----

  /** The i-th element of a node's chain is its i-th ancestor, and the chain holds all of them. */
  lemma {:induction false} ChainIsAncestry(f: Forest, leafId: StoryId)
    requires Valid(f)
    ensures var chain := FindRecursivelyByLeafId(f, leafId);
      && (forall i :: 0 <= i < |chain| ==> Up(f, leafId, i) == Some(chain[i].id))
      && Up(f, leafId, |chain|) == None
    decreases if leafId in f.nodes then Rank(f, leafId) + 1 else 0
  {
    var chain := FindRecursivelyByLeafId(f, leafId);
    if leafId in f.nodes && f.nodes[leafId].parent.Some? {
      var p := f.nodes[leafId].parent.value;
      ParentCreatedEarlier(f, leafId);
      ChainIsAncestry(f, p);
      var rest := FindRecursivelyByLeafId(f, p);
      assert chain == [f.nodes[leafId]] + rest;
      forall i | 0 < i < |chain|
        ensures Up(f, leafId, i) == Some(chain[i].id)
      {
        assert chain[i] == rest[i - 1];
      }
    }
  }

  /** A non-empty store always has a root: the node created first has no parent. */
  lemma RootsEmptyIffStoreEmpty(f: Forest)
    requires Valid(f)
    ensures FindRootStories(f) == [] <==> f.nodes == map[]
  {
    if f.order == [] {
      assert forall k :: k !in f.nodes;
    } else {
      var first := f.order[0];
      assert ParentCreatedBefore(f, 0);
      assert Stored(f, f.nodes[first]);
      assert f.nodes[first] in FindRootStories(f);
    }
  }

  /** Only a stored node has descendants. */
  lemma {:induction false} DescendsFromStoredRoot(f: Forest, x: StoryId, root: StoryId)
    requires Valid(f) && DescendsFrom(f, x, root)
    ensures root in f.nodes
    decreases if x in f.nodes then Rank(f, x) + 1 else 0
  {
    if x != root {
      var p := f.nodes[x].parent.value;
      ParentCreatedEarlier(f, x);
      DescendsFromStoredRoot(f, p, root);
    }
  }

  /** Some node of the list has the id. */
  predicate HasId(stories: seq<Story>, id: StoryId) {
    exists i :: 0 <= i < |stories| && stories[i].id == id
  }

  /** A node list with a head holds an id exactly when the head has it or the rest holds it. */
  lemma ConsHasId(head: Story, rest: seq<Story>, id: StoryId)
    ensures HasId([head] + rest, id) <==> head.id == id || HasId(rest, id)
  {
    var l := [head] + rest;
    assert l[0] == head;
    if HasId(l, id) {
      var i :| 0 <= i < |l| && l[i].id == id;
      if i > 0 {
        assert rest[i - 1].id == id;
      }
    }
    if HasId(rest, id) {
      var i :| 0 <= i < |rest| && rest[i].id == id;
      assert l[i + 1].id == id;
    }
  }

  /** One step of the chain: a stored node's chain is the node followed by its parent's chain. */
  lemma ChainStep(f: Forest, x: StoryId)
    requires Valid(f) && x in f.nodes && f.nodes[x].parent.Some?
    ensures f.nodes[x].parent.value in f.nodes
    ensures Rank(f, f.nodes[x].parent.value) < Rank(f, x)
    ensures FindRecursivelyByLeafId(f, x) == [f.nodes[x]] + FindRecursivelyByLeafId(f, f.nodes[x].parent.value)
  {
    ParentCreatedEarlier(f, x);
  }

  /** A descendant of root has root on its chain. */
  lemma {:induction false} DescendsFromOnPath(f: Forest, x: StoryId, root: StoryId)
    requires Valid(f) && DescendsFrom(f, x, root)
    ensures HasId(FindRecursivelyByLeafId(f, x), root)
    decreases if x in f.nodes then Rank(f, x) + 1 else 0
  {
    var chain := FindRecursivelyByLeafId(f, x);
    if x == root {
      assert chain[0].id == root;
    } else {
      var p := f.nodes[x].parent.value;
      ChainStep(f, x);
      DescendsFromOnPath(f, p, root);
      ConsHasId(f.nodes[x], FindRecursivelyByLeafId(f, p), root);
    }
  }

  /** A node with root on its chain descends from root. */
  lemma {:induction false} OnPathDescendsFrom(f: Forest, x: StoryId, root: StoryId)
    requires Valid(f) && HasId(FindRecursivelyByLeafId(f, x), root)
    ensures DescendsFrom(f, x, root)
    decreases if x in f.nodes then Rank(f, x) + 1 else 0
  {
    if x != root && f.nodes[x].parent.Some? {
      var p := f.nodes[x].parent.value;
      ChainStep(f, x);
      ConsHasId(f.nodes[x], FindRecursivelyByLeafId(f, p), root);
      OnPathDescendsFrom(f, p, root);
    }
  }

  /** x belongs to the scenario of root exactly when root lies on x's path to its root. */
  lemma DescendsFromIffOnPath(f: Forest, x: StoryId, root: StoryId)
    requires Valid(f)
    ensures DescendsFrom(f, x, root) <==> HasId(FindRecursivelyByLeafId(f, x), root)
  {
    if DescendsFrom(f, x, root) {
      DescendsFromOnPath(f, x, root);
    }
    if HasId(FindRecursivelyByLeafId(f, x), root) {
      OnPathDescendsFrom(f, x, root);
    }
  }

  /**
    The scenario of a root: empty exactly when the root is not stored; it contains the root, the
    parent of each of its other members, and every child of each member.
   */
  lemma ScenarioShape(f: Forest, rootId: StoryId)
    requires Valid(f)
    ensures var scenario := FindAllChildrenByRootId(f, rootId);
      && (scenario == [] <==> rootId !in f.nodes)
      && (rootId in f.nodes ==> f.nodes[rootId] in scenario)
      && (forall s :: s in scenario && s.id != rootId ==>
            s.parent.Some? && s.parent.value in f.nodes && f.nodes[s.parent.value] in scenario)
      && (forall s, c :: s in scenario && c in FindChildByParentId(f, s.id) ==> c in scenario)
  {
    var scenario := FindAllChildrenByRootId(f, rootId);
    if rootId in f.nodes {
      assert Stored(f, f.nodes[rootId]);
      assert DescendsFrom(f, rootId, rootId);
    }
    if scenario != [] {
      DescendsFromStoredRoot(f, scenario[0].id, rootId);
    }
    forall s | s in scenario && s.id != rootId
      ensures s.parent.Some? && s.parent.value in f.nodes && f.nodes[s.parent.value] in scenario
    {
      ParentCreatedEarlier(f, s.id);
      assert Stored(f, f.nodes[s.parent.value]);
    }
    forall s, c | s in scenario && c in FindChildByParentId(f, s.id)
      ensures c in scenario
    {
      if c.id != rootId {
        ParentCreatedEarlier(f, c.id);
      }
    }
  }

  /** A node belongs to the scenario of root exactly when root lies on the node's path. */
  lemma ScenarioMatchesPaths(f: Forest, rootId: StoryId, s: Story)
    requires Valid(f)
    ensures s in FindAllChildrenByRootId(f, rootId) <==>
      Stored(f, s) && HasId(FindRecursivelyByLeafId(f, s.id), rootId)
  {
    DescendsFromIffOnPath(f, s.id, rootId);
  }

  /** Saving a node leaves the path of every existing node as it was. */
  lemma {:induction false} InsertKeepsPaths(f: Forest, s: Story, x: StoryId)
    requires Valid(f) && s.id !in f.nodes
    requires s.parent.None? || s.parent.value in f.nodes
    ensures Valid(Insert(f, s))
    ensures x in f.nodes ==> FindRecursivelyByLeafId(Insert(f, s), x) == FindRecursivelyByLeafId(f, x)
    decreases if x in f.nodes then Rank(f, x) + 1 else 0
  {
    InsertPreservesValid(f, s);
    var g := Insert(f, s);
    if x in f.nodes {
      assert g.nodes[x] == f.nodes[x];
      if f.nodes[x].parent.Some? {
        ParentCreatedEarlier(f, x);
        InsertKeepsPaths(f, s, f.nodes[x].parent.value);
      }
    }
  }
}
