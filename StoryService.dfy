/**
  The story service: the read views it assembles from the repository's queries (root listing,
  story details, scenario graph, path from the root to a node) and the write path that creates a
  story. The token service, the user repository and the image pipeline are collaborators passed
  in as functions that may fail.
 */
module StoryService {
  import opened Wrappers
  import opened StoryForest
  import opened Repository
  import ImageService

  type UserId = int

  /**
    StoryNotFoundException, UserNotFoundException, a request whose token the token service
    rejects, and the RuntimeException that wraps a failed image step.
   */
  datatype StoryError =
    | StoryNotFound
    | UserNotFound
    | InvalidToken
    | ImageProcessingFailed(cause: ImageService.ImageError)

  /** The fields of a story save request. */
  datatype StorySaveRequest = StorySaveRequest(content: string, imageUrl: string, parentId: Option<StoryId>)

  datatype RootView = RootView(id: StoryId, authorNickname: string, content: string, imageUrl: string)

  datatype StoryDetails = StoryDetails(
    id: StoryId,
    authorNickname: string,
    content: string,
    imageUrl: string,
    parentId: Option<StoryId>,
    childIds: seq<StoryId>,
    childContents: seq<string>)

  datatype ScenarioView = ScenarioView(id: StoryId, parentId: Option<StoryId>, imageUrl: string)

  datatype StoryListView = StoryListView(id: StoryId, authorNickname: string, content: string, imageUrl: string)

  function RootViewOf(s: Story): RootView {
    RootView(s.id, s.authorNickname, s.content, s.imageUrl)
  }

  function StoryListViewOf(s: Story): StoryListView {
    StoryListView(s.id, s.authorNickname, s.content, s.imageUrl)
  }

  /** The root stories listed are exactly the stored roots. */
  lemma RootListing(f: Forest)
    requires Valid(f)
    ensures var roots := FindRootStories(f);
      forall k :: k in f.nodes && f.nodes[k].parent.None? ==> exists i :: 0 <= i < |roots| && roots[i].id == k
  {
    var roots := FindRootStories(f);
    forall k | k in f.nodes && f.nodes[k].parent.None?
      ensures exists i :: 0 <= i < |roots| && roots[i].id == k
    {
      assert Stored(f, f.nodes[k]);
      var i :| 0 <= i < |roots| && roots[i] == f.nodes[k];
    }
  }

  /**
    getRootStories: one view per root the repository returns, in its order; StoryNotFound when
    it returns none, which happens exactly when the store is empty.
   */
  function GetRootStories(repo: StoryRepository): (r: Result<seq<RootView>, StoryError>)
    reads repo
    requires Valid(repo.forest)
    ensures var roots := FindRootStories(repo.forest);
      && (r.Failure? <==> roots == [])
      && (r.Failure? ==> r.error == StoryNotFound)
      && (r.Success? ==> |r.value| == |roots| && forall i :: 0 <= i < |roots| ==> r.value[i] == RootViewOf(roots[i]))
    ensures r.Failure? <==> repo.forest.nodes == map[]
    ensures r.Success? ==> forall v :: v in r.value ==>
      v.id in repo.forest.nodes && repo.forest.nodes[v.id].parent.None?
    ensures r.Success? ==> forall k :: k in repo.forest.nodes && repo.forest.nodes[k].parent.None? ==>
      exists i :: 0 <= i < |r.value| && r.value[i].id == k
    ensures r.Success? ==> forall i, j :: 0 <= i < j < |r.value| ==> r.value[i].id != r.value[j].id
  {
    var roots := FindRootStories(repo.forest);
    RootsEmptyIffStoreEmpty(repo.forest);
    RootListing(repo.forest);
    var list := seq(|roots|, i requires 0 <= i < |roots| => RootViewOf(roots[i]));
    if list == [] then Failure(StoryNotFound) else Success(list)
  }

  /** The ids of a list of stories are the ids of its members. */
  lemma IdListing(stories: seq<Story>)
    ensures var ids := seq(|stories|, i requires 0 <= i < |stories| => stories[i].id);
      forall k :: k in ids <==> exists s :: s in stories && s.id == k
  {
    var ids := seq(|stories|, i requires 0 <= i < |stories| => stories[i].id);
    forall k | exists s :: s in stories && s.id == k
      ensures k in ids
    {
      var s :| s in stories && s.id == k;
      var i :| 0 <= i < |stories| && stories[i] == s;
      assert ids[i] == k;
    }
  }

  /** getChildIds: the ids of the story's children, exactly the stored nodes whose parent it is. */
  function GetChildIds(repo: StoryRepository, story: Story): (ids: seq<StoryId>)
    reads repo
    requires Valid(repo.forest)
    ensures |ids| == |FindChildByParentId(repo.forest, story.id)|
    ensures forall i :: 0 <= i < |ids| ==> ids[i] == FindChildByParentId(repo.forest, story.id)[i].id
    ensures forall k :: k in ids <==> k in repo.forest.nodes && repo.forest.nodes[k].parent == Some(story.id)
    ensures NoDuplicates(ids)
  {
    var children := FindChildByParentId(repo.forest, story.id);
    IdListing(children);
    assert forall k :: k in repo.forest.nodes && repo.forest.nodes[k].parent == Some(story.id) ==>
      repo.forest.nodes[k] in children;
    seq(|children|, i requires 0 <= i < |children| => children[i].id)
  }

  /** getChildContents: one content per child of the story, position i being the content of the i-th child listed. */
  function GetChildContents(repo: StoryRepository, story: Story): (contents: seq<string>)
    reads repo
    requires Valid(repo.forest)
    ensures |contents| == |FindChildByParentId(repo.forest, story.id)|
    ensures forall i :: 0 <= i < |contents| ==> contents[i] == FindChildByParentId(repo.forest, story.id)[i].content
  {
    var children := FindChildByParentId(repo.forest, story.id);
    seq(|children|, i requires 0 <= i < |children| => children[i].content)
  }

  /** The child-id list and the child-content list are co-indexed: position i of both describes the same child. */
  lemma ChildListsCoIndexed(repo: StoryRepository, story: Story)
    requires Valid(repo.forest)
    ensures |GetChildIds(repo, story)| == |GetChildContents(repo, story)|
    ensures forall i :: 0 <= i < |GetChildIds(repo, story)| ==>
      var k := GetChildIds(repo, story)[i];
      k in repo.forest.nodes && repo.forest.nodes[k].parent == Some(story.id)
        && repo.forest.nodes[k].content == GetChildContents(repo, story)[i]
  {
    var children := FindChildByParentId(repo.forest, story.id);
    forall i | 0 <= i < |children|
      ensures Stored(repo.forest, children[i]) && children[i].parent == Some(story.id)
    {
      assert children[i] in children;
    }
  }

  /**
    getStoryDetails: StoryNotFound exactly when no story has the id; otherwise the story's fields,
    its parent's id (None exactly for a root), and the co-indexed child ids and contents.
   */
  function GetStoryDetails(repo: StoryRepository, storyId: StoryId): (r: Result<StoryDetails, StoryError>)
    reads repo
    requires Valid(repo.forest)
    ensures r.Failure? <==> storyId !in repo.forest.nodes
    ensures r.Failure? ==> r.error == StoryNotFound
    ensures r.Success? ==>
      var s := repo.forest.nodes[storyId];
      && r.value.id == storyId
      && r.value.authorNickname == s.authorNickname && r.value.content == s.content && r.value.imageUrl == s.imageUrl
      && r.value.parentId == s.parent
      && r.value.childIds == GetChildIds(repo, s) && r.value.childContents == GetChildContents(repo, s)
    ensures r.Success? && r.value.parentId.Some? ==> r.value.parentId.value in repo.forest.nodes
    ensures r.Success? ==> |r.value.childIds| == |r.value.childContents|
    ensures r.Success? ==> forall i :: 0 <= i < |r.value.childIds| ==>
      var k := r.value.childIds[i];
      k in repo.forest.nodes && repo.forest.nodes[k].parent == Some(storyId)
        && repo.forest.nodes[k].content == r.value.childContents[i]
  {
    match FindById(repo.forest, storyId)
    case None => Failure(StoryNotFound)
    case Some(story) =>
      ValidIsClosed(repo.forest);
      ChildListsCoIndexed(repo, story);
      assert story.id == storyId;
      var ids, contents := GetChildIds(repo, story), GetChildContents(repo, story);
      Success(StoryDetails(story.id, story.authorNickname, story.content, story.imageUrl,
                           story.parent, ids, contents))
  }

  /** getParentId: the id of the story's parent when it has one, None otherwise. */
  function GetParentId(repo: StoryRepository, story: Story): (parentId: Option<StoryId>)
    reads repo
    requires Valid(repo.forest)
    ensures parentId.Some? ==> parentId.value in repo.forest.nodes
    ensures story.id in repo.forest.nodes ==> parentId == repo.forest.nodes[story.id].parent
    ensures story.id !in repo.forest.nodes ==> parentId.None?
  {
    match FindParentByChildId(repo.forest, story.id)
    case Some(parent) => Some(parent.id)
    case None => None
  }

  /** getParentById: the stored story with that id; None both for no id and for an id that does not resolve. */
  function GetParentById(repo: StoryRepository, parentId: Option<StoryId>): (parent: Option<Story>)
    reads repo
    requires Valid(repo.forest)
    ensures parent.Some? <==> parentId.Some? && parentId.value in repo.forest.nodes
    ensures parent.Some? ==> Stored(repo.forest, parent.value) && parent.value.id == parentId.value
  {
    match parentId
    case None => None
    case Some(id) => FindById(repo.forest, id)
  }

  /** getUserNickname: the nickname of the user the request's token names. */
  function GetUserNickname<Req>(http: Req, userIdFromToken: Req -> Option<UserId>,
                                findNicknameById: UserId -> Option<string>): (r: Result<string, StoryError>)
    ensures userIdFromToken(http).None? ==> r == Failure(InvalidToken)
    ensures userIdFromToken(http).Some? ==>
      var nickname := findNicknameById(userIdFromToken(http).value);
      && (nickname.None? ==> r == Failure(UserNotFound))
      && (nickname.Some? ==> r == Success(nickname.value))
  {
    match userIdFromToken(http)
    case None => Failure(InvalidToken)
    case Some(userId) =>
      match findNicknameById(userId)
      case None => Failure(UserNotFound)
      case Some(nickname) => Success(nickname)
  }

  /**
    The request's toEntity: the new story under the id the store assigns, with the given author
    and image URL, the request's content, and as parent the resolved parent story, if any.
   */
  function ToEntity(request: StorySaveRequest, id: StoryId, nickname: string, imageUrl: string,
                    parentStory: Option<Story>): (s: Story)
    ensures s.id == id && s.authorNickname == nickname && s.imageUrl == imageUrl
    ensures s.content == request.content
    ensures s.parent.Some? <==> parentStory.Some?
    ensures parentStory.Some? ==> s.parent.value == parentStory.value.id
  {
    Story(id, nickname, request.content, imageUrl,
          match parentStory case Some(p) => Some(p.id) case None => None)
  }

  /**
    generateStory: resolve the nickname, run the image step, resolve the parent, save. A failed
    identity or image step raises and save is never reached, so the store is unchanged. Otherwise
    the store gains exactly the new story, under the fresh id, whose parent is the requested one
    when it resolves and none otherwise (a dangling parent id silently makes a root). The forest
    stays valid and acyclic.
   */
  method GenerateStory<Req>(repo: StoryRepository, request: StorySaveRequest, http: Req,
                            userIdFromToken: Req -> Option<UserId>,
                            findNicknameById: UserId -> Option<string>,
                            uploadWithLambda: string -> Result<string, ImageService.ImageError>,
                            freshId: StoryId)
    returns (r: Result<Story, StoryError>)
    requires Valid(repo.forest)
    requires freshId !in repo.forest.nodes
    modifies repo
    ensures Valid(repo.forest) && Acyclic(repo.forest)
    ensures r.Failure? ==> repo.forest == old(repo.forest)
    ensures var nickname := GetUserNickname(http, userIdFromToken, findNicknameById);
      var image := uploadWithLambda(request.imageUrl);
      && (nickname.Failure? ==> r == Failure(nickname.error))
      && (nickname.Success? && image.Failure? ==> r == Failure(ImageProcessingFailed(image.error)))
      && (r.Success? <==> nickname.Success? && image.Success?)
      && (r.Success? ==>
            && r.value.id == freshId
            && r.value.authorNickname == nickname.value
            && r.value.content == request.content
            && r.value.imageUrl == image.value
            && repo.forest == Insert(old(repo.forest), r.value))
    ensures r.Success? ==>
      (r.value.parent.Some? <==> request.parentId.Some? && request.parentId.value in old(repo.forest).nodes)
    ensures r.Success? && r.value.parent.Some? ==> r.value.parent == request.parentId
  {
    ValidIsAcyclic(repo.forest);
    var nickname := GetUserNickname(http, userIdFromToken, findNicknameById);
    if nickname.Failure? {
      return Failure(nickname.error);
    }
    var image := uploadWithLambda(request.imageUrl);
    if image.Failure? {
      return Failure(ImageProcessingFailed(image.error));
    }
    var parentStory := GetParentById(repo, request.parentId);
    var story := ToEntity(request, freshId, nickname.value, image.value, parentStory);
    var saved := repo.Save(story);
    r := Success(saved);
  }

  /**
    Views that list the scenario's nodes one for one, each carrying its node's parent, contain
    the root, and the parent of every other view is itself among the views.
   */
  lemma {:induction false} ScenarioViewsClosed(f: Forest, rootId: StoryId, views: seq<ScenarioView>)
    requires Valid(f)
    requires var scenario := FindAllChildrenByRootId(f, rootId);
      |views| == |scenario| &&
      forall i :: 0 <= i < |scenario| ==> views[i].id == scenario[i].id && views[i].parentId == scenario[i].parent
    ensures rootId in f.nodes ==> exists i :: 0 <= i < |views| && views[i].id == rootId
    ensures forall i :: 0 <= i < |views| && views[i].id != rootId ==>
      views[i].parentId.Some? && exists j :: 0 <= j < |views| && views[j].id == views[i].parentId.value
  {
    var scenario := FindAllChildrenByRootId(f, rootId);
    ScenarioShape(f, rootId);
    if rootId in f.nodes {
      var k :| 0 <= k < |scenario| && scenario[k] == f.nodes[rootId];
      assert views[k].id == rootId;
    }
    forall i | 0 <= i < |views| && views[i].id != rootId
      ensures views[i].parentId.Some? && exists j :: 0 <= j < |views| && views[j].id == views[i].parentId.value
    {
      assert scenario[i] in scenario;
      var p := scenario[i].parent.value;
      var j :| 0 <= j < |scenario| && scenario[j] == f.nodes[p];
      assert views[j].id == p;
    }
  }

  /**
    getStoriesByRootId: one view per node of the scenario, in the repository's order, each with
    that node's id and image URL and the parent id getParentId resolves, which equals the node's
    own parent field. StoryNotFound exactly when the root is not stored. The views contain the
    root, and the parent of every other view is itself among the views.
   */
  method GetStoriesByRootId(repo: StoryRepository, rootId: StoryId) returns (r: Result<seq<ScenarioView>, StoryError>)
    requires Valid(repo.forest)
    ensures var scenario := FindAllChildrenByRootId(repo.forest, rootId);
      && (r.Failure? <==> scenario == [])
      && (r.Failure? ==> r.error == StoryNotFound)
      && (r.Success? ==> |r.value| == |scenario| && forall i :: 0 <= i < |scenario| ==>
            r.value[i] == ScenarioView(scenario[i].id, scenario[i].parent, scenario[i].imageUrl))
    ensures r.Failure? <==> rootId !in repo.forest.nodes
    ensures r.Success? ==> exists i :: 0 <= i < |r.value| && r.value[i].id == rootId
    ensures r.Success? ==> forall i :: 0 <= i < |r.value| && r.value[i].id != rootId ==>
      r.value[i].parentId.Some? && exists j :: 0 <= j < |r.value| && r.value[j].id == r.value[i].parentId.value
    ensures r.Success? ==> forall i, j :: 0 <= i < j < |r.value| ==> r.value[i].id != r.value[j].id
  {
    var result := FindAllChildrenByRootId(repo.forest, rootId);
    var stories: seq<ScenarioView> := [];
    for i := 0 to |result|
      invariant |stories| == i
      invariant forall j :: 0 <= j < i ==>
        stories[j] == ScenarioView(result[j].id, result[j].parent, result[j].imageUrl)
    {
      assert result[i] in result;
      var parentId := GetParentId(repo, result[i]);
      var dto := ScenarioView(result[i].id, parentId, result[i].imageUrl);
      stories := stories + [dto];
    }
    ScenarioShape(repo.forest, rootId);
    ScenarioViewsClosed(repo.forest, rootId, stories);
    if stories == [] {
      r := Failure(StoryNotFound);
    } else {
      r := Success(stories);
    }
  }

  function Reversed<T>(s: seq<T>): (r: seq<T>)
    ensures |r| == |s| && forall i :: 0 <= i < |s| ==> r[i] == s[|s| - 1 - i]
  {
    if s == [] then [] else Reversed(s[1..]) + [s[0]]
  }

  /** Collections.reverse: swap the two ends, moving inwards; the result is the reversed list. */
  method ReverseInPlace<T>(s: seq<T>) returns (r: seq<T>)
    ensures r == Reversed(s)
  {
    r := s;
    var n := |s|;
    for i := 0 to n / 2
      invariant |r| == n
      invariant forall k :: 0 <= k < i ==> r[k] == s[n - 1 - k] && r[n - 1 - k] == s[k]
      invariant forall k :: i <= k < n - i ==> r[k] == s[k]
    {
      r := r[i := r[n - 1 - i]][n - 1 - i := r[i]];
    }
    forall k | 0 <= k < n
      ensures r[k] == s[n - 1 - k]
    {
      if k >= n - n / 2 {
        assert r[n - 1 - (n - 1 - k)] == s[n - 1 - k];
      }
    }
  }

  /**
    The reversed ancestor chain is the path read top-down: it starts at a root, ends at the
    requested node, and each element is the parent of the next.
   */
  lemma PathIsRootFirst(f: Forest, leafId: StoryId)
    requires Valid(f)
    ensures Reversed(FindRecursivelyByLeafId(f, leafId)) == [] <==> leafId !in f.nodes
    ensures var path := Reversed(FindRecursivelyByLeafId(f, leafId));
      path != [] ==> path[0].parent.None? && path[|path| - 1] == f.nodes[leafId]
    ensures var path := Reversed(FindRecursivelyByLeafId(f, leafId));
      forall i :: 0 <= i < |path| ==> Stored(f, path[i])
    ensures var path := Reversed(FindRecursivelyByLeafId(f, leafId));
      forall i, j :: 0 <= i && j == i + 1 && j < |path| ==> path[j].parent == Some(path[i].id)
  {
    var chain := FindRecursivelyByLeafId(f, leafId);
    ReversedLinks(chain);
    ReversedStored(f, chain);
  }

  /** Reversal keeps the elements, so a chain of stored nodes reverses to one. */
  lemma ReversedStored(f: Forest, chain: seq<Story>)
    requires forall i :: 0 <= i < |chain| ==> Stored(f, chain[i])
    ensures forall i :: 0 <= i < |chain| ==> Stored(f, Reversed(chain)[i])
  {
    var path := Reversed(chain);
    forall i | 0 <= i < |chain|
      ensures Stored(f, path[i])
    {
      assert path[i] == chain[|chain| - 1 - i];
    }
  }

  /** Reversing a chain linked child-to-parent gives one linked parent-to-child. */
  lemma ReversedLinks(chain: seq<Story>)
    requires forall i, j :: 0 <= i && j == i + 1 && j < |chain| ==> chain[i].parent == Some(chain[j].id)
    ensures var path := Reversed(chain);
      forall i, j :: 0 <= i && j == i + 1 && j < |path| ==> path[j].parent == Some(path[i].id)
  {
    var path := Reversed(chain);
    var n := |chain|;
    forall i, j | 0 <= i && j == i + 1 && j < n
      ensures path[j].parent == Some(path[i].id)
    {
      var a, b := n - 1 - j, n - 1 - i;
      assert path[j] == chain[a] && path[i] == chain[b] && b == a + 1;
    }
  }

  /** Views of the top-down path, one per node: the last is the requested node, the first a root, each linked to the one before. */
  lemma {:induction false} PathViewsLinked(f: Forest, leafId: StoryId, views: seq<StoryListView>)
    requires Valid(f)
    requires var path := Reversed(FindRecursivelyByLeafId(f, leafId));
      |views| == |path| && forall i :: 0 <= i < |path| ==> views[i] == StoryListViewOf(path[i])
    requires views != []
    ensures views[|views| - 1].id == leafId
    ensures f.nodes[views[0].id].parent.None?
    ensures forall i, j :: 0 <= i && j == i + 1 && j < |views| ==> f.nodes[views[j].id].parent == Some(views[i].id)
  {
    var path := Reversed(FindRecursivelyByLeafId(f, leafId));
    PathIsRootFirst(f, leafId);
    assert Stored(f, path[0]) && Stored(f, path[|path| - 1]);
    forall i, j | 0 <= i && j == i + 1 && j < |views|
      ensures f.nodes[views[j].id].parent == Some(views[i].id)
    {
      assert Stored(f, path[j]);
    }
  }

  /**
    getStoriesByleafId: the views of the node's ancestor chain, reversed in place so that the
    root comes first and the node last, each view's parent being the view before it.
    StoryNotFound exactly when the node is not stored.
   */
  method GetStoriesByleafId(repo: StoryRepository, leafId: StoryId) returns (r: Result<seq<StoryListView>, StoryError>)
    requires Valid(repo.forest)
    ensures var path := Reversed(FindRecursivelyByLeafId(repo.forest, leafId));
      && (r.Failure? <==> path == [])
      && (r.Failure? ==> r.error == StoryNotFound)
      && (r.Success? ==> |r.value| == |path| && forall i :: 0 <= i < |path| ==> r.value[i] == StoryListViewOf(path[i]))
    ensures r.Failure? <==> leafId !in repo.forest.nodes
    ensures r.Success? ==>
      var f := repo.forest;
      var v := r.value;
      && v[|v| - 1].id == leafId
      && f.nodes[v[0].id].parent.None?
      && forall i, j :: 0 <= i && j == i + 1 && j < |v| ==> f.nodes[v[j].id].parent == Some(v[i].id)
  {
    var result := FindRecursivelyByLeafId(repo.forest, leafId);
    var stories: seq<StoryListView> := [];
    for i := 0 to |result|
      invariant |stories| == i
      invariant forall j :: 0 <= j < i ==> stories[j] == StoryListViewOf(result[j])
    {
      stories := stories + [StoryListViewOf(result[i])];
    }
    stories := ReverseInPlace(stories);
    var path := Reversed(result);
    assert forall k :: 0 <= k < |stories| ==> stories[k] == StoryListViewOf(path[k]);
    if stories == [] {
      PathIsRootFirst(repo.forest, leafId);
      r := Failure(StoryNotFound);
    } else {
      PathViewsLinked(repo.forest, leafId, stories);
      r := Success(stories);
    }
  }
}
