/** The story repository as mutable state: the current forest, which only save changes. */
module Repository {
  import opened StoryForest

  class StoryRepository {
    var forest: Forest

    /** An empty store. */
    constructor ()
      ensures Valid(forest) && forest.nodes == map[] && forest.order == []
    {
      forest := Forest(map[], []);
    }

    /**
      save: stores a new node. The store hands out an unused id (here the node arrives carrying
      it), and the parent is an entity already loaded from the store or null. The forest stays
      valid, hence acyclic, and becomes the old forest with the node appended.
     */
    method Save(s: Story) returns (saved: Story)
      requires Valid(forest)
      requires s.id !in forest.nodes
      requires s.parent.None? || s.parent.value in forest.nodes
      modifies this
      ensures Valid(forest) && Acyclic(forest)
      ensures saved == s && forest == Insert(old(forest), s)
    {
      InsertPreservesValid(forest, s);
      forest := Insert(forest, s);
      ValidIsAcyclic(forest);
      saved := s;
    }
  }
}
