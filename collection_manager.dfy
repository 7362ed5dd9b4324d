/** The collection registry (collection_manager.py): a dictionary from
    collection name to collection object, created, deleted, renamed and
    looked up by name. */
module Registry {
  import opened Results
  import opened VectorIndex
  import opened Collections

  /** A collection the vector database already holds when the service starts:
      its name and its stored nodes. */
  datatype StoredCollection = StoredCollection(name: string, nodes: seq<Node>)

  function AlreadyExists(name: string): string
  {
    "Collection '" + name + "' already exists"
  }

  function NotFound(name: string): string
  {
    "Collection '" + name + "' not found"
  }

  function Names(stored: seq<StoredCollection>): set<string>
  {
    set s | s in stored :: s.name
  }

  /** The nodes stored under `name`, from the last report of that name. */
  function StoredNodes(existing: seq<StoredCollection>, name: string): seq<Node>
    requires name in Names(existing)
  {
    var last := existing[|existing| - 1];
    if last.name == name then last.nodes
    else
      assert existing == existing[..|existing| - 1] + [last];
      StoredNodes(existing[..|existing| - 1], name)
  }

  /** One more reported collection: its name joins the names, and it is now
      the last report of that name. */
  lemma StoredStep(existing: seq<StoredCollection>, i: nat)
    requires i < |existing|
    ensures Names(existing[..i + 1]) == Names(existing[..i]) + {existing[i].name}
    ensures forall k :: k in Names(existing[..i + 1]) ==>
              StoredNodes(existing[..i + 1], k)
              == if k == existing[i].name then existing[i].nodes else StoredNodes(existing[..i], k)
  {
    var longer := existing[..i + 1];
    assert longer == existing[..i] + [existing[i]];
    assert longer[..i] == existing[..i];
    assert Names(longer) == Names(existing[..i]) + {existing[i].name};
    forall k | k in Names(longer) && k != existing[i].name
      ensures StoredNodes(longer, k) == StoredNodes(existing[..i], k)
    {
      assert k in Names(existing[..i]);
      assert longer[|longer| - 1] == existing[i];
      assert longer[..|longer| - 1] == existing[..i];
    }
    assert StoredNodes(longer, existing[i].name) == existing[i].nodes;
  }

  class CollectionManager {
    var collections: map<string, Collection>

    /** Every registered collection carries its own key as its name (so no
        object is registered under two keys). */
    ghost predicate Valid()
      reads this, collections.Values
    {
      forall k :: k in collections ==> collections[k].name == k
    }

    /** `__init__`: an empty registry filled from the collections the vector
        database reports. */
    constructor(existing: seq<StoredCollection>)
      ensures Valid()
      ensures collections.Keys == Names(existing)
      ensures forall k :: k in collections ==> fresh(collections[k])
      ensures forall k :: k in collections ==> collections[k].nodes == StoredNodes(existing, k)
    {
      collections := map[];
      new;
      LoadExistingCollections(existing);
    }

    /** `load_existing_collections`: registers a new collection object for
        each reported name; a name reported twice keeps the later object. */
    method LoadExistingCollections(existing: seq<StoredCollection>)
      requires Valid()
      modifies this
      ensures Valid()
      ensures collections.Keys == old(collections).Keys + Names(existing)
      ensures forall k :: k in old(collections) && k !in Names(existing) ==> collections[k] == old(collections)[k]
      ensures forall k :: k in Names(existing) ==> fresh(collections[k])
      ensures forall k :: k in Names(existing) ==> collections[k].nodes == StoredNodes(existing, k)
    {
      var i := 0;
      while i < |existing|
        invariant 0 <= i <= |existing|
        invariant Valid()
        invariant collections.Keys == old(collections).Keys + Names(existing[..i])
        invariant forall k :: k in old(collections) && k !in Names(existing[..i]) ==> collections[k] == old(collections)[k]
        invariant forall k :: k in Names(existing[..i]) ==> fresh(collections[k])
        invariant forall k :: k in Names(existing[..i]) ==> collections[k].nodes == StoredNodes(existing[..i], k)
      {
        StoredStep(existing, i);
        var c := new Collection(existing[i].name, existing[i].nodes);
        collections := collections[existing[i].name := c];
        i := i + 1;
      }
      assert existing[..|existing|] == existing;
    }

    /** `create_collection`: 400 if the name is taken, otherwise registers a
        fresh collection under exactly that name. */
    method CreateCollection(name: string, stored: seq<Node>) returns (r: Result<string>)
      requires Valid()
      modifies this
      ensures Valid()
      ensures name in old(collections) ==>
                r == Err(HttpError(400, AlreadyExists(name))) && collections == old(collections)
      ensures name !in old(collections) ==>
                && r == Ok("Collection '" + name + "' created successfully")
                && name in collections
                && collections == old(collections)[name := collections[name]]
                && fresh(collections[name])
                && collections[name].nodes == stored
                && |collections| == |old(collections)| + 1
    {
      if name in collections {
        return Err(HttpError(400, AlreadyExists(name)));
      }
      var c := new Collection(name, stored);
      collections := collections[name := c];
      return Ok("Collection '" + name + "' created successfully");
    }

    /** `delete_collection`: 404 if the name is not registered, otherwise
        removes exactly that key. */
    method DeleteCollection(name: string) returns (r: Result<string>)
      requires Valid()
      modifies this
      ensures Valid()
      ensures name !in old(collections) ==>
                r == Err(HttpError(404, NotFound(name))) && collections == old(collections)
      ensures name in old(collections) ==>
                && r == Ok("Collection '" + name + "' deleted successfully")
                && collections == old(collections) - {name}
                && |collections| == |old(collections)| - 1
    {
      if name !in collections {
        return Err(HttpError(404, NotFound(name)));
      }
      collections := collections - {name};
      return Ok("Collection '" + name + "' deleted successfully");
    }

    /** `rename_collection`: 404 if `oldName` is not registered, then 400 if
        `newName` is; otherwise the object registered under `oldName` moves to
        `newName` and takes that name. Renaming to the same name passes the
        first check and fails the second. Only the moved object's `name` may
        change; its documents never do. */
    method RenameCollection(oldName: string, newName: string) returns (r: Result<string>)
      requires Valid()
      modifies this, (if oldName in collections then {collections[oldName]} else {})`name
      ensures Valid()
      ensures oldName !in old(collections) ==>
                r == Err(HttpError(404, NotFound(oldName))) && collections == old(collections)
      ensures oldName in old(collections) && newName in old(collections) ==>
                r == Err(HttpError(400, AlreadyExists(newName))) && collections == old(collections)
                && collections[oldName].name == oldName
                && collections[oldName].nodes == old(collections[oldName].nodes)
      ensures oldName == newName ==>
                && collections == old(collections)
                && r.Err? && r.error.HttpError?
                && r.error.status == if oldName in old(collections) then 400 else 404
      ensures oldName in old(collections) && newName !in old(collections) ==>
                && r == Ok("Collection renamed from '" + oldName + "' to '" + newName + "' successfully")
                && collections == (old(collections) - {oldName})[newName := old(collections)[oldName]]
                && collections[newName].name == newName
                && collections[newName].nodes == old(collections[oldName].nodes)
                && |collections| == |old(collections)|
    {
      if oldName !in collections {
        return Err(HttpError(404, NotFound(oldName)));
      }
      if newName in collections {
        return Err(HttpError(400, AlreadyExists(newName)));
      }
      var c := collections[oldName];
      collections := (collections - {oldName})[newName := c];
      c.name := newName;
      return Ok("Collection renamed from '" + oldName + "' to '" + newName + "' successfully");
    }

    /** `get_collection`: the object registered under `name`, or 404. */
    method GetCollection(name: string) returns (r: Result<Collection>)
      ensures r.Ok? <==> name in collections
      ensures r.Ok? ==> r.value == collections[name]
      ensures r.Err? ==> r.error == HttpError(404, NotFound(name))
    {
      if name !in collections {
        return Err(HttpError(404, NotFound(name)));
      }
      return Ok(collections[name]);
    }
  }
}
