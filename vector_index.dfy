/** The external vector index of one collection, reduced to what the service
    observes of it: the sequence of stored nodes, in the store's order. Each
    node belongs to the source document named by its `refDocId` and carries
    that document's metadata. Embeddings, similarity search and the storage
    back end are outside this model. */
module VectorIndex {

  type DocId = string
  type Metadata = map<string, string>

  /** The metadata key the directory reader fills with the uploaded file's name. */
  const FileNameKey: string := "file_name"

  datatype Node = Node(refDocId: DocId, text: string, metadata: Metadata)

  /** A document about to be inserted: the id it was given when it was built,
      its metadata, and the text chunks the index splits it into. */
  datatype Document = Document(id: DocId, metadata: Metadata, chunks: seq<string>)

  /** The dictionary built by `get_existing_docs`: each node's `refDocId` maps
      to its metadata, a later node overwriting an earlier one with the same id. */
  function ExistingDocs(nodes: seq<Node>): map<DocId, Metadata>
  {
    if nodes == [] then map[]
    else
      var last := nodes[|nodes| - 1];
      ExistingDocs(nodes[..|nodes| - 1])[last.refDocId := last.metadata]
  }

  /** The keys of `ExistingDocs(nodes)` in the dictionary's iteration order:
      the order in which each id first occurs among the nodes. */
  function RefIds(nodes: seq<Node>): (ids: seq<DocId>)
    ensures forall i, j :: 0 <= i < j < |ids| ==> ids[i] != ids[j]
    ensures forall k :: k in ids <==> k in ExistingDocs(nodes)
  {
    if nodes == [] then []
    else
      var prefix := RefIds(nodes[..|nodes| - 1]);
      var id := nodes[|nodes| - 1].refDocId;
      if id in prefix then prefix else prefix + [id]
  }

  /** The store after `delete_ref_doc` of every id in `ids`: the nodes of
      those documents are gone, the others keep their order. */
  function Without(nodes: seq<Node>, ids: set<DocId>): seq<Node>
  {
    if nodes == [] then []
    else
      var prefix := Without(nodes[..|nodes| - 1], ids);
      var last := nodes[|nodes| - 1];
      if last.refDocId in ids then prefix else prefix + [last]
  }

  /** The nodes `insert` adds for one document: one per chunk, each carrying
      the document's id and metadata. */
  function ChunkNodes(doc: Document): seq<Node>
  {
    seq(|doc.chunks|, i requires 0 <= i < |doc.chunks| => Node(doc.id, doc.chunks[i], doc.metadata))
  }

  /** The store after inserting `docs` one after the other. */
  function InsertAll(nodes: seq<Node>, docs: seq<Document>): seq<Node>
  {
    if docs == [] then nodes
    else InsertAll(nodes, docs[..|docs| - 1]) + ChunkNodes(docs[|docs| - 1])
  }

  /** The existing documents are exactly the ids some stored node carries. */
  lemma {:induction false} ExistingDocsKeys(nodes: seq<Node>)
    ensures forall k :: k in ExistingDocs(nodes) <==> exists i :: 0 <= i < |nodes| && nodes[i].refDocId == k
  {
    if nodes != [] {
      var prefix := nodes[..|nodes| - 1];
      ExistingDocsKeys(prefix);
      forall k | k in ExistingDocs(nodes)
        ensures exists i :: 0 <= i < |nodes| && nodes[i].refDocId == k
      {
        if k != nodes[|nodes| - 1].refDocId {
          assert k in ExistingDocs(prefix);
          var i :| 0 <= i < |prefix| && prefix[i].refDocId == k;
          assert nodes[i] == prefix[i];
        }
      }
      forall k | exists i :: 0 <= i < |nodes| && nodes[i].refDocId == k
        ensures k in ExistingDocs(nodes)
      {
        var i :| 0 <= i < |nodes| && nodes[i].refDocId == k;
        if i < |prefix| {
          assert prefix[i] == nodes[i];
        }
      }
    }
  }

  /** Later nodes win: the metadata `get_existing_docs` reports for an id is
      that of the last node carrying it. */
  lemma {:induction false} LastNodeWins(nodes: seq<Node>, i: nat)
    requires i < |nodes|
    requires forall j :: i < j < |nodes| ==> nodes[j].refDocId != nodes[i].refDocId
    ensures nodes[i].refDocId in ExistingDocs(nodes)
    ensures ExistingDocs(nodes)[nodes[i].refDocId] == nodes[i].metadata
  {
    if i < |nodes| - 1 {
      LastNodeWins(nodes[..|nodes| - 1], i);
    }
  }

  /** The listing has one entry per document: the number of distinct ids
      equals the number of existing documents. */
  lemma {:induction false} RefIdsCount(nodes: seq<Node>)
    ensures |RefIds(nodes)| == |ExistingDocs(nodes)|
  {
    if nodes != [] {
      var prefix := nodes[..|nodes| - 1];
      var id := nodes[|nodes| - 1].refDocId;
      RefIdsCount(prefix);
      var docs := ExistingDocs(prefix);
      if id in RefIds(prefix) {
        assert ExistingDocs(nodes).Keys == docs.Keys;
      } else {
        assert id !in docs;
        assert ExistingDocs(nodes).Keys == docs.Keys + {id};
      }
    }
  }

  /** Deleting documents removes exactly their entries from
      `get_existing_docs` and leaves every other entry as it was. */
  lemma {:induction false} WithoutExisting(nodes: seq<Node>, ids: set<DocId>)
    ensures ExistingDocs(Without(nodes, ids)) == ExistingDocs(nodes) - ids
  {
    if nodes != [] {
      var prefix := nodes[..|nodes| - 1];
      var last := nodes[|nodes| - 1];
      WithoutExisting(prefix, ids);
      var before := ExistingDocs(prefix);
      if last.refDocId !in ids {
        var r := Without(prefix, ids) + [last];
        assert r[..|r| - 1] == Without(prefix, ids);
        UpdateThenRemove(before, last.refDocId, last.metadata, ids);
      } else {
        UpdateRemoved(before, last.refDocId, last.metadata, ids);
      }
    }
  }

  lemma UpdateThenRemove(m: map<DocId, Metadata>, k: DocId, v: Metadata, ids: set<DocId>)
    requires k !in ids
    ensures m[k := v] - ids == (m - ids)[k := v]
  {
  }

  lemma UpdateRemoved(m: map<DocId, Metadata>, k: DocId, v: Metadata, ids: set<DocId>)
    requires k in ids
    ensures m[k := v] - ids == m - ids
  {
  }

  /** Deleting one set of documents and then another is deleting both. */
  lemma {:induction false} WithoutTwice(nodes: seq<Node>, a: set<DocId>, b: set<DocId>)
    ensures Without(Without(nodes, a), b) == Without(nodes, a + b)
  {
    if nodes != [] {
      var prefix := nodes[..|nodes| - 1];
      var last := nodes[|nodes| - 1];
      WithoutTwice(prefix, a, b);
      if last.refDocId !in a {
        var r := Without(prefix, a) + [last];
        assert r[..|r| - 1] == Without(prefix, a);
      }
    }
  }

  /** Deleting nothing leaves the store as it was. */
  lemma {:induction false} WithoutNothing(nodes: seq<Node>)
    ensures Without(nodes, {}) == nodes
  {
    if nodes != [] {
      WithoutNothing(nodes[..|nodes| - 1]);
    }
  }

  /** Appending nodes that all belong to one document makes that document
      exist with their metadata; every other document is unchanged. */
  lemma {:induction false} AppendOneDocument(nodes: seq<Node>, extra: seq<Node>, id: DocId, metadata: Metadata)
    requires forall j :: 0 <= j < |extra| ==> extra[j].refDocId == id && extra[j].metadata == metadata
    ensures ExistingDocs(nodes + extra)
         == if extra == [] then ExistingDocs(nodes) else ExistingDocs(nodes)[id := metadata]
  {
    if extra == [] {
      assert nodes + extra == nodes;
    } else {
      var prefix := extra[..|extra| - 1];
      AppendOneDocument(nodes, prefix, id, metadata);
      var r := nodes + extra;
      assert r[..|r| - 1] == nodes + prefix;
      assert r[|r| - 1] == extra[|extra| - 1];
    }
  }

  /** Inserting a document with at least one chunk makes it an existing
      document with its own metadata; every other document is unchanged. */
  lemma InsertOneExisting(nodes: seq<Node>, doc: Document)
    ensures ExistingDocs(nodes + ChunkNodes(doc))
         == if doc.chunks == [] then ExistingDocs(nodes)
            else ExistingDocs(nodes)[doc.id := doc.metadata]
  {
    AppendOneDocument(nodes, ChunkNodes(doc), doc.id, doc.metadata);
  }

  /** Inserting never removes a document: every document existing before an
      insert either still exists with its metadata or was overwritten by an
      inserted document with the same id; and every inserted document that
      has chunks exists afterwards. */
  lemma {:induction false} InsertAllExisting(nodes: seq<Node>, docs: seq<Document>)
    ensures forall k :: k in ExistingDocs(nodes) ==> k in ExistingDocs(InsertAll(nodes, docs))
    ensures forall k :: k in ExistingDocs(nodes)
                        && (forall i :: 0 <= i < |docs| && docs[i].chunks != [] ==> docs[i].id != k)
                        ==> ExistingDocs(InsertAll(nodes, docs))[k] == ExistingDocs(nodes)[k]
    ensures forall i :: 0 <= i < |docs| && docs[i].chunks != [] ==> docs[i].id in ExistingDocs(InsertAll(nodes, docs))
  {
    if docs != [] {
      var prefix := docs[..|docs| - 1];
      InsertAllExisting(nodes, prefix);
      InsertOneExisting(InsertAll(nodes, prefix), docs[|docs| - 1]);
      forall i | 0 <= i < |docs| - 1
        ensures docs[i] == prefix[i]
      {
      }
    }
  }
}
