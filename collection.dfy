/** One named collection of documents (collection.py): answering a query from
    retrieved nodes, listing, uploading, updating and deleting documents over
    the abstract vector index of module VectorIndex. */
module Collections {
  import opened Results
  import opened VectorIndex

  // ---------------------------------------------------------------------
  // query

  /** A node returned by the retriever, with its similarity score. */
  datatype ScoredNode = ScoredNode(node: Node, score: real)

  datatype SourceNode = SourceNode(text: string, score: real, metadata: Metadata)

  /** The dictionary `query` returns. */
  datatype QueryResponse = QueryResponse(
    question: string,
    answer: string,
    sourceFiles: seq<Metadata>,
    sourceNodes: seq<SourceNode>)

  /** `source_files`: the metadata of each retrieved node, in retrieval order. */
  function SourceFiles(retrieved: seq<ScoredNode>): (r: seq<Metadata>)
    ensures |r| == |retrieved|
    ensures forall i :: 0 <= i < |r| ==> r[i] == retrieved[i].node.metadata
  {
    if retrieved == [] then []
    else SourceFiles(retrieved[..|retrieved| - 1]) + [retrieved[|retrieved| - 1].node.metadata]
  }

  /** `source_nodes`: text, score and metadata of each retrieved node, in
      retrieval order. */
  function SourceNodes(retrieved: seq<ScoredNode>): (r: seq<SourceNode>)
    ensures |r| == |retrieved|
    ensures forall i :: 0 <= i < |r| ==>
              r[i] == SourceNode(retrieved[i].node.text, retrieved[i].score, retrieved[i].node.metadata)
  {
    if retrieved == [] then []
    else
      var last := retrieved[|retrieved| - 1];
      SourceNodes(retrieved[..|retrieved| - 1]) + [SourceNode(last.node.text, last.score, last.node.metadata)]
  }

  /** `query`: the engine's `answer` and `retrieved` nodes (computed outside
      this model) reshaped into the response. Both lists follow the retrieved
      nodes one for one, and each source file is its source node's metadata. */
  function Query(question: string, answer: string, retrieved: seq<ScoredNode>): (r: QueryResponse)
    ensures r.question == question && r.answer == answer
    ensures |r.sourceFiles| == |retrieved| && |r.sourceNodes| == |retrieved|
    ensures forall i :: 0 <= i < |retrieved| ==>
              && r.sourceNodes[i].text == retrieved[i].node.text
              && r.sourceNodes[i].score == retrieved[i].score
              && r.sourceNodes[i].metadata == retrieved[i].node.metadata
              && r.sourceFiles[i] == r.sourceNodes[i].metadata
  {
    QueryResponse(question, answer, SourceFiles(retrieved), SourceNodes(retrieved))
  }

  // ---------------------------------------------------------------------
  // list_documents

  /** One `{"id": ..., "metadata": ...}` entry of the listing. */
  datatype DocEntry = DocEntry(id: DocId, metadata: Metadata)

  /** `list_documents`, which is also the `items()` view of the existing
      documents, in the dictionary's order. */
  function ListDocuments(nodes: seq<Node>): seq<DocEntry>
  {
    var docs := ExistingDocs(nodes);
    var ids := RefIds(nodes);
    seq(|ids|, i requires 0 <= i < |ids| => DocEntry(ids[i], docs[ids[i]]))
  }

  /** The listing has one entry per existing document, each with that
      document's metadata, and no id twice. */
  lemma ListDocumentsSpec(nodes: seq<Node>)
    ensures var r := ListDocuments(nodes);
            && |r| == |ExistingDocs(nodes)|
            && (forall i :: 0 <= i < |r| ==>
                  r[i].id in ExistingDocs(nodes) && r[i].metadata == ExistingDocs(nodes)[r[i].id])
            && (forall k :: k in ExistingDocs(nodes) ==> exists i :: 0 <= i < |r| && r[i].id == k)
            && (forall i, j :: 0 <= i < j < |r| ==> r[i].id != r[j].id)
  {
    var r := ListDocuments(nodes);
    var ids := RefIds(nodes);
    RefIdsCount(nodes);
    assert forall i :: 0 <= i < |r| ==> r[i].id == ids[i];
    assert forall k :: k in ExistingDocs(nodes) ==> k in ids;
  }

  // ---------------------------------------------------------------------
  // upload_files

  /** `existing_fnames`: the `file_name` of every existing document, or the
      KeyError raised when one of them has none. */
  function FileNames(docs: map<DocId, Metadata>): (r: Result<set<string>>)
    ensures r.Ok? <==> forall k :: k in docs ==> FileNameKey in docs[k]
    ensures r.Err? ==> r.error == KeyError(FileNameKey)
    ensures r.Ok? ==> forall f :: f in r.value <==> exists k :: k in docs && docs[k][FileNameKey] == f
  {
    if forall k :: k in docs ==> FileNameKey in docs[k] then
      Ok(set k | k in docs :: docs[k][FileNameKey])
    else
      Err(KeyError(FileNameKey))
  }

  /** `files_to_update`: the uploaded names already used by a document, in
      upload order. */
  function Conflicting(files: seq<string>, existing: set<string>): seq<string>
  {
    if files == [] then []
    else
      var f := files[|files| - 1];
      Conflicting(files[..|files| - 1], existing) + (if f in existing then [f] else [])
  }

  /** `new_files`: the uploaded names not used by any document, in upload order. */
  function Fresh(files: seq<string>, existing: set<string>): seq<string>
  {
    if files == [] then []
    else
      var f := files[|files| - 1];
      Fresh(files[..|files| - 1], existing) + (if f in existing then [] else [f])
  }

  /** Every uploaded name lands in exactly one of the two lists, as often as
      it was uploaded. */
  lemma {:induction false} PartitionSplits(files: seq<string>, existing: set<string>)
    ensures multiset(Conflicting(files, existing)) + multiset(Fresh(files, existing)) == multiset(files)
    ensures |Conflicting(files, existing)| + |Fresh(files, existing)| == |files|
  {
    if files != [] {
      var prefix := files[..|files| - 1];
      var f := files[|files| - 1];
      PartitionSplits(prefix, existing);
      assert files == prefix + [f];
      var c, n := Conflicting(prefix, existing), Fresh(prefix, existing);
      if f in existing {
        assert Conflicting(files, existing) == c + [f] && Fresh(files, existing) == n;
        assert multiset(c + [f]) == multiset(c) + multiset{f};
      } else {
        assert Conflicting(files, existing) == c && Fresh(files, existing) == n + [f];
        assert multiset(n + [f]) == multiset(n) + multiset{f};
      }
      assert multiset(files) == multiset(prefix) + multiset{f};
    }
  }

  /** An uploaded name goes to `files_to_update` exactly when a document
      already has that name, and to `new_files` exactly when none has. */
  lemma {:induction false} PartitionMembers(files: seq<string>, existing: set<string>)
    ensures forall f :: f in Conflicting(files, existing) <==> f in files && f in existing
    ensures forall f :: f in Fresh(files, existing) <==> f in files && f !in existing
  {
    if files != [] {
      var prefix := files[..|files| - 1];
      var last := files[|files| - 1];
      PartitionMembers(prefix, existing);
      assert files == prefix + [last];
      forall f
        ensures f in files <==> f in prefix || f == last
      {
      }
    }
  }

  /** Both lists keep the upload order: partitioning a concatenation is
      concatenating the partitions. */
  lemma {:induction false} PartitionAppend(a: seq<string>, b: seq<string>, existing: set<string>)
    ensures Conflicting(a + b, existing) == Conflicting(a, existing) + Conflicting(b, existing)
    ensures Fresh(a + b, existing) == Fresh(a, existing) + Fresh(b, existing)
  {
    if b != [] {
      var prefix := b[..|b| - 1];
      PartitionAppend(a, prefix, existing);
      assert (a + b)[..|a + b| - 1] == a + prefix;
    } else {
      assert a + b == a;
    }
  }

  /** With no conflict, every uploaded name is new. */
  lemma {:induction false} NoConflictAllFresh(files: seq<string>, existing: set<string>)
    requires Conflicting(files, existing) == []
    ensures Fresh(files, existing) == files
  {
    if files != [] {
      var prefix := files[..|files| - 1];
      assert Conflicting(prefix, existing) == [];
      NoConflictAllFresh(prefix, existing);
      assert files == prefix + [files[|files| - 1]];
    }
  }

  /** The partition of an upload stated on the existing documents themselves.
      Collecting `existing_fnames` raises KeyError exactly when some document
      has no `file_name`. Otherwise an uploaded name is a conflict exactly
      when some existing document carries it, and new exactly when none does. */
  lemma {:induction false} UploadPartitionByDocuments(docs: map<DocId, Metadata>, files: seq<string>)
    ensures FileNames(docs).Err? <==> exists k :: k in docs && FileNameKey !in docs[k]
    ensures FileNames(docs).Ok? ==>
              forall f :: f in Conflicting(files, FileNames(docs).value) <==>
                          f in files && exists k :: k in docs && docs[k][FileNameKey] == f
    ensures FileNames(docs).Ok? ==>
              forall f :: f in Fresh(files, FileNames(docs).value) <==>
                          f in files && forall k :: k in docs ==> docs[k][FileNameKey] != f
  {
    if FileNames(docs).Ok? {
      PartitionMembers(files, FileNames(docs).value);
    }
  }

  /** `', '.join(names)` */
  function Join(names: seq<string>, sep: string): string
  {
    if names == [] then ""
    else if |names| == 1 then names[0]
    else names[0] + sep + Join(names[1..], sep)
  }

  function ConflictMessage(toUpdate: seq<string>): string
  {
    "The following files already exist: " + Join(toUpdate, ", ") + ". Do you want to update them?"
  }

  /** What `upload_files` returns when it does not raise. */
  datatype UploadOutcome =
    | Conflict(message: string, filesToUpdate: seq<string>)
    | Added(count: nat)

  // ---------------------------------------------------------------------
  // update_files

  /** Every entry before position `i` has a `file_name`, and none of them is `f`:
      the search has passed over them. */
  predicate SkippedBefore(entries: seq<DocEntry>, i: int, f: string)
    requires 0 <= i <= |entries|
  {
    forall j :: 0 <= j < i ==> FileNameKey in entries[j].metadata && entries[j].metadata[FileNameKey] != f
  }

  /** The lookup of `update_files` with the dictionary iterated through
      `items()`: the id of the first document, in the dictionary's order,
      whose `file_name` is `f`; KeyError when a document met before it has
      no `file_name`. The first entry that is unnamed or named `f` decides. */
  function FirstNamed(entries: seq<DocEntry>, f: string): (r: Result<Option<DocId>>)
    ensures r.Ok? && r.value.Some? ==>
              exists i :: 0 <= i < |entries| && SkippedBefore(entries, i, f) && entries[i].id == r.value.value
                          && FileNameKey in entries[i].metadata && entries[i].metadata[FileNameKey] == f
    ensures r.Ok? && r.value.None? ==> SkippedBefore(entries, |entries|, f)
    ensures r.Err? ==>
              r.error == KeyError(FileNameKey)
              && exists i :: 0 <= i < |entries| && SkippedBefore(entries, i, f) && FileNameKey !in entries[i].metadata
  {
    if entries == [] then Ok(None)
    else if FileNameKey !in entries[0].metadata then
      assert SkippedBefore(entries, 0, f);
      Err(KeyError(FileNameKey))
    else if entries[0].metadata[FileNameKey] == f then
      assert SkippedBefore(entries, 0, f);
      Ok(Some(entries[0].id))
    else
      var tail := entries[1..];
      var rest := FirstNamed(tail, f);
      assert forall i :: 0 <= i <= |tail| && SkippedBefore(tail, i, f) ==> SkippedBefore(entries, i + 1, f) by {
        forall i | 0 <= i <= |tail| && SkippedBefore(tail, i, f)
          ensures SkippedBefore(entries, i + 1, f)
        {
          forall j | 0 <= j < i + 1
            ensures FileNameKey in entries[j].metadata && entries[j].metadata[FileNameKey] != f
          {
            if j > 0 {
              assert entries[j] == tail[j - 1];
            }
          }
        }
      }
      assert rest.Ok? && rest.value.Some? ==>
               (exists i :: 0 <= i < |entries| && SkippedBefore(entries, i, f) && entries[i].id == rest.value.value
                            && FileNameKey in entries[i].metadata && entries[i].metadata[FileNameKey] == f) by {
        if rest.Ok? && rest.value.Some? {
          var i :| 0 <= i < |tail| && SkippedBefore(tail, i, f) && tail[i].id == rest.value.value
                   && FileNameKey in tail[i].metadata && tail[i].metadata[FileNameKey] == f;
          assert entries[i + 1] == tail[i];
        }
      }
      assert rest.Err? ==>
               (exists i :: 0 <= i < |entries| && SkippedBefore(entries, i, f) && FileNameKey !in entries[i].metadata) by {
        if rest.Err? {
          var i :| 0 <= i < |tail| && SkippedBefore(tail, i, f) && FileNameKey !in tail[i].metadata;
          assert entries[i + 1] == tail[i];
        }
      }
      rest
  }

  function DeleteOldVersion(nodes: seq<Node>, f: string): Result<seq<Node>>
  {
    match FirstNamed(ListDocuments(nodes), f)
    case Err(e) => Err(e)
    case Ok(None) => Ok(nodes)
    case Ok(Some(id)) => Ok(if id != "" then Without(nodes, {id}) else nodes)
  }

  /** The store after the corrected lookup loop over `files`, and the
      exception that stopped it, if any. Deletions made before an
      exception stay made. */
  datatype Lookup = Lookup(nodes: seq<Node>, failure: Option<Error>)

  function DeleteOldVersions(nodes: seq<Node>, files: seq<string>): Lookup
    decreases |files|
  {
    if files == [] then Lookup(nodes, None)
    else
      match DeleteOldVersion(nodes, files[0])
      case Err(e) => Lookup(nodes, Some(e))
      case Ok(next) => DeleteOldVersions(next, files[1..])
  }

  /** The lookup loop of `update_files` as written: iterating the dictionary
      yields its keys, and unpacking a key string into `doc_id, doc` raises
      ValueError unless the key has exactly two characters; when it has two,
      `doc` is a one-character string and `doc["file_name"]` raises TypeError.
      The first existing key therefore always raises. */
  function LookupAsWritten(nodes: seq<Node>, files: seq<string>): (r: Result<seq<Node>>)
    ensures r.Ok? ==> r.value == nodes
  {
    var ids := RefIds(nodes);
    if files == [] || ids == [] then Ok(nodes)
    else if |ids[0]| == 2 then Err(TypeError)
    else Err(ValueError)
  }

  /** As written, `update_files` raises for every non-empty request as soon
      as the collection holds one document, so it never replaces anything. */
  lemma AsWrittenAlwaysRaises(nodes: seq<Node>, files: seq<string>)
    requires files != [] && ExistingDocs(nodes) != map[]
    ensures LookupAsWritten(nodes, files).Err?
  {
    var k :| k in ExistingDocs(nodes);
    assert k in RefIds(nodes);
  }

  /** A collection holding one document `a.txt`, updated with `a.txt`: the
      code as written raises ValueError, the corrected lookup deletes the old
      version. */
  lemma UpdateCounterexample()
    ensures var nodes := [Node("doc-1", "hello", map[FileNameKey := "a.txt"])];
            && LookupAsWritten(nodes, ["a.txt"]) == Err(ValueError)
            && DeleteOldVersions(nodes, ["a.txt"]) == Lookup([], None)
  {
    var nodes := [Node("doc-1", "hello", map[FileNameKey := "a.txt"])];
    assert nodes[..0] == [];
    assert RefIds(nodes) == ["doc-1"];
    assert ListDocuments(nodes) == [DocEntry("doc-1", map[FileNameKey := "a.txt"])];
    assert Without(nodes, {"doc-1"}) == [];
  }

  /** A hypothesis on the stored documents, which uploading does not
      guarantee: every document has a `file_name` and a non-empty id, and no
      two documents share a name (one document per file). The reader may build
      several documents from one file, or load again the files a conflicting
      upload left behind; the corrected lookup then deletes only the first
      document carrying the name (`DeleteOldVersionEffect`). */
  ghost predicate WellNamed(docs: map<DocId, Metadata>)
  {
    && (forall k :: k in docs ==> FileNameKey in docs[k] && k != "")
    && (forall k, k' :: k in docs && k' in docs && docs[k][FileNameKey] == docs[k'][FileNameKey] ==> k == k')
  }

  /** The documents `update_files` leaves in place: those not named in `files`. */
  function NotNamed(docs: map<DocId, Metadata>, files: seq<string>): (r: map<DocId, Metadata>)
    requires forall k :: k in docs ==> FileNameKey in docs[k]
    ensures forall k :: k in r <==> k in docs && docs[k][FileNameKey] !in files
  {
    map k | k in docs && docs[k][FileNameKey] !in files :: docs[k]
  }

  /** One lookup turn deletes at most one document, and only one named `f`;
      every other document keeps its metadata. */
  lemma DeleteOldVersionEffect(nodes: seq<Node>, f: string)
    ensures DeleteOldVersion(nodes, f).Ok? ==>
              var before := ExistingDocs(nodes);
              var after := ExistingDocs(DeleteOldVersion(nodes, f).value);
              && (forall k :: k in after ==> k in before && after[k] == before[k])
              && (forall k :: k in before && k !in after ==> FileNameKey in before[k] && before[k][FileNameKey] == f)
              && (forall k, k' :: k in before && k !in after && k' in before && k' !in after ==> k == k')
              && RemovesOnlyNamed(before, after, [f])
  {
    ListDocumentsSpec(nodes);
    var found := FirstNamed(ListDocuments(nodes), f);
    if found.Ok? && found.value.Some? && found.value.value != "" {
      WithoutExisting(nodes, {found.value.value});
    }
  }

  /** On well-named documents the lookup never raises and finds the one
      document named `f`, if there is one. */
  lemma FirstNamedWellNamed(nodes: seq<Node>, f: string)
    requires WellNamed(ExistingDocs(nodes))
    ensures FirstNamed(ListDocuments(nodes), f).Ok?
    ensures var found := FirstNamed(ListDocuments(nodes), f).value;
            && (found.Some? ==> found.value in ExistingDocs(nodes)
                                && ExistingDocs(nodes)[found.value][FileNameKey] == f)
            && (found.None? ==> forall k :: k in ExistingDocs(nodes) ==> ExistingDocs(nodes)[k][FileNameKey] != f)
  {
    var docs := ExistingDocs(nodes);
    var entries := ListDocuments(nodes);
    ListDocumentsSpec(nodes);
    var found := FirstNamed(entries, f);
    if found.Ok? && found.value.None? {
      forall k | k in docs
        ensures docs[k][FileNameKey] != f
      {
        var i :| 0 <= i < |entries| && entries[i].id == k;
      }
    }
  }

  lemma NotNamedOne(docs: map<DocId, Metadata>, id: DocId, f: string)
    requires WellNamed(docs) && id in docs && docs[id][FileNameKey] == f
    ensures docs - {id} == NotNamed(docs, [f])
  {
  }

  lemma NotNamedNone(docs: map<DocId, Metadata>, f: string)
    requires WellNamed(docs)
    requires forall k :: k in docs ==> docs[k][FileNameKey] != f
    ensures docs == NotNamed(docs, [f])
  {
  }

  /** With well-named documents, one lookup turn deletes exactly the
      document named `f`, if there is one. */
  lemma DeleteOldVersionExact(nodes: seq<Node>, f: string)
    requires WellNamed(ExistingDocs(nodes))
    ensures DeleteOldVersion(nodes, f).Ok?
    ensures ExistingDocs(DeleteOldVersion(nodes, f).value) == NotNamed(ExistingDocs(nodes), [f])
  {
    var docs := ExistingDocs(nodes);
    FirstNamedWellNamed(nodes, f);
    var found := FirstNamed(ListDocuments(nodes), f).value;
    if found.Some? {
      WithoutExisting(nodes, {found.value});
      NotNamedOne(docs, found.value, f);
    } else {
      NotNamedNone(docs, f);
    }
  }

  /** `after` only lost entries of `before`: every document of `after` was in
      `before` with the same metadata, and every document of `before` that has
      no `file_name` or is not named in `files` is still in `after`. */
  ghost predicate RemovesOnlyNamed(before: map<DocId, Metadata>, after: map<DocId, Metadata>, files: seq<string>)
  {
    && (forall k :: k in after ==> k in before && after[k] == before[k])
    && (forall k :: k in before && (FileNameKey !in before[k] || before[k][FileNameKey] !in files)
                    ==> k in after)
  }

  lemma RemovesOnlyNamedChain(a: map<DocId, Metadata>, b: map<DocId, Metadata>, c: map<DocId, Metadata>,
                          f: string, rest: seq<string>)
    requires RemovesOnlyNamed(a, b, [f]) && RemovesOnlyNamed(b, c, rest)
    ensures RemovesOnlyNamed(a, c, [f] + rest)
  {
  }

  /** The lookup loop only deletes, and never a document whose name is not
      being updated or that has no name, whether or not it runs to its end. */
  lemma {:induction false} DeleteOldVersionsKeepsOthers(nodes: seq<Node>, files: seq<string>)
    ensures RemovesOnlyNamed(ExistingDocs(nodes), ExistingDocs(DeleteOldVersions(nodes, files).nodes), files)
    decreases |files|
  {
    if files != [] {
      var step := DeleteOldVersion(nodes, files[0]);
      if step.Ok? {
        assert DeleteOldVersions(nodes, files) == DeleteOldVersions(step.value, files[1..]);
        DeleteOldVersionEffect(nodes, files[0]);
        DeleteOldVersionsKeepsOthers(step.value, files[1..]);
        RemovesOnlyNamedChain(ExistingDocs(nodes), ExistingDocs(step.value),
                          ExistingDocs(DeleteOldVersions(nodes, files).nodes), files[0], files[1..]);
        assert [files[0]] + files[1..] == files;
      }
    }
  }

  /** Removing the documents named in `a` and then those named in `b` is
      removing those named in either. */
  lemma NotNamedTwice(docs: map<DocId, Metadata>, a: seq<string>, b: seq<string>)
    requires forall k :: k in docs ==> FileNameKey in docs[k]
    ensures NotNamed(NotNamed(docs, a), b) == NotNamed(docs, a + b)
  {
  }

  lemma NotNamedWellNamed(docs: map<DocId, Metadata>, files: seq<string>)
    requires WellNamed(docs)
    ensures WellNamed(NotNamed(docs, files))
  {
  }

  /** The intended behaviour of the lookup loop: with well-named documents
      it never raises, and it deletes exactly the documents named in
      `files`, so the re-inserted files do not sit beside stale versions. */
  lemma {:induction false} DeleteOldVersionsExact(nodes: seq<Node>, files: seq<string>)
    requires WellNamed(ExistingDocs(nodes))
    ensures DeleteOldVersions(nodes, files).failure == None
    ensures ExistingDocs(DeleteOldVersions(nodes, files).nodes) == NotNamed(ExistingDocs(nodes), files)
    decreases |files|
  {
    var docs := ExistingDocs(nodes);
    if files == [] {
      assert NotNamed(docs, files) == docs;
    } else {
      DeleteOldVersionExact(nodes, files[0]);
      var next := DeleteOldVersion(nodes, files[0]).value;
      assert DeleteOldVersions(nodes, files) == DeleteOldVersions(next, files[1..]);
      NotNamedWellNamed(docs, [files[0]]);
      DeleteOldVersionsExact(next, files[1..]);
      NotNamedTwice(docs, [files[0]], files[1..]);
      assert [files[0]] + files[1..] == files;
    }
  }

  // ---------------------------------------------------------------------
  // delete_documents

  /** The set of ids a request names. */
  function Requested(ids: seq<DocId>): set<DocId>
  {
    set k | k in ids
  }

  /** `deleted_count`: how many entries of `ids`, repeats included, are
      keys of the snapshot. */
  function CountPresent(ids: seq<DocId>, keys: set<DocId>): nat
  {
    if ids == [] then 0
    else CountPresent(ids[..|ids| - 1], keys) + (if ids[|ids| - 1] in keys then 1 else 0)
  }

  /** The count is zero exactly when no requested id exists, and never
      exceeds the number of requested ids. */
  lemma {:induction false} CountPresentZero(ids: seq<DocId>, keys: set<DocId>)
    ensures CountPresent(ids, keys) <= |ids|
    ensures CountPresent(ids, keys) == 0 <==> Requested(ids) * keys == {}
  {
    if ids != [] {
      var prefix := ids[..|ids| - 1];
      CountPresentZero(prefix, keys);
      assert ids == prefix + [ids[|ids| - 1]];
      assert Requested(ids) == Requested(prefix) + {ids[|ids| - 1]};
      assert Requested(ids) * keys
          == Requested(prefix) * keys + (if ids[|ids| - 1] in keys then {ids[|ids| - 1]} else {});
    } else {
      assert Requested(ids) == {};
    }
  }

  /** After `delete_documents`, the existing documents are the former ones
      minus the requested ids; when none was found the store is untouched. */
  lemma DeleteDocumentsEffect(nodes: seq<Node>, ids: seq<DocId>)
    ensures ExistingDocs(Without(nodes, Requested(ids) * ExistingDocs(nodes).Keys))
         == ExistingDocs(nodes) - Requested(ids)
    ensures CountPresent(ids, ExistingDocs(nodes).Keys) == 0 ==>
              Without(nodes, Requested(ids) * ExistingDocs(nodes).Keys) == nodes
  {
    var docs := ExistingDocs(nodes);
    WithoutExisting(nodes, Requested(ids) * docs.Keys);
    assert docs - Requested(ids) * docs.Keys == docs - Requested(ids);
    CountPresentZero(ids, docs.Keys);
    WithoutNothing(nodes);
  }

  /** One turn of the deletion loop, in terms of the request's prefix. */
  lemma DeleteStep(before: seq<Node>, ids: seq<DocId>, i: nat, keys: set<DocId>)
    requires i < |ids|
    ensures CountPresent(ids[..i + 1], keys) == CountPresent(ids[..i], keys) + if ids[i] in keys then 1 else 0
    ensures Requested(ids[..i + 1]) * keys
         == Requested(ids[..i]) * keys + if ids[i] in keys then {ids[i]} else {}
    ensures Without(Without(before, Requested(ids[..i]) * keys), {ids[i]})
         == Without(before, Requested(ids[..i]) * keys + {ids[i]})
  {
    assert ids[..i + 1][..i] == ids[..i];
    assert ids[..i + 1] == ids[..i] + [ids[i]];
    assert Requested(ids[..i + 1]) == Requested(ids[..i]) + {ids[i]};
    WithoutTwice(before, Requested(ids[..i]) * keys, {ids[i]});
  }

  const NoDocumentsToDelete: string := "No documents found to delete"

  // ---------------------------------------------------------------------

  /** A collection: its name and the nodes its vector index holds. */
  class Collection {
    var name: string
    var nodes: seq<Node>

    /** `stored` is what the vector store already holds under `name`. */
    constructor(name: string, stored: seq<Node>)
      ensures this.name == name && nodes == stored
    {
      this.name := name;
      nodes := stored;
    }

    /** The insertion loop shared by upload and update. */
    method InsertDocuments(docs: seq<Document>)
      modifies this`nodes
      ensures nodes == InsertAll(old(nodes), docs)
    {
      var i := 0;
      while i < |docs|
        invariant 0 <= i <= |docs|
        invariant nodes == InsertAll(old(nodes), docs[..i])
      {
        assert docs[..i + 1][..i] == docs[..i];
        nodes := nodes + ChunkNodes(docs[i]);
        i := i + 1;
      }
      assert docs[..|docs|] == docs;
    }

    /** `upload_files`: `files` are the uploaded names, `loaded` the
        documents the directory reader builds from the upload directory. On
        a name conflict nothing is inserted and the conflicting names are
        returned; otherwise the loaded documents are inserted (when any file
        was uploaded) and every uploaded file is counted as added. */
    method UploadFiles(files: seq<string>, loaded: seq<Document>) returns (r: Result<UploadOutcome>)
      modifies this`nodes
      ensures old(FileNames(ExistingDocs(nodes))).Err? ==>
                r == Err(KeyError(FileNameKey)) && nodes == old(nodes)
      ensures old(FileNames(ExistingDocs(nodes))).Ok? ==>
                var toUpdate := Conflicting(files, old(FileNames(ExistingDocs(nodes))).value);
                if toUpdate != [] then
                  r == Ok(Conflict(ConflictMessage(toUpdate), toUpdate)) && nodes == old(nodes)
                else
                  r == Ok(Added(|files|))
                  && nodes == if files == [] then old(nodes) else InsertAll(old(nodes), loaded)
    {
      var names := FileNames(ExistingDocs(nodes));
      if names.Err? {
        return Err(names.error);
      }
      var toUpdate: seq<string> := [];
      var newFiles: seq<string> := [];
      var i := 0;
      while i < |files|
        invariant 0 <= i <= |files|
        invariant toUpdate == Conflicting(files[..i], names.value)
        invariant newFiles == Fresh(files[..i], names.value)
      {
        assert files[..i + 1][..i] == files[..i];
        if files[i] in names.value {
          toUpdate := toUpdate + [files[i]];
        } else {
          newFiles := newFiles + [files[i]];
        }
        i := i + 1;
      }
      assert files[..|files|] == files;
      if toUpdate != [] {
        return Ok(Conflict(ConflictMessage(toUpdate), toUpdate));
      }
      NoConflictAllFresh(files, names.value);
      if newFiles != [] {
        InsertDocuments(loaded);
      }
      return Ok(Added(|newFiles|));
    }

    /** `update_files` with its lookup loop corrected: for each name, the
        first document so named is deleted; then the loaded documents are
        inserted and every requested file is counted as updated. */
    method UpdateFiles(files: seq<string>, loaded: seq<Document>) returns (r: Result<nat>)
      modifies this`nodes
      ensures var lookup := DeleteOldVersions(old(nodes), files);
              if lookup.failure.Some? then
                r == Err(lookup.failure.value) && nodes == lookup.nodes
              else
                r == Ok(|files|) && nodes == InsertAll(lookup.nodes, loaded)
    {
      var i := 0;
      while i < |files|
        invariant 0 <= i <= |files|
        invariant DeleteOldVersions(old(nodes), files) == DeleteOldVersions(nodes, files[i..])
      {
        assert files[i..][1..] == files[i + 1..];
        var found := FirstNamed(ListDocuments(nodes), files[i]);
        if found.Err? {
          return Err(found.error);
        }
        if found.value.Some? && found.value.value != "" {
          nodes := Without(nodes, {found.value.value});
        }
        i := i + 1;
      }
      InsertDocuments(loaded);
      return Ok(|files|);
    }

    /** `delete_documents`: deletes every requested id found in a snapshot
        of the existing documents taken before the loop, counts the requests
        that hit (repeats included) and raises 404 when the count is zero. */
    method DeleteDocuments(docIds: seq<DocId>) returns (r: Result<nat>)
      modifies this`nodes
      ensures var snapshot := old(ExistingDocs(nodes)).Keys;
              && nodes == Without(old(nodes), Requested(docIds) * snapshot)
              && r == if CountPresent(docIds, snapshot) > 0 then Ok(CountPresent(docIds, snapshot))
                      else Err(HttpError(404, NoDocumentsToDelete))
    {
      var existing := ExistingDocs(nodes);
      ghost var before := nodes;
      ghost var removed: set<DocId> := {};
      WithoutNothing(before);
      assert Requested(docIds[..0]) == {};
      var deleted := 0;
      var i := 0;
      while i < |docIds|
        invariant 0 <= i <= |docIds|
        invariant deleted == CountPresent(docIds[..i], existing.Keys)
        invariant removed == Requested(docIds[..i]) * existing.Keys
        invariant nodes == Without(before, removed)
      {
        DeleteStep(before, docIds, i, existing.Keys);
        if docIds[i] in existing {
          nodes := Without(nodes, {docIds[i]});
          deleted := deleted + 1;
          removed := removed + {docIds[i]};
        }
        i := i + 1;
      }
      assert docIds[..|docIds|] == docIds;
      if deleted > 0 {
        return Ok(deleted);
      } else {
        return Err(HttpError(404, NoDocumentsToDelete));
      }
    }
  }
}
