# Collection registry and document bookkeeping of a RAG service

This project models the logic that the service itself owns. The service
answers questions over named collections of documents. Embedding, vector
search and the language model are left to external libraries. What remains is
two pieces of bookkeeping:

- **The collection registry** (`collection_manager.py`) is a dictionary from
  collection name to collection object. Creating, deleting, renaming and
  looking up a collection each have their own precondition and error: 400 for
  "already exists" and 404 for "not found". The dictionary is changed in
  place. Every registered object's `name` equals its key.
- **Per-collection documents** (`collection.py`). The external vector index
  is reduced to the sequence of nodes it stores. Each node carries the id of
  the source document it belongs to (`ref_doc_id`) and that document's
  metadata. On top of this sequence the model has:
  - the `get_existing_docs` dictionary and `list_documents`;
  - the partition of uploaded names in `upload_files`;
  - the lookup-and-delete loop of `update_files`;
  - the counted deletion of `delete_documents`;
  - the reshaping of retrieved nodes in `query`.

Modules:

- `results.dfy` (`Results`): the `Result` datatype and the raised exceptions.
  An HTTP exception carries its status code and detail text.
- `vector_index.dfy` (`VectorIndex`): the abstract index.
  - `ExistingDocs` is `get_existing_docs`.
  - `RefIds` gives the dictionary's key order.
  - `Without` is `delete_ref_doc`.
  - `InsertAll` is the insertion loop.
- `collection.dfy` (`Collections`): `query`, `list_documents`, the upload
  partition, the update lookup, and the class `Collection`. Its methods
  `UploadFiles`, `UpdateFiles` and `DeleteDocuments` change the stored nodes
  in place.
- `collection_manager.dfy` (`Registry`): the class `CollectionManager`, with
  `Valid()` as the name-equals-key invariant.

Inputs the code takes from outside become parameters:

- the collections the vector database reports at start-up;
- the nodes a new collection finds already stored under its name;
- the documents the directory reader loads from the upload directory, each
  with the id it was given when built and the chunks the index splits it into;
- the nodes the retriever returns and the answer the model gives.

## Model

| member | source | states |
|---|---|---|
| `VectorIndex.ExistingDocsKeys` | collection.py:88-94 | the documents listed are exactly the `ref_doc_id`s of the stored nodes |
| `VectorIndex.LastNodeWins` | collection.py:91-94 | the metadata reported for an id is that of the last node carrying it, so a later node overwrites an earlier one |
| `VectorIndex.RefIds` | collection.py:160-164 | the dictionary's key order has no repeated id, and its ids are exactly the existing documents |
| `VectorIndex.RefIdsCount` | collection.py:160-164 | there are as many distinct ids as existing documents |
| `VectorIndex.WithoutExisting` | collection.py:171 | `delete_ref_doc` of a set of ids removes exactly those entries from the existing documents; every other entry keeps its metadata |
| `VectorIndex.WithoutTwice` | collection.py:169-171 | deleting one set of ids and then another is the same as deleting both |
| `VectorIndex.WithoutNothing` | collection.py:169-171 | deleting no id leaves the store as it was |
| `VectorIndex.AppendOneDocument` | collection.py:126-127 | appending nodes of one document makes that document exist with their metadata and leaves all others unchanged |
| `VectorIndex.InsertOneExisting` | collection.py:126-127 | inserting a document with chunks registers it under its id with its metadata; nothing else changes |
| `VectorIndex.InsertAllExisting` | collection.py:126-127 | the insertion loop never removes a document; documents whose ids are not reused keep their metadata; every inserted document with chunks exists afterwards |
| `Collections.SourceFiles` | collection.py:73 | `source_files` has one entry per retrieved node, in order, equal to that node's metadata |
| `Collections.SourceNodes` | collection.py:78-85 | `source_nodes` has one entry per retrieved node, in order, with its text, score and metadata |
| `Collections.Query` | collection.py:71-86 | the response echoes the question and the answer; both lists have the length and order of the retrieved nodes; each source file is the metadata of the source node at the same position |
| `Collections.ListDocumentsSpec` | collection.py:160-164 | the listing has one entry per existing document with that document's metadata, every document appears, and no id appears twice |
| `Collections.PartitionSplits` | collection.py:104-112 | each uploaded name goes to exactly one of `files_to_update` and `new_files`, as often as it was uploaded (multiset and length) |
| `Collections.PartitionMembers` | collection.py:109-112 | a name is in `files_to_update` if and only if it is uploaded and already used by a document, and in `new_files` if and only if it is uploaded and not used |
| `Collections.PartitionAppend` | collection.py:104-112 | both lists keep the upload order: partitioning a concatenation concatenates the partitions |
| `Collections.UploadPartitionByDocuments` | collection.py:99-112 | collecting the existing names raises KeyError exactly when some document has no `file_name`; otherwise an uploaded name goes to `files_to_update` if and only if some existing document carries that name, and to `new_files` if and only if none does |
| `Collections.NoConflictAllFresh` | collection.py:120-132 | with no conflict, `new_files` is the whole upload, so the reported count is the number of uploaded files |
| `Collections.FirstNamed` | collection.py:136-143 | the first entry, in dictionary order, that has no `file_name` or is named `f` decides the result: a named entry gives its id, an unnamed one raises KeyError, and no such entry gives `None` (every entry is named, and none is `f`) |
| `Collections.LookupAsWritten` | collection.py:135-145 | the lookup loop as written never deletes anything |
| `Collections.AsWrittenAlwaysRaises` | collection.py:136-143 | as written, the loop raises for any non-empty request as soon as the collection holds a document |
| `Collections.UpdateCounterexample` | collection.py:136-143 | one document `a.txt` updated with `a.txt`: the code as written raises ValueError; the corrected lookup deletes the old version |
| `Collections.FirstNamedWellNamed` | collection.py:136-143 | on documents that all have distinct `file_name`s, the corrected lookup never raises and finds the document named `f` if there is one |
| `Collections.DeleteOldVersionEffect` | collection.py:136-145 | one lookup turn only removes entries, removes at most one document, and only one named `f`; every other entry, named or not, keeps its metadata |
| `Collections.DeleteOldVersionExact` | collection.py:136-145 | on well-named documents, one lookup turn removes exactly the document named `f` |
| `Collections.DeleteOldVersionsKeepsOthers` | collection.py:135-145 | the lookup loop only removes entries, never adds or changes one; documents with no `file_name` and documents whose name is not being updated survive unchanged, even when the loop stops on an exception |
| `Collections.DeleteOldVersionsExact` | collection.py:135-145 | on well-named documents the loop never raises and removes exactly the documents named in the request |
| `Collections.CountPresentZero` | collection.py:168-177 | `deleted_count` never exceeds the number of requested ids, and is zero exactly when no requested id is a key of the snapshot |
| `Collections.DeleteStep` | collection.py:169-172 | one turn of the deletion loop adds one to the count and one id to the deleted set exactly when the id is in the snapshot |
| `Collections.DeleteDocumentsEffect` | collection.py:166-177 | after deletion the existing documents are the former ones minus the requested ids; when none was found the store is untouched |
| `Collections.Collection.constructor` | collection.py:30-48 | a new collection object has the given name and the nodes already stored under it |
| `Collections.Collection.InsertDocuments` | collection.py:126-127 | the insertion loop appends each document's nodes in order |
| `Collections.Collection.UploadFiles` | collection.py:96-132 | a missing `file_name` raises KeyError and changes nothing; a conflict changes nothing and returns exactly the conflicting names in upload order with the message; otherwise the loaded documents are inserted when anything was uploaded, and the count is the number of uploaded files |
| `Collections.Collection.UpdateFiles` | collection.py:134-158 | the corrected lookup loop runs; an exception in it is raised with its deletions kept; otherwise the loaded documents are inserted and the count is the number of requested files |
| `Collections.Collection.DeleteDocuments` | collection.py:166-177 | only requested ids present in the snapshot taken before the loop are deleted; the count is the number of requested entries in the snapshot, repeats included; the result is 404 exactly when that count is zero |
| `Registry.StoredStep` | collection_manager.py:46-47 | one more reported collection adds its name, and its nodes become those stored under that name |
| `Registry.CollectionManager.constructor` | collection_manager.py:23-38 | the registry starts with exactly the reported names, each a fresh object with its stored nodes, and keeps the invariant |
| `Registry.CollectionManager.LoadExistingCollections` | collection_manager.py:40-47 | adds a fresh collection for each reported name (a name reported twice keeps the later one); leaves other entries alone; keeps the invariant |
| `Registry.CollectionManager.CreateCollection` | collection_manager.py:49-55 | a taken name gives 400 and leaves the registry unchanged; otherwise exactly that key is added with a fresh object, the other entries are unchanged, and the size grows by one |
| `Registry.CollectionManager.DeleteCollection` | collection_manager.py:57-65 | an unknown name gives 404 and leaves the registry unchanged; otherwise exactly that key is removed and the size shrinks by one |
| `Registry.CollectionManager.RenameCollection` | collection_manager.py:67-85 | 404 if the old name is missing, then 400 if the new name is taken, both with the registry unchanged; renaming to the same name always fails with 400 (404 if missing); on success the very object moves to the new key and takes the new name, the old key is gone, the others are unchanged, and the size is kept; only the `name` field of that one object may be written, so its documents are kept on every path |
| `Registry.CollectionManager.GetCollection` | collection_manager.py:87-92 | returns the registered object if and only if the name is registered, and 404 otherwise; it changes nothing |

## Findings

| source | as written | input that shows it | evidently intended | confidence | as-written member | corrected member |
|---|---|---|---|---|---|---|
| collection.py:136-143 | the lookup in `update_files` iterates `get_existing_docs()` itself, which yields its keys, and unpacks each key string into `doc_id, doc` | `update_files(["a.txt"])` on a collection holding one document `doc-1` whose `file_name` is `a.txt` raises ValueError. A two-character id raises TypeError from `doc["file_name"]` instead. No old version is ever deleted | iterate `get_existing_docs().items()`, so that the first document named `a.txt` is deleted before the new version is inserted | high; not executed | `Collections.UpdateCounterexample` | `Collections.DeleteOldVersionsExact` |

`Collections.Collection.UpdateFiles` uses the corrected lookup.
`Collections.LookupAsWritten` keeps the loop as written.

In collection.py and collection_manager.py, the HTTP exceptions (400, 404)
and the KeyError, ValueError and TypeError reach the caller unchanged.
Turning them into responses is the route layer's job, which is not part of
this model.

`Collections.DeleteOldVersionsExact` speaks only of collections with one
document per file name (`WellNamed`). Uploading does not guarantee this.
The directory reader may build several documents from one file, and files
left behind by a conflicting upload are loaded again. With several documents
under one name, the corrected lookup deletes only the first of them
(`Collections.DeleteOldVersionEffect` allows exactly this).

`delete_documents` counts repeated ids more than once: requesting the same
existing id twice reports 2 deletions for one document. The model states
this count as the code computes it.

## Left out

- main.py is not part of this model. It is a separate single-collection
  service: app setup, CORS, an HTTP health check of the model server, and
  loading or saving the index on disk. All of it is I/O.
- Filesystem effects are not modelled: creating the collection and upload
  directories, writing uploaded files, removing directories, and `os.rename`
  in rename. As a result, the model does not show that:
  - a conflicting upload leaves its files in the upload directory, where a
    later upload or update reads them again (the `loaded` parameter stands
    for whatever the reader finds);
  - `os.rename` can raise after the registry has already been renamed.
- The update path depends on the upload directory, and this is not modelled.
  Only a successful upload removes `tmp_uploads/<name>` (collection.py:130).
  The directory is made at collection.py:98. It therefore stays after a
  conflicting upload and after an upload that raised, including the KeyError
  at collection.py:100. `update_files` reads
  it (collection.py:148) and removes it (collection.py:156), possibly after
  it has already deleted old versions. `Collections.Collection.UpdateFiles`
  returns the count whenever the lookup succeeds, because the `loaded`
  parameter stands for whatever the reader finds there.
- Library internals are not modelled: embeddings, the language model,
  retrieval, the vector database client, document parsing, chunk splitting,
  fresh document ids, and the global `Settings`. The chunks and ids arrive
  already made inside each `Document`.
- Exceptions raised by library calls (insert, delete, the database client)
  are not modelled.
- The vector-store collection behind each object is not modelled as shared
  state. Each `Collection` holds its own `nodes`.
  - Rename changes only the `name` field. The renamed object keeps using the
    vector-store collection named after the old name (collection.py:51-53).
    After `create_collection` under the old name, both objects read and write
    one shared store. The model's separate `nodes` fields cannot show this.
  - `delete_collection` (collection_manager.py:57-65) never drops the
    vector-store collection. A collection created or reloaded later under the
    same name finds the old documents again. The `stored` parameter of
    `CreateCollection` and the reports given to the constructor stand for
    whatever the store holds.
- The order of stored nodes is the back end's. The source reads it with
  `get_nodes()` (collection.py:93), which promises no order. The model
  appends inserted nodes at the end. That choice fixes the order of
  `list_documents` after an insert, and which of several same-named
  documents the corrected update lookup finds first. No property proved here
  depends on it.
- `ref_doc_id` is modelled as always present. A node without one would
  appear under the key `None`.
- Scores are modelled as `real`, not as floating point, and a missing score
  is not modelled.
- Concurrency is not modelled: there are no locks, and two uploads to the
  same collection share one temporary directory.
- Configuration from the environment and logging are not modelled.
- Metadata values are modelled as strings (`map<string, string>`). In the
  source they are whatever the document loader puts there, and some are not
  strings, such as a file size. The model passes metadata through unchanged
  and compares only `file_name`, so no property proved here depends on this.
- Collections.Query: `source_files` holds each node's metadata map, not the
  Python `str()` rendering of it. The text form of a dictionary is not
  modelled.
- Collections.Collection.UploadFiles: on success it returns the added count,
  not the message text built from it. Turning integers into text is not
  modelled.
- Collections.Collection.DeleteDocuments: on success it returns the count,
  not the message text built from it, for the same reason.
- Collections.Collection.UpdateFiles: on success it returns the count, not
  the message text built from it, for the same reason.
