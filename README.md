# chromadb-hello-world: incremental sync and the two-node RAG graph

This project models, in Dafny, the two pieces of logic in the chromadb-hello-world
scripts.

- **Incremental sync** (`sync-raw-data.py`, module `Sync` in `sync.dfy`). The script
  fetches the identifiers already stored in a ChromaDB collection once, as a set. It
  walks a folder, keeps the files whose names end in ".md" and whose names are not in
  that set, and reads them. Each successful read appends the name, the text and the
  metadata `{"source": name}` to three parallel lists. Finally it calls the
  collection's `add` once with the three lists, and only when they are non-empty.
  The walk is a sequence of directories, each with the names of its files. The file
  system is a function from a path to `Option<string>`, where `None` means the read
  raised. The `add` call is the batch it would receive, or `None` when no call is made.
  `PlanBatch` keeps the script's two nested loops. It is proved equal to the
  specification function `Plan`. The lemmas about `Plan` state the script's promises.
  A reference definition `Kept` filters the queued entries in walk order, and
  `PlanFollowsWalk` ties `Plan` to it.
- **Retrieve-then-generate graph** (`langraph-example.py`, module `Rag` in `rag.dfy`).
  The graph state is a dictionary. `retrieve_node` joins the retrieved page contents
  with a blank line and returns the update `{"context": ...}`. `generate_node` builds
  the prompt `"Context: " + context + "\n\nQuestion: " + question` and returns
  `{"response": answer}`. The graph runs retrieve, then generate, then END, and merges
  each update into the state. The retriever and the language model are function
  parameters.

`wrappers.dfy` holds the `Option` type.

The skip test looks only at the set fetched before the loop, so two files with the
same base name in different sub-folders are both queued under one identifier
(`DuplicateNamesBothQueued`, `ExampleDuplicateBaseName`). There is no check for an
empty question.

## Model

| member | source | states |
|---|---|---|
| Sync.EndsWith | sync-raw-data.py:38 | Python's `str.endswith`: the name's last characters are, one by one, those of the suffix (see also EndsWithIsSuffix) |
| Sync.EndsWithIsSuffix | sync-raw-data.py:38 | the ".md" test holds exactly when the name is some string followed by ".md" |
| Sync.PathJoin | sync-raw-data.py:50 | the path that is read ends with the file name and, for a relative name, starts with the directory the walk reported |
| Sync.Entries | sync-raw-data.py:36-37 | the nested `os.walk` iteration yields one entry per listed file, in directory then listing order (see also EntriesMembers) |
| Sync.EntriesMembers | sync-raw-data.py:36-37 | an entry is met by the walk if and only if some walked directory has that root and lists that name |
| Sync.Visit | sync-raw-data.py:38-62 | the inner-loop body: an entry that is not queued leaves the batch as it was; a queued one appends its name, the text read and `{"source": name}` |
| Sync.Plan | sync-raw-data.py:36-62 | the three lists always have equal length; the i-th metadata is `{"source": ids[i]}`; every queued id ends in ".md" and is not in the existing set |
| Sync.PlanAppend | sync-raw-data.py:36-62 | planning a walk split in two gives the concatenation of the two batches: a file's contribution does not depend on the files before it, since the existing set never changes in the loop |
| Sync.SkippedEntryChangesNothing | sync-raw-data.py:38-62 | a file that is not ".md", is already stored, or cannot be read leaves all three lists unchanged, and the files after it are still processed |
| Sync.PlanFollowsWalk | sync-raw-data.py:36-57 | the queued ids are the names of the queued files in walk order, and the i-th document is the text read from the i-th queued file |
| Sync.KeptMembers | sync-raw-data.py:38-62 | the reference filter keeps exactly the walked files that are ".md", not stored and readable |
| Sync.QueuedIff | sync-raw-data.py:38-62 | a name is in the batch if and only if some walked file with that name is ".md", not in the existing set, and readable |
| Sync.EmptyPlanIff | sync-raw-data.py:45-65 | the batch is empty if and only if no walked file is queued; so a re-run over a folder whose ".md" names are all stored plans nothing |
| Sync.SecondRunPlansNothing | sync-raw-data.py:24-25 | after the first batch is added, a second run over the same folder with the same file contents plans an empty batch |
| Sync.DuplicateNamesBothQueued | sync-raw-data.py:42-45 | two queued files with the same base name anywhere in the walk both put that name in the batch |
| Sync.ExampleSkipsExisting | sync-raw-data.py:44-58 | with "a.md" and "b.md" stored and "a.md", "c.md", "d.md" in the folder, the batch ids are exactly "c.md" then "d.md" |
| Sync.ExampleDuplicateBaseName | sync-raw-data.py:36-58 | "notes.md" in the folder and in a sub-folder, nothing stored: the batch ids are "notes.md" twice |
| Sync.PlanBatch | sync-raw-data.py:30-62 | the nested loops over the walk build exactly the three lists `Plan` describes |
| Sync.SyncRun | sync-raw-data.py:24-74 | `add` is called once with the whole planned batch if and only if the batch is non-empty; otherwise no call is made |
| Rag.Join | langraph-example.py:41 | Python's `sep.join`: no parts give ""; otherwise the result starts with the first part (see JoinLength and JoinLayout) |
| Rag.JoinLength | langraph-example.py:41 | joining n parts adds n - 1 separators to their lengths |
| Rag.JoinLayout | langraph-example.py:41 | part i of a join sits right after parts 0 to i-1 and their separators, and a separator follows every part but the last |
| Rag.PageContents | langraph-example.py:41 | the comprehension `[doc.page_content for doc in docs]`: one text per document, in the retriever's order |
| Rag.Context | langraph-example.py:41 | the joined context is "" for no documents and otherwise starts with the first document's content and ends with the last's (see ContextKeepsRetrieverOrder) |
| Rag.RetrieveNode | langraph-example.py:34-44 | the update holds only the "context" key; zero documents give the empty context; one document gives its content unchanged |
| Rag.ContextKeepsRetrieverOrder | langraph-example.py:40-41 | each retrieved document's content appears in the context at the place set by its position in the retriever's list, followed by a blank line unless it is last |
| Rag.Prompt | langraph-example.py:49 | the prompt starts with "Context: " and the context and ends with "\n\nQuestion: " and the question |
| Rag.PromptInjective | langraph-example.py:49 | for questions of one length, the prompt determines both the context and the question |
| Rag.PromptAmbiguous | langraph-example.py:49 | without that condition it does not: a context holding the question label reads like a longer question |
| Rag.GenerateNode | langraph-example.py:46-51 | the update holds only the "response" key, and the response is the model's answer to the prompt built from the state's context and question |
| Rag.Step | langraph-example.py:44-51 | running a node merges its update into the state: retrieve adds exactly the "context" key, generate exactly the "response" key, and the next node finds the keys it reads |
| Rag.Successor | langraph-example.py:59-61 | each edge leads closer to END, so the graph run terminates |
| Rag.GraphOrder | langraph-example.py:59-61 | from the entry point the graph visits retrieve, then generate, then stops |
| Rag.SchemaOnly | langraph-example.py:28-31 | the graph takes in only the input keys that belong to the `GraphState` schema, with their values |
| Rag.RunFrom | langraph-example.py:59-67 | running the graph until END never changes the question or drops a key, and a run that starts before END ends with a response |
| Rag.Invoke | langraph-example.py:54-67 | the final state holds exactly the schema's keys "question", "context" and "response"; the question is the input's; the context comes from the retriever's documents; the response answers the prompt built from that context; keys outside the schema are not kept |
| Rag.EmptyRetrievalStillGenerates | langraph-example.py:41-60 | with no retrieved documents the context is "" and generation still runs, on the prompt "Context: \n\nQuestion: " followed by the question |

## Left out

- hello-chromadb.py and print-data.py: a heartbeat call and a print of the collection, with no logic.
- The ChromaDB client and collection (`HttpClient`, `get_or_create_collection`, `collection.get`, the inside of `collection.add`) and the Ollama embedding function: remote services. The identifiers `collection.get` returns are an input sequence, and `add` is the batch it would be called with.
- Sync.SyncRun: a failing `add` (a network or server error, or a rejected duplicate id inside one batch) raises and ends the script; the model only gives the call's arguments.
- The order `os.walk` visits directories and lists files, and the file system itself: the walk is an input sequence of directories.
- Opening and decoding a file as UTF-8 and the kinds of exceptions raised: a read is `Some(text)` or `None`.
- The retriever's similarity ranking and how many documents it returns, `ChatOllama` inference, and LangGraph's scheduler: the retriever and the model are function parameters, and the run follows the two edges of the graph.
- Rag.Invoke: an exception from the retriever or the model ends the run in the script; the model treats both as total functions.
- Rag.Invoke: an input without a "question" key makes `retrieve_node` raise a KeyError; the model requires the key, as the script's only call provides it.
- All printing, which is logging only.
