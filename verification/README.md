# sense2vec pipeline rules in Dafny

This project models the rules of sense2vec that live in its spaCy pipeline
component (`sense2vec/__init__.py`) and in its training script
(`bin/train.py`). The vector store that both call into, `VectorMap` from
`sense2vec.vectors`, is not part of this model. It is treated as a recorder of
the calls made on it.

- `query_key.dfy`, module `QueryKey`: the lookup key of a token or span. The
  key is its text with spaces turned into underscores, then `|`, then its
  sense. The sense is the entity type when there is one, otherwise the
  part-of-speech tag. The module also models how the keys returned by a
  nearest-neighbour query are decoded into (text, sense) tuples and zipped
  with their scores.
- `noun_chunk.dfy`, module `NounChunk`: the loop that drops leading tokens of
  a noun chunk. A chunk is represented by the dependency labels of its tokens.
  A leading token is dropped while the chunk has more than one token and the
  first label is not `advmod`, `amod` or `compound`.
- `component.dfy`, module `Component`: `transform_doc` over a document that
  records the spans merged into it, and the component class. Its `first_run`
  flag makes the extension set-up run on the first call only.
- `train.dfy`, module `Train`: map construction in the training script. It
  builds a map of dimension `size`. It then calls `borrow` for each vocabulary
  entry whose count reaches `min_count`, in vocabulary order, with the entry's
  count and its own embedding row. Finally it creates the output directory if
  it is missing and calls `save` once.

Proved properties:

- A key decodes back to exactly its text and sense when neither contains an
  underscore and the sense contains no `|`. The text may itself contain `|`.
- An underscore in the text, or in an entity label such as `WORK_OF_ART`,
  comes back as a space, so that round trip fails.
- A key without `|` decodes to a one-element tuple.
- Trimming yields the unique suffix at which the loop stops, and only
  non-anchoring labels are dropped. Trimming is idempotent.
- The set-up runs exactly once. This is the invariant `initRuns == (if
  firstRun then 0 else 1)`, kept by every call.
- An empty document on the first call raises `IndexError`, because
  `init_component` reads `doc[0]`. The flag then stays up.
- Each qualifying vocabulary entry is borrowed exactly once, and no other
  entry is borrowed. The calls are made in vocabulary order.
- `save` is the last call on the map and is made only once. The map's
  `Save` requires the directory to exist, so verifying `BuildAndSave` also
  proves that the directory is created before saving.

## Model

| member | source | states |
|---|---|---|
| QueryKey.Replace | sense2vec/__init__.py:115 | The result has the input's length, and each character equals the input's character with the replaced one substituted. |
| QueryKey.Pos | sense2vec/__init__.py:113 | The object's own POS tag when it has a `pos_` attribute, otherwise its root token's POS tag. |
| QueryKey.Sense | sense2vec/__init__.py:113-114 | A non-empty entity type wins. Otherwise the object's own POS tag is used, and without one its root's POS tag. |
| QueryKey.GetQuery | sense2vec/__init__.py:110-115 | Length is len(text)+1+len(sense). The text part is the text with spaces turned into `_` and contains no space. Then `|`, then the sense. The key always contains `|`. |
| QueryKey.LastIndexOf | sense2vec/__init__.py:102 | None exactly when the character is absent. Otherwise a position holding it with no occurrence after it. |
| QueryKey.RSplitOnce | sense2vec/__init__.py:102 | Without the separator the result is the one-element list of the whole string. Otherwise it has two parts that rejoin to the input around the separator, and the second part has no separator. |
| QueryKey.DecodeKey | sense2vec/__init__.py:101-102 | Without `|` the result is the one-element tuple of the key with every `_` turned into a space. With `|` it is a pair that rejoins around `|` to the key with `_` turned into spaces, and whose sense part has no `|` (the split is at the last one). No part contains `_`. |
| QueryKey.DecodeResults | sense2vec/__init__.py:101-103 | Length is the shorter of the two lists. Entry i pairs the decoded i-th word with the i-th score, so word order is preserved. |
| QueryKey.SplitAtLast | sense2vec/__init__.py:102 | Splitting `a|b` at the last `|` gives `[a, b]` whenever `b` has no `|`, whatever `a` contains. |
| QueryKey.DecodeQuery | sense2vec/__init__.py:101-115 | Decoding a built key gives the text and the sense, each with `_` turned into spaces, provided the sense has no `|`. |
| QueryKey.QueryRoundTrip | sense2vec/__init__.py:101-115 | Decoding a built key returns exactly (text, sense) when neither contains `_` and the sense has no `|`. |
| QueryKey.UnderscoreInTextIsLost | sense2vec/__init__.py:101-115 | A built key always decodes to a pair. If the text contains `_`, its first part differs from the text, whatever the sense holds. |
| QueryKey.UnderscoreInSenseIsLost | sense2vec/__init__.py:101-115 | A built key always decodes to a pair. If the sense contains `_` (e.g. WORK_OF_ART), its second part differs from the sense, whatever the text holds. |
| NounChunk.Anchors | sense2vec/__init__.py:34 | True exactly for the dependency labels `advmod`, `amod` and `compound`, which keep a leading token. |
| NounChunk.Stops | sense2vec/__init__.py:34 | The negation of the loop condition: at most one token is left, or the first label anchors. |
| NounChunk.Trimmed | sense2vec/__init__.py:34-35 | The chunk as the loop leaves it: unchanged once the loop condition fails, otherwise the trimming of its tail. Its properties are the three lemmas below. |
| NounChunk.TrimmedIsStoppedSuffix | sense2vec/__init__.py:34-35 | The result is a suffix of the chunk, non-empty for a non-empty chunk, and has length ≤ 1 or an anchoring first label. Every dropped label is non-anchoring. |
| NounChunk.TrimmedIdempotent | sense2vec/__init__.py:34-35 | Trimming a trimmed chunk changes nothing. |
| NounChunk.TrimmedUnique | sense2vec/__init__.py:34-35 | Take any suffix at which the loop stops, reached by dropping only non-anchoring labels and not the whole non-empty chunk. That suffix is the trimmed chunk. |
| NounChunk.TrimChunk | sense2vec/__init__.py:33-35 | The `while` loop returns the trimmed chunk: a suffix, non-empty for a non-empty chunk, where the loop condition fails, with only non-anchoring labels dropped. Each iteration shortens the chunk by one. |
| Component.Doc.constructor | sense2vec/__init__.py:23-27 | A document with the given tokens flag, entities and noun chunks, nothing merged yet. A document without tokens has no entities and no noun chunks. |
| Component.Doc.Merge | sense2vec/__init__.py:36-37 | Merging appends the span to the document's merged spans. |
| Component.TrimmedChunks | sense2vec/__init__.py:33-35 | One span per noun chunk, in order. Each is that chunk trimmed, stops the loop, and is non-empty when the chunk is. |
| Component.TransformDoc | sense2vec/__init__.py:23-38 | Merges every entity unchanged, then every trimmed noun chunk, in that order. Returns the same document. |
| Component.Sense2VecComponent.constructor | sense2vec/__init__.py:57-59 | The flag is up and the set-up has not run. |
| Component.Sense2VecComponent.InitComponent | sense2vec/__init__.py:68-85 | Succeeds exactly when the document has a first token, and only then records one registration of the extensions. |
| Component.Sense2VecComponent.Call | sense2vec/__init__.py:61-66 | Keeps "set-up has run exactly once iff the flag is down". On the first call with an empty document it yields IndexError and changes nothing. Otherwise it lowers the flag and runs the set-up only if the flag was up. It transforms the document on every call and returns it. |
| Component.CallTwice | sense2vec/__init__.py:59-66 | A fresh component called on two documents, the first non-empty, runs the set-up once and returns both documents. Each has its entities and trimmed noun chunks merged. The same document passed twice has them merged twice. |
| Train.Borrows | bin/train.py:53-59 | The `borrow` calls the loop makes over a prefix of the vocabulary: those of the shorter prefix, plus one for the last word exactly when its count reaches `min_count`. Its properties are the three lemmas below. |
| Train.BorrowsAreQualifyingEntries | bin/train.py:53-59 | Every recorded call is a `borrow` of a visited word with count ≥ min_count. Its frequency is that count unchanged, and its vector is the row at that word's own index. |
| Train.BorrowsExactlyOnce | bin/train.py:53-59 | A visited word with count ≥ min_count is borrowed exactly once. Any other word, including one below the threshold, is never borrowed. |
| Train.BorrowsInVocabOrder | bin/train.py:53-59 | Every call borrows a vocabulary word, and successive calls borrow strictly later words in the vocabulary's iteration order. |
| Train.FileSystem.constructor | bin/train.py:62-63 | The file system starts with exactly the given directories. |
| Train.FileSystem.Exists | bin/train.py:62 | True exactly when the path is an existing directory. |
| Train.FileSystem.MakeDirs | bin/train.py:63 | Afterwards the path exists in addition to the directories before. |
| Train.VectorMap.constructor | bin/train.py:51 | The map's dimension is the given size and no call is recorded. |
| Train.VectorMap.Borrow | bin/train.py:59 | Records one `borrow` with the given key, frequency and vector. |
| Train.VectorMap.Save | bin/train.py:64 | Requires the target directory to exist, and records one `save`. |
| Train.BuildAndSave | bin/train.py:50-64 | The map has dimension `size`. Its calls are exactly the qualifying borrows in vocabulary order followed by one `save(out_path)`. Afterwards the output directory exists, and the directory set is otherwise unchanged. |
| Train.SaveComesLastAndOnce | bin/train.py:53-64 | In the recorded calls, the only `save` is the last call. |

## Left out

- `VectorMap` itself (`borrow`, `save`, `load`, containment, lookup, `most_similar`, `similarity`): `sense2vec/vectors` is not part of this model. The map is represented only by the calls made on it.
- `load` (sense2vec/__init__.py:15-20): the path check and `VectorMap.load` are I/O. `Sense2VecComponent.constructor` keeps only the `first_run` flag.
- `in_s2v`, `s2v_freq`, `s2v_vec`, `s2v_similarity` and the lookup at the start of `s2v_most_sim` are single lookups into the unmodelled map. Of them, only the key (`GetQuery`) and the decoding of the answer (`DecodeResults`) are modelled.
- `s2v_doc_similarity`, `get_s2v_doc_vector` and `vector_norm` (sense2vec/__init__.py:117-141): floating-point numerics through thinc's array module. `vector_norm` returns 0 for an all-zero vector, and line 128 would then divide by zero.
- Sense2VecComponent.InitComponent: the eleven `set_extension` registrations are foreign runtime attribute injection. The model counts one registration per successful set-up and keeps the `IndexError` of `doc[0]`.
- Component.TransformDoc: the model records which spans are merged and in what order, but not the tag, lemma and entity attributes of the merge or the resulting retokenisation. The noun chunks are fixed when the document is made, so the model does not capture that merging entities first can change which noun chunks spaCy yields.
- Train.BuildAndSave: requires every vocabulary index to be a row of the embedding matrix, which gensim guarantees. The `IndexError` that an out-of-range row would raise is not modelled.
- Train.FileSystem.Exists: the file system is a set of directory paths. A plain file at `out_path`, for which `os.path.exists` is also true, and the parent directories `os.makedirs` creates are not represented.
- gensim model construction and training, corpus reading, logging, the `print` calls and `plac` argument parsing (bin/train.py:1-48, 67-68) are external libraries and I/O.
- The `pyximport` and `sys.path` set-up (sense2vec/__init__.py:6-8) is import plumbing.
