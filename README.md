# byteskeeper core in Dafny

byteskeeper computes one reproducible digest for a directory hierarchy. It
builds an in-memory tree of the directories and the files in each. It then
hashes every file: the content is read in 64 KiB chunks, followed by the
joined path. The per-file results are sorted by (path, name), and the hashes
of the files that succeeded are fed into one top-level SHA-256 hasher. A
session identifier is a version-7 UUID, and its timestamp is turned into a
Unix time.

This project models four parts of that program and proves what each promises.

- `types.dfy` (`Types`): the `File` and `FileHash` records, the 64 KiB
  buffer size, bytes, and the hash algorithm as an abstract function.
- `tree.dfy` (`Tree`): the directory tree. Nodes live in an arena (the class
  `NodeArena`), and a node is an index into its fields: parent, children,
  weight, name and file names. `Valid()` is the tree's invariant: parent and
  child links agree, and every node's weight is its own file count plus the
  weights of its children.
  - `NewNode`, `Insert` and `AddWeightElem` keep that invariant.
    `UpdateWeight`, which `AddWeightElem` calls after appending the name,
    shifts weights along the ancestor chain and does not keep it on its own.
  - `GetAllWeightElementsWithPath` is the breadth-first flattening, proved to
    emit the files of exactly the subtree in level order: after the start
    node come the children of the visited nodes, list after list, in visiting
    order. It emits `weight[n]` records.
- `file_system.dfy` (`FileSystem`): the recursive walk that builds the tree
  from a file-system value. A directory is the list of its entries, and an
  entry is a `Dir`, a `Symlink` or another file with an optional size.
  - `Walked` states what one call leaves in the arena: nodes, names, file
    lists, child order and weights. Its part `Mirrors` says that the new
    subtree mirrors the hierarchy at every depth: each node carries its
    directory's path and files, and its children mirror the subdirectories one
    to one, in listing order.
  - `BuildAndEnumerate` builds `r/{a, s/{b}}` into an empty arena and
    enumerates it, which gives `(r, a)` and then `(r/s, b)`.
  - The three counters are proved equal to the file, directory and byte
    totals of the hierarchy.
  - The root's weight equals the file count.
- `hash.dfy` (`Hash`):
  - the streaming hasher, the class `Hasher`: writing only appends to the
    stream it will digest, so `Write(a); Write(b)` is `Write(a + b)` by
    construction;
  - the sort by (path, name) as an in-place insertion sort on an array,
    proved sorted and a permutation;
  - the fold that feeds only the error-free hashes, proved independent of the
    arrival order when keys are distinct;
  - the chunked read loop of one file, against a file object whose reads can
    fail and a context that can be cancelled, and the three outcomes of
    hashing one file (read error, cancellation, whole content), which
    `fileHashSum` passes on unchanged.
- `uuid.dfy` (`Uuid`): the conversion from 100-ns ticks since 1582-10-15 to
  whole Unix seconds.

Go's pointers become arena indices, and Go strings become byte sequences.
The operating system is modelled by values given to the model as inputs:
- a directory listing;
- the size reported by `Info()`, if any;
- the content of a file, the offset at which its reads fail, if any, and the
  result of `os.Open`;
- the context check at which cancellation is observed, if any;
- `filepath.Join`.

Where the description of the program and its code differ, the model follows
the code:
- `AddWeightElem` appends file names without a uniqueness check, despite its
  comment.
- The comment on `bufferSize` says 128 KB; the value is `64 * 1024`.

## Model

| member | source | states |
|---|---|---|
| Tree.NodeArena.constructor | tree.go:17-24 | An empty arena satisfies the tree invariant. |
| Tree.NodeArena.NewNode | tree.go:27-33 | Adds a node with no parent, no children, no files and weight 0, carrying the given name, and returns it; the existing nodes are unchanged and the invariant is kept. |
| Tree.NodeArena.Insert | tree.go:36-40 | Adds exactly one node whose parent is `p`, appends it at the end of `p`'s children and returns it; every other child list is unchanged and the invariant is kept. |
| Tree.NodeArena.UpdateWeight | tree.go:43-53 | Adds `delta` to the weight of the node and of each of its ancestors up to the root, and changes no other weight; the `-= -delta` branch has the same effect as `+= delta`. |
| Tree.NodeArena.AddWeightElem | tree.go:56-59 | Appends the name to the node's files, with no uniqueness check, and raises the weight of the node and of every ancestor by exactly 1. The invariant is kept. |
| Tree.NodeArena.GetAllWeightElementsWithPath | tree.go:62-73 | Emits one record per stored file of every node in the subtree, each exactly once. A record's path is its node's name. Files come in stored order, nodes in level order: the start node first, then the child lists of the visited nodes concatenated in visiting order (`order == [n] + Enqueued(children, order)`). The output length equals `weight[n]`. |
| Tree.CollectSubtree | tree.go:62-73 | The BFS queue loop over the arena's fields. It returns `FilesOf` the visit order, which is distinct, starts at `n`, covers exactly the subtree and is the level order: everything after `n` is what the FIFO queue received, child list by child list. The length equals `weight[n]`. |
| Tree.EnqueuedStep | tree.go:65-67 | Dequeuing the next node and appending its children to the queue keeps the visit order equal to the start node followed by the child lists of the nodes dequeued so far. |
| Tree.AppendElements | tree.go:68-70 | The inner loop appends `(node name, file)` for each file of the node, in stored order. |
| Tree.AddRootKeeps | tree.go:27-33 | Adding a parentless, empty node keeps the links consistent and every weight equal to its own files plus its children's weights. |
| Tree.AddChildKeeps | tree.go:36-40 | Adding a child to `p` keeps the links consistent, each child list in creation order, and the weight invariant. |
| Tree.ChildSumAfterAdd | tree.go:43-59 | After raising every node on `x`'s ancestor chain by 1, the children's weight sum of a node grows by 1 exactly when the node is a strict ancestor of `x`. |
| Tree.PathLinks | tree.go:44-52 | The ancestor chain walked through `head` starts at the node, follows parent links, ends at a root and visits no node twice. |
| Tree.DistinctLength | tree.go:64-71 | A list of distinct nodes of the arena is no longer than the arena. The BFS visit order is distinct, so the queue loop ends after at most one round per node. |
| FileSystem.FillRecursiveDirectoriesTree | file_system.go:19-58 | The directory gets a new node. A top-level call (no parent) creates a root, leaves `countEdges` unchanged and returns it. A nested call inserts a child of `node`, adds 1 edge and returns nothing. Its listing is then walked: `Walked` describes the resulting arena, and `Mirrors` says the new subtree is the hierarchy at every depth, with each node's path, files and children in listing order. Each counter grows by the directory, file and byte totals of the hierarchy. |
| FileSystem.AddEntry | file_system.go:29-52 | One listing entry. A directory is walked recursively under the name `dirPath + "/" + name`. A symlink changes neither the arena nor the counters. Any other entry is added to the node's files and counted, with its size when `Info()` succeeds. |
| FileSystem.HandleNext | file_system.go:29-52 | One round of the entry loop extends the walked prefix of the listing and the counters' tally by one entry. |
| FileSystem.WalkStep | file_system.go:29-52 | Extending the walk by one entry adds that entry's totals to the prefix's totals, and the arena still satisfies `Walked` for the longer prefix. |
| FileSystem.WalkStart | file_system.go:20-26 | The new node, before any entry is handled, satisfies `Walked` for the empty listing; an unreadable directory, whose listing is empty, therefore yields a node with no files and no children. |
| FileSystem.WalkDir | file_system.go:33-35 | A subdirectory becomes a child of the directory's node, named `dirPath + "/" + name`, placed after the earlier children. Its subtree's files add to the weight of the directory and of all its ancestors. |
| FileSystem.WalkFile | file_system.go:38-40 | A file adds its name to the node's files and raises the weight of the node and of all its ancestors by one. |
| FileSystem.WalkSymlink | file_system.go:36-37 | A symlink leaves the arena and all three totals unchanged. |
| FileSystem.SymlinkIgnored | file_system.go:36-37 | A symlink anywhere in a listing adds no file, no directory and no byte. |
| FileSystem.InfoFailureCounted | file_system.go:39-49 | A file whose `Info()` fails counts as a file just like one whose `Info()` succeeds. Only its size is missing from the byte total. |
| FileSystem.FileCountAppend | file_system.go:29-52 | The file total of a concatenated listing is the sum of the two parts' totals. |
| FileSystem.DirCountAppend | file_system.go:29-52 | The directory total of a concatenated listing is the sum of the two parts' totals. |
| FileSystem.ByteCountAppend | file_system.go:29-52 | The byte total of a concatenated listing is the sum of the two parts' totals. |
| FileSystem.FileCountSplit | file_system.go:29-52 | The file total of a hierarchy is exactly the files directly in its top directory plus the file totals of its subdirectories, the same split as a node's weight. |
| FileSystem.DirCountSplit | file_system.go:29-35 | The directory total of a hierarchy is exactly the number of subdirectories directly in its top directory plus the directory totals of those subdirectories. |
| FileSystem.MirrorsFrame | file_system.go:29-35 | A subtree that mirrors a directory keeps mirroring it while later entries are walked, since they change only nodes created before it and append new nodes. |
| FileSystem.MirrorsListFrame | file_system.go:29-35 | The children that mirror the earlier subdirectories of a listing keep mirroring them while later entries are walked. |
| FileSystem.NamesAtFrame | file_system.go:33-35 | Nodes created later do not change the names of existing children. |
| FileSystem.CreateDirectoriesTree | file_system.go:11-16 | Starts the counters at zero and returns the walk's root and the three totals. The new subtree mirrors the hierarchy (`Mirrors`). The new directory's weight equals `countFiles`. A top-level walk adds exactly `countEdges + 1` nodes. |
| FileSystem.Counters.constructor | file_system.go:11 | The three totals start at zero, as Go's zeroed named results do. |
| FileSystem.ExampleMirrored | file_system.go:19-58 | An arena of two nodes whose node 0 mirrors `r/{a, s/{b}}` holds `r` with file `a` and one child, node 1, which is `r/s` with file `b` and no children. |
| FileSystem.ExampleOrder | tree.go:62-73 | In the arena `0 -> 1`, the only level order from node 0 is `[0, 1]`. |
| FileSystem.ExampleFiles | tree.go:68-70 | Enumerating nodes 0 and 1 of that arena gives `(r, a)` and then `(r/s, b)`. |
| FileSystem.BuildAndEnumerate | file_system.go:19-58 | Building `r/{a, s/{b}}` into an empty arena and enumerating it from its root gives exactly `(r, a)` and then `(r/s, b)`. |
| Hash.SortedHashesByFilename | hash.go:129-141 | Returns exactly the results received: the same count and the same multiset. They are ordered by `Path`, then `Name`. With distinct keys the output is `SortSeq(received)`, whatever the arrival order. |
| Hash.SortByFile | hash.go:134-139 | Sorts the array in place by (Path, Name). The result is ordered and a permutation of the old contents. |
| Hash.InsertLast | hash.go:134-139 | Moves element `i` down into the sorted prefix: the first `i + 1` elements become sorted, the elements after `i` stay where they were, and the multiset is unchanged. |
| Hash.BytesLessMeaning | hash.go:135-138 | Go's `<` on strings holds exactly when `a` is a proper prefix of `b`, or when at the first difference `a` has the smaller byte. |
| Hash.BytesLessIrreflexive | hash.go:135-138 | No string is less than itself. |
| Hash.BytesLessTransitive | hash.go:135-138 | String `<` is transitive. |
| Hash.BytesLessTotal | hash.go:135-138 | Two different strings are ordered one way or the other, never both. |
| Hash.FileLess | hash.go:134-139 | The comparator is the lexicographic order on (Path, Name): paths first, names between equal paths. It never relates a record to itself. |
| Hash.FileLessOrder | hash.go:134-139 | The comparator is a strict total order on (Path, Name): irreflexive, asymmetric, transitive, and total on distinct keys. |
| Hash.InsertSortedSorted | hash.go:134-139 | Inserting into a sorted sequence keeps it sorted. |
| Hash.SortSeqSorted | hash.go:134-139 | The reference sort yields a sorted permutation. |
| Hash.SortedUnique | hash.go:134-139 | Two sorted permutations of the same results with distinct keys are equal, so sorting fixes the order. |
| Hash.OrderIndependent | hash.go:60-61 | For results with distinct keys, any two arrival orders of the same results sort to the same sequence. |
| Hash.FedAppend | hash.go:63-71 | The bytes fed for two consecutive stretches of results are the concatenation of the bytes fed for each. |
| Hash.FedSkipsErrors | hash.go:64-70 | A result with an error contributes nothing to the stream, wherever it stands, and the fold goes on. |
| Hash.FedKeepsHashes | hash.go:64-65 | An error-free result contributes exactly its hash string, at its place in the order. |
| Hash.AggregateHashes | hash.go:62-72 | The top-level digest is SHA-256 of the error-free hashes, concatenated in the given order. |
| Hash.FilesHashSum | hash.go:57-72 | The digest is SHA-256 of the fed stream of a sorted permutation of the results. For distinct keys it is the digest of `SortSeq(received)`, so it does not depend on the order in which results arrive. |
| Hash.Hasher.constructor | hash.go:62 | A new hasher has been fed nothing and digests with the given algorithm. |
| Hash.Hasher.Write | hash.go:65 | Writing appends to the stream the hasher digests. |
| Hash.Hasher.Sum | hash.go:72 | The digest is the algorithm applied to everything written so far. |
| Hash.OsFile.Open | hash.go:78 | An opened file is positioned at its start, with the given name, content and failure point. |
| Hash.OsFile.Read | hash.go:113 | A read fails at the failure offset, reports EOF at the end, and otherwise copies `min(len(buffer), remaining)` bytes, the next ones, and advances the offset. |
| Hash.Context.Err | hash.go:109 | Each check reports whether cancellation has been observed by then, and counts the check. |
| Hash.OffsetAfter | hash.go:107-121 | After `t` full chunks the offset is the file size or `t * 64 KiB`, never past the end. |
| Hash.ReadRound | hash.go:113-120 | A round that is not cancelled, does not fail and is not at EOF writes the next chunk of at most `bufferSize` bytes. The chunks stay the file's prefix up to the new offset. |
| Hash.ReadChunks | hash.go:107-121 | The loop writes chunks of 1 to `bufferSize` bytes whose concatenation is the content up to the offset reached. It stops on cancellation, EOF or a read error, each exactly when the corresponding check first fires, and passes on the read's error. |
| Hash.GetFileHash | hash.go:93-126 | The three outcomes. Cancelled: digest of the prefix read plus the file name, with a nil error. Read error: `("", err)`. Otherwise: digest of the whole content plus the name, with a nil error. |
| Hash.FileHashSum | hash.go:76-90 | An open error returns `("", err)`. Otherwise the outcome is that of `getFileHash` on the opened file, named by `filepath.Join(Path, Name)`. Cancelled: the digest of the prefix read plus the joined path, with a nil error. Read error: `("", err)` with the read's error. Otherwise: the digest of the whole content plus the joined path, with a nil error. |
| Hash.NothingReadWhenFirstRoundStops | hash.go:107-121 | When the first read fails or the context is already cancelled at the first check, the loop reads no chunk and stays at offset 0. |
| Hash.FailingReadReported | hash.go:76-126 | A file whose first read fails, under a context never cancelled, yields an empty digest and the read's error. Under a context cancelled at the first check it yields the digest of the joined path alone and no error. |
| Uuid.WholeSeconds | uuid.go:12 | Go's truncating `/ 10_000_000`: for non-negative ticks the largest `q` with `q * 10^7 <= ticks`, for negative ticks the smallest `q` with `q * 10^7 >= ticks`. |
| Uuid.GetDateFromUUIDv7 | uuid.go:9-15 | The nanoseconds are 0. For non-negative ticks the result's seconds `s` satisfy `(s + 12_219_292_800) * 10^7 <= ticks < (s + 12_219_292_801) * 10^7`, that is, `s = ticks / 10_000_000 - 12_219_292_800`. |
| Uuid.EpochIsZero | uuid.go:9-14 | Ticks exactly at the Unix epoch (`12_219_292_800 * 10^7`) give Unix second 0. |
| Uuid.Monotone | uuid.go:12-13 | A larger tick count never gives an earlier second. |
| Uuid.SameSecond | uuid.go:12-14 | All ticks within the same whole second give the same time, whose second is `k - 12_219_292_800`; the sub-second part is dropped. |

## Left out

- The goroutine pool of `FilesHashSum` (hash.go:23-55) is concurrency. This covers the workers channel, the `WaitGroup`, the results channel and the `readyFiles` counter. The model starts from the sequence of results that the channel delivers. It does not capture that `wg.Add(countFiles)` followed by the `break` on cancellation can leave `wg.Wait` blocked.
- SHA-256, BLAKE2b and `hex.EncodeToString` are foreign library code. Each algorithm is a function from the whole written stream to the hex digest. The choice between the two algorithms by name (hash.go:94-105) is that function parameter, so the `blake2b.New256` error branch and an unrecognised name are not modelled.
- The OS calls are input values: `os.ReadDir`, `entry.Type`, `entry.Info`, `os.Open` and `f.Read`.
  - A listing that fails is the empty list.
  - A listing that fails midway is the prefix it returned.
  - A read returns `min(len(buffer), remaining)` bytes. Go allows shorter reads, including a read of zero bytes with no error. The model neither produces them nor covers them in its proofs: `ReadSoFar` fixes the offset after `t` rounds at `min(t * 64 KiB, size)`, and every chunk has at least one byte.
- `filepath.Join` is a function parameter. Its cleaning of paths is not modelled.
- Go's `sort.Slice` is an unspecified algorithm. Its promise (ordered by the comparator, a permutation) is what the model states. The model sorts with an insertion sort.
- The `buffSize` argument of `sortedHashesByFilename` only sets the slice's capacity and is dropped.
- `writeHashFile` (hash.go:144-164) is output I/O.
- `main.go`, `logger.go` and `validate.go`: prompts, signals, the progress bar, logging and filesystem probing.
- `PrintTree` and `PrintTreeLog` (tree.go:76-101) are formatted output.
- The `Tree` interface (tree.go:8-15) has signatures that match no type, and nothing uses it.
- The logging calls in the walk and the hashing loop (file_system.go:45-46, hash.go:67-69, 110, 124) are not modelled; only the continuation after them is.
- The deferred `Close` of the opened file (hash.go:82-87) only logs and is not modelled.
- Context cancellation is modelled as the number of the `ctx.Err()` check at which it is first observed. From that check on, every check reports it.
- FileSystem.FillRecursiveDirectoriesTree: does not model the `int`/`int64` overflow of the three counters, which are unbounded integers here.
- Tree.NodeArena.UpdateWeight: does not model `int` overflow of weights, which are unbounded integers here.
- `NewNode(name, head)` with a non-nil `head` occurs only inside `Insert`, and is modelled as part of `Tree.NodeArena.Insert`.
- Uuid.GetDateFromUUIDv7: the bracket on the result is stated for non-negative tick counts, which are the only ones a UUID's 60-bit timestamp yields. For negative ticks, `WholeSeconds` states the truncation toward zero.
- The `Time` value is `(sec, nsec)`. Time zones and the rest of `time.Time` are not modelled.
