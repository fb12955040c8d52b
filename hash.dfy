/** The deterministic digest of a set of files (hash.go): per-file hashing by
    chunked reads, sorting of the per-file results by path and name, and the
    aggregation of the error-free results into one digest. */
module Hash {
  import opened Types

  // ---------------------------------------------------------------------------
  // Go's order on strings and the sort comparator
  // ---------------------------------------------------------------------------

  /** Go's `<` on strings: bytewise lexicographic, a proper prefix first. */
  predicate BytesLess(a: Bytes, b: Bytes)
    decreases |a|
  {
    |b| > 0 && (|a| == 0 || a[0] < b[0] || (a[0] == b[0] && BytesLess(a[1..], b[1..])))
  }

  /** `BytesLess` is the textbook lexicographic order: `a` is a proper prefix
      of `b`, or they first differ at a byte where `a`'s is smaller. */
  lemma {:induction false} BytesLessMeaning(a: Bytes, b: Bytes)
    ensures BytesLess(a, b) <==>
      ((|a| < |b| && a == b[..|a|]) ||
       (exists k :: 0 <= k < |a| && k < |b| && a[..k] == b[..k] && a[k] < b[k]))
    decreases |a|
  {
    if |a| > 0 && |b| > 0 {
      BytesLessMeaning(a[1..], b[1..]);
      if BytesLess(a, b) && a[0] == b[0] && !(a[0] < b[0]) {
        if |a| - 1 < |b| - 1 && a[1..] == b[1..][..|a| - 1] {
          assert a == [a[0]] + a[1..];
          assert b[..|a|] == [b[0]] + b[1..][..|a| - 1];
        } else {
          var k :| 0 <= k < |a[1..]| && k < |b[1..]| && a[1..][..k] == b[1..][..k] && a[1..][k] < b[1..][k];
          assert a[..k + 1] == [a[0]] + a[1..][..k];
          assert b[..k + 1] == [b[0]] + b[1..][..k];
        }
      }
      if !BytesLess(a, b) {
        forall k | 0 <= k < |a| && k < |b| && a[..k] == b[..k]
          ensures !(a[k] < b[k])
        {
          if k > 0 {
            assert a[0] == a[..k][0] && b[0] == b[..k][0];
            assert a[1..][..k - 1] == a[..k][1..] && b[1..][..k - 1] == b[..k][1..];
            assert a[1..][k - 1] == a[k] && b[1..][k - 1] == b[k];
          }
        }
      }
    }
  }

  lemma {:induction false} BytesLessIrreflexive(a: Bytes)
    ensures !BytesLess(a, a)
    decreases |a|
  {
    if |a| > 0 {
      BytesLessIrreflexive(a[1..]);
    }
  }

  lemma {:induction false} BytesLessTransitive(a: Bytes, b: Bytes, c: Bytes)
    requires BytesLess(a, b) && BytesLess(b, c)
    ensures BytesLess(a, c)
    decreases |a|
  {
    if |a| > 0 && a[0] == b[0] && b[0] == c[0] {
      BytesLessTransitive(a[1..], b[1..], c[1..]);
    }
  }

  /** Two different strings are ordered one way or the other, never both. */
  lemma {:induction false} BytesLessTotal(a: Bytes, b: Bytes)
    ensures a != b <==> (BytesLess(a, b) || BytesLess(b, a))
    ensures !(BytesLess(a, b) && BytesLess(b, a))
    decreases |a|
  {
    if |a| > 0 && |b| > 0 {
      BytesLessTotal(a[1..], b[1..]);
      if a[0] == b[0] && a[1..] == b[1..] {
        assert a == [a[0]] + a[1..] && b == [b[0]] + b[1..];
      }
    } else if a == b {
      BytesLessIrreflexive(a);
    }
  }

  /** The comparator passed to `sort.Slice`: by `Path`, and by `Name` between
      equal paths. */
  predicate FileLess(x: File, y: File): (less: bool)
    // lexicographic on the pair (path, name)
    ensures less <==> BytesLess(x.path, y.path) || (x.path == y.path && BytesLess(x.name, y.name))
    ensures less ==> x != y
  {
    if x.path != y.path then BytesLess(x.path, y.path)
    else
      BytesLessIrreflexive(x.path);
      BytesLessIrreflexive(x.name);
      BytesLess(x.name, y.name)
  }

  /** The comparator is a strict total order on (path, name) keys. */
  lemma FileLessOrder(x: File, y: File, z: File)
    ensures !FileLess(x, x)
    ensures x != y <==> (FileLess(x, y) || FileLess(y, x))
    ensures !(FileLess(x, y) && FileLess(y, x))
    ensures FileLess(x, y) && FileLess(y, z) ==> FileLess(x, z)
  {
    BytesLessIrreflexive(x.name);
    BytesLessTotal(x.path, y.path);
    BytesLessTotal(x.name, y.name);
    BytesLessTotal(x.path, z.path);
    BytesLessTotal(y.path, z.path);
    if FileLess(x, y) && FileLess(y, z) {
      if x.path != y.path && y.path != z.path {
        BytesLessTransitive(x.path, y.path, z.path);
      } else if x.path == y.path && y.path == z.path {
        BytesLessTransitive(x.name, y.name, z.name);
      }
    }
  }

  /** Not-less is transitive: the order sort.Slice leaves behind is a chain. */
  lemma NotLessTransitive(x: File, y: File, z: File)
    requires !FileLess(y, x) && !FileLess(z, y)
    ensures !FileLess(z, x)
  {
    FileLessOrder(x, y, z);
    FileLessOrder(z, x, y);
    FileLessOrder(y, z, x);
  }

  // ---------------------------------------------------------------------------
  // Sorted sequences of results
  // ---------------------------------------------------------------------------

  /** No result is ordered after a later one: the postcondition of
      `sort.Slice` with the comparator above. */
  ghost predicate Sorted(s: seq<FileHash>)
  {
    forall i, j :: 0 <= i < j < |s| ==> !FileLess(s[j].file, s[i].file)
  }

  /** Different results are for different files. */
  ghost predicate DistinctKeys(m: multiset<FileHash>)
  {
    forall x, y :: x in m && y in m && x.file == y.file ==> x == y
  }

  /** Inserting into a sorted sequence before the first result that is not
      smaller: the reference sort. */
  function InsertSorted(x: FileHash, s: seq<FileHash>): (r: seq<FileHash>)
    ensures |r| == |s| + 1
    ensures multiset(r) == multiset(s) + multiset{x}
  {
    if |s| == 0 || !FileLess(s[0].file, x.file) then [x] + s
    else
      assert s == [s[0]] + s[1..];
      [s[0]] + InsertSorted(x, s[1..])
  }

  lemma {:induction false} InsertSortedSorted(x: FileHash, s: seq<FileHash>)
    requires Sorted(s)
    ensures Sorted(InsertSorted(x, s))
    decreases |s|
  {
    var r := InsertSorted(x, s);
    if |s| == 0 || !FileLess(s[0].file, x.file) {
      forall j | 0 < j < |r|
        ensures !FileLess(r[j].file, r[0].file)
      {
        assert r[j] == s[j - 1];
        if j > 1 {
          NotLessTransitive(x.file, s[0].file, s[j - 1].file);
        }
      }
    } else {
      InsertSortedSorted(x, s[1..]);
      var t := InsertSorted(x, s[1..]);
      assert r == [s[0]] + t;
      forall j | 0 < j < |r|
        ensures !FileLess(r[j].file, s[0].file)
      {
        assert r[j] in multiset(t);
        assert r[j] in multiset(s[1..]) + multiset{x};
        if r[j] == x {
          FileLessOrder(s[0].file, x.file, x.file);
        } else {
          assert r[j] in s[1..];
          var k :| 0 <= k < |s[1..]| && s[1..][k] == r[j];
          assert s[k + 1] == r[j];
        }
      }
    }
  }

  /** The reference sort of the results, by insertion. */
  function SortSeq(s: seq<FileHash>): (r: seq<FileHash>)
    ensures |r| == |s|
    ensures multiset(r) == multiset(s)
  {
    if |s| == 0 then []
    else
      assert s == [s[0]] + s[1..];
      InsertSorted(s[0], SortSeq(s[1..]))
  }

  lemma {:induction false} SortSeqSorted(s: seq<FileHash>)
    ensures Sorted(SortSeq(s))
  {
    if |s| > 0 {
      SortSeqSorted(s[1..]);
      InsertSortedSorted(s[0], SortSeq(s[1..]));
    }
  }

  lemma DistinctKeysSub(m: multiset<FileHash>, m': multiset<FileHash>)
    requires DistinctKeys(m) && m' <= m
    ensures DistinctKeys(m')
  {
    forall x, y | x in m' && y in m' && x.file == y.file
      ensures x == y
    {
      assert x in m && y in m;
    }
  }

  /** Two sorted arrangements of one collection with distinct keys start with
      the same result. */
  lemma SortedHeads(s: seq<FileHash>, t: seq<FileHash>)
    requires |s| > 0 && Sorted(s) && Sorted(t) && multiset(s) == multiset(t)
    requires DistinctKeys(multiset(s))
    ensures |t| > 0 && s[0] == t[0]
  {
    assert |s| == |multiset(s)| == |t|;
    assert s[0] in multiset(t) && t[0] in multiset(s);
    var k :| 0 <= k < |t| && t[k] == s[0];
    var m :| 0 <= m < |s| && s[m] == t[0];
    if m > 0 && k > 0 {
      assert !FileLess(s[m].file, s[0].file);
      assert !FileLess(t[k].file, t[0].file);
      FileLessOrder(s[0].file, t[0].file, t[0].file);
    }
    assert s[0].file == t[0].file;
    assert s[0] in multiset(s);
  }

  lemma SortedTail(s: seq<FileHash>)
    requires |s| > 0 && Sorted(s)
    ensures Sorted(s[1..])
  {
    forall i, j | 0 <= i < j < |s| - 1
      ensures !FileLess(s[1..][j].file, s[1..][i].file)
    {
      assert s[1..][j] == s[j + 1] && s[1..][i] == s[i + 1];
    }
  }

  /** Removing equal heads from one collection leaves one collection. */
  lemma TailsAgree(s: seq<FileHash>, t: seq<FileHash>)
    requires |s| > 0 && |t| > 0 && s[0] == t[0] && multiset(s) == multiset(t)
    ensures multiset(s[1..]) == multiset(t[1..])
    ensures multiset(s[1..]) <= multiset(s)
  {
    assert s == [s[0]] + s[1..] && t == [t[0]] + t[1..];
    assert multiset(s) == multiset{s[0]} + multiset(s[1..]);
    assert multiset(t) == multiset{t[0]} + multiset(t[1..]);
    assert multiset(s[1..]) == multiset(s) - multiset{s[0]};
    assert multiset(t[1..]) == multiset(t) - multiset{t[0]};
  }

  /** With distinct keys there is only one sorted arrangement of a collection
      of results. */
  lemma {:induction false} SortedUnique(s: seq<FileHash>, t: seq<FileHash>)
    requires Sorted(s) && Sorted(t) && multiset(s) == multiset(t)
    requires DistinctKeys(multiset(s))
    ensures s == t
    decreases |s|
  {
    assert |s| == |multiset(s)| == |t|;
    if |s| > 0 {
      SortedHeads(s, t);
      TailsAgree(s, t);
      SortedTail(s);
      SortedTail(t);
      DistinctKeysSub(multiset(s), multiset(s[1..]));
      SortedUnique(s[1..], t[1..]);
      assert s == [s[0]] + s[1..] && t == [t[0]] + t[1..];
    }
  }

  /** The collection alone decides the sorted order when keys are distinct:
      the order in which results arrive does not matter. */
  lemma OrderIndependent(r1: seq<FileHash>, r2: seq<FileHash>)
    requires multiset(r1) == multiset(r2) && DistinctKeys(multiset(r1))
    ensures SortSeq(r1) == SortSeq(r2)
  {
    SortSeqSorted(r1);
    SortSeqSorted(r2);
    SortedUnique(SortSeq(r1), SortSeq(r2));
  }

  /** Swapping two neighbours keeps the collection. */
  lemma SwapKeeps(s: seq<FileHash>, j: nat)
    requires 0 < j < |s|
    ensures multiset(s[j - 1 := s[j]][j := s[j - 1]]) == multiset(s)
  {
    var t := s[j - 1 := s[j]];
    assert multiset(t) == multiset(s) - multiset{s[j - 1]} + multiset{s[j]};
    assert multiset(t[j := s[j - 1]]) == multiset(t) - multiset{s[j]} + multiset{s[j - 1]};
  }

  /** Insertion of `s[j]` in progress: `s[..i + 1]` is sorted apart from
      `s[j]`, which is smaller than everything after it up to `i`. */
  ghost predicate Sifting(s: seq<FileHash>, i: nat, j: nat)
    requires j <= i < |s|
  {
    && (forall p, q :: 0 <= p < q <= i && p != j && q != j ==> !FileLess(s[q].file, s[p].file))
    && (forall q :: j < q <= i ==> FileLess(s[j].file, s[q].file))
  }

  lemma SiftStart(s: seq<FileHash>, i: nat)
    requires i < |s| && Sorted(s[..i])
    ensures Sifting(s, i, i)
  {
    forall p, q | 0 <= p < q <= i && p != i && q != i
      ensures !FileLess(s[q].file, s[p].file)
    {
      assert s[..i][p] == s[p] && s[..i][q] == s[q];
    }
  }

  lemma SiftSwap(s: seq<FileHash>, i: nat, j: nat)
    requires 0 < j <= i < |s| && Sifting(s, i, j) && FileLess(s[j].file, s[j - 1].file)
    ensures Sifting(s[j - 1 := s[j]][j := s[j - 1]], i, j - 1)
    ensures multiset(s[j - 1 := s[j]][j := s[j - 1]]) == multiset(s)
  {
    SwapKeeps(s, j);
  }

  lemma SiftDone(s: seq<FileHash>, i: nat, j: nat)
    requires j <= i < |s| && Sifting(s, i, j)
    requires j == 0 || !FileLess(s[j].file, s[j - 1].file)
    ensures Sorted(s[..i + 1])
  {
    forall p, q | 0 <= p < q <= i
      ensures !FileLess(s[q].file, s[p].file)
    {
      if q == j && p < j - 1 {
        NotLessTransitive(s[p].file, s[j - 1].file, s[j].file);
      } else if p == j {
        FileLessOrder(s[j].file, s[q].file, s[q].file);
      }
    }
  }

  /** One step of insertion sort: the result at `i` moves left past every
      larger result before it; the results after `i` stay where they are. */
  method InsertLast(a: array<FileHash>, i: nat)
    requires i < a.Length && Sorted(a[..i])
    modifies a
    ensures Sorted(a[..i + 1])
    ensures multiset(a[..]) == multiset(old(a[..]))
    ensures a[i + 1..] == old(a[i + 1..])
  {
    SiftStart(a[..], i);
    var j := i;
    while j > 0 && FileLess(a[j].file, a[j - 1].file)
      invariant 0 <= j <= i
      invariant multiset(a[..]) == multiset(old(a[..]))
      invariant a[i + 1..] == old(a[i + 1..])
      invariant Sifting(a[..], i, j)
    {
      SiftSwap(a[..], i, j);
      a[j - 1], a[j] := a[j], a[j - 1];
      j := j - 1;
    }
    SiftDone(a[..], i, j);
  }

  /** The sort as `sort.Slice` performs it, in place on the slice's backing
      array (here by insertion: the library's algorithm is not modelled, only
      its promise). */
  method SortByFile(a: array<FileHash>)
    modifies a
    ensures Sorted(a[..])
    ensures multiset(a[..]) == multiset(old(a[..]))
  {
    for i := 0 to a.Length
      invariant Sorted(a[..i])
      invariant multiset(a[..]) == multiset(old(a[..]))
    {
      InsertLast(a, i);
    }
    assert a[..a.Length] == a[..];
  }

  /** `sortedHashesByFilename`: collects every result the channel delivers, in
      arrival order, into a slice and sorts it by path and name. `received` is
      what the channel delivers before it is closed. */
  method SortedHashesByFilename(received: seq<FileHash>) returns (hashesData: seq<FileHash>)
    ensures |hashesData| == |received|
    ensures multiset(hashesData) == multiset(received)
    ensures Sorted(hashesData)
    ensures DistinctKeys(multiset(received)) ==> hashesData == SortSeq(received)
  {
    var collected: seq<FileHash> := [];
    for i := 0 to |received|
      invariant collected == received[..i]
    {
      collected := collected + [received[i]];
    }
    assert collected == received;
    var a := new FileHash[|collected|](i requires 0 <= i < |collected| => collected[i]);
    assert a[..] == collected;
    SortByFile(a);
    hashesData := a[..];
    if DistinctKeys(multiset(received)) {
      SortSeqSorted(received);
      SortedUnique(hashesData, SortSeq(received));
    }
  }

  // ---------------------------------------------------------------------------
  // Streaming hashers
  // ---------------------------------------------------------------------------

  /** A `hash.Hash`: writes append to the stream it has been fed, and the
      digest is the algorithm applied to the whole stream, so writing `a` and
      then `b` is the same as writing `a + b`. */
  class Hasher {
    const algorithm: HashAlgorithm
    var written: Bytes

    constructor (algorithm: HashAlgorithm)
      ensures this.algorithm == algorithm && written == []
    {
      this.algorithm := algorithm;
      written := [];
    }

    method Write(p: Bytes)
      modifies this`written
      ensures written == old(written) + p
    {
      written := written + p;
    }

    /** `hex.EncodeToString(h.Sum(nil))`; it does not change the stream. */
    method Sum() returns (digest: Bytes)
      ensures digest == algorithm(written)
    {
      digest := algorithm(written);
    }
  }

  // ---------------------------------------------------------------------------
  // The aggregate over all files
  // ---------------------------------------------------------------------------

  /** The stream the aggregate hasher is fed for a sorted slice of results:
      the hash strings of the results without an error, in order. */
  function Fed(s: seq<FileHash>): Bytes
  {
    if |s| == 0 then []
    else Fed(s[..|s| - 1]) + (if s[|s| - 1].error.None? then s[|s| - 1].hash else [])
  }

  lemma {:induction false} FedAppend(s: seq<FileHash>, t: seq<FileHash>)
    ensures Fed(s + t) == Fed(s) + Fed(t)
    decreases |t|
  {
    if |t| == 0 {
      assert s + t == s;
    } else {
      assert (s + t)[..|s + t| - 1] == s + t[..|t| - 1];
      FedAppend(s, t[..|t| - 1]);
    }
  }

  /** A result with an error contributes nothing and does not stop the fold:
      wherever it stands, the stream is that of the other results. */
  lemma FedSkipsErrors(before: seq<FileHash>, entry: FileHash, after: seq<FileHash>)
    requires entry.error.Some?
    ensures Fed(before + [entry] + after) == Fed(before + after)
  {
    FedAppend(before + [entry], after);
    FedAppend(before, [entry]);
    FedAppend(before, after);
    assert [entry][..0] == [];
  }

  /** A result without an error contributes its hash string, in its place. */
  lemma FedKeepsHashes(before: seq<FileHash>, entry: FileHash, after: seq<FileHash>)
    requires entry.error.None?
    ensures Fed(before + [entry] + after) == Fed(before) + entry.hash + Fed(after)
  {
    FedAppend(before + [entry], after);
    FedAppend(before, [entry]);
    assert [entry][..0] == [];
  }

  /** Lines 62-72 of `FilesHashSum`: a fresh SHA-256 hasher is fed the hash
      string of every result without an error, in the sorted order; results
      with an error are logged and skipped. */
  method AggregateHashes(sha256: HashAlgorithm, hashesData: seq<FileHash>) returns (digest: Bytes)
    ensures digest == sha256(Fed(hashesData))
  {
    var hash := new Hasher(sha256);
    for i := 0 to |hashesData|
      invariant hash.written == Fed(hashesData[..i])
    {
      assert hashesData[..i + 1][..i] == hashesData[..i];
      if hashesData[i].error.None? {
        hash.Write(hashesData[i].hash);
      }
      // otherwise the failure is logged
    }
    assert hashesData[..|hashesData|] == hashesData;
    digest := hash.Sum();
  }

  /** `FilesHashSum` after the worker pool: the results the channel delivered
      are sorted and aggregated. The digest is that of some sorted arrangement
      of the results, and with distinct keys that arrangement is `SortSeq`,
      which depends only on the collection of results (`OrderIndependent`). */
  method FilesHashSum(sha256: HashAlgorithm, received: seq<FileHash>) returns (digest: Bytes)
    ensures exists s :: Sorted(s) && multiset(s) == multiset(received) && digest == sha256(Fed(s))
    ensures DistinctKeys(multiset(received)) ==> digest == sha256(Fed(SortSeq(received)))
  {
    var hashesData := SortedHashesByFilename(received);
    digest := AggregateHashes(sha256, hashesData);
  }

  // ---------------------------------------------------------------------------
  // Hashing one file
  // ---------------------------------------------------------------------------

  /** What one `Read` call reports besides the byte count: success, `io.EOF`,
      or another error. */
  datatype ReadStatus = ReadOk | Eof | ReadFailed(err: Error)

  /** An open `*os.File`. `name` is what `f.Name()` returns: the path the file
      was opened with. A read that starts at or beyond `failsAt` fails with
      `failure` (a device error, say); otherwise a read returns as much of the
      rest of `content` as fits in the buffer, and `io.EOF` once none is left. */
  class OsFile {
    const name: Bytes
    const content: Bytes
    const failsAt: Option<nat>
    const failure: Error
    var offset: nat

    ghost predicate Valid()
      reads this
    {
      offset <= |content|
    }

    /** `os.Open`: a file positioned at its start. */
    constructor Open(name: Bytes, content: Bytes, failsAt: Option<nat>, failure: Error)
      ensures this.name == name && this.content == content
      ensures this.failsAt == failsAt && this.failure == failure
      ensures offset == 0 && Valid()
    {
      this.name, this.content := name, content;
      this.failsAt, this.failure := failsAt, failure;
      offset := 0;
    }

    /** `f.Read(buffer)`: fills the front of `buffer` with the next bytes. */
    method Read(buffer: array<byte>) returns (n: nat, status: ReadStatus)
      requires Valid() && buffer.Length > 0
      modifies this`offset, buffer
      ensures Valid()
      ensures status == ReadOk <==> (!ReadFails(failsAt, old(offset)) && old(offset) < |content|)
      ensures status == Eof <==> (!ReadFails(failsAt, old(offset)) && old(offset) == |content|)
      ensures status.ReadFailed? ==> status.err == failure
      ensures status == ReadOk ==> 0 < n <= buffer.Length && offset == old(offset) + n
      ensures status == ReadOk ==> n == Min(buffer.Length, |content| - old(offset))
      ensures status == ReadOk ==> buffer[..n] == content[old(offset)..offset]
      ensures status != ReadOk ==> n == 0 && offset == old(offset)
    {
      if ReadFails(failsAt, offset) {
        return 0, ReadFailed(failure);
      }
      if offset == |content| {
        return 0, Eof;
      }
      n := Min(buffer.Length, |content| - offset);
      for j := 0 to n
        modifies buffer
        invariant buffer[..j] == content[offset..offset + j]
      {
        buffer[j] := content[offset + j];
      }
      offset := offset + n;
      status := ReadOk;
    }
  }

  function Min(x: int, y: int): int
  {
    if x <= y then x else y
  }

  /** A read starting at `offset` fails. */
  predicate ReadFails(failsAt: Option<nat>, offset: nat)
  {
    failsAt.Some? && offset >= failsAt.value
  }

  /** The context has been cancelled by the time of its `t`-th check: it is
      cancelled from check `cancelAt` on, if ever. */
  predicate Cancelled(cancelAt: Option<nat>, t: nat)
  {
    cancelAt.Some? && t >= cancelAt.value
  }

  /** A `context.Context` as the read loop sees it: each `ctx.Err()` is one
      more check, and once cancelled it stays cancelled. When the cancellation
      happens is decided outside the program (a signal), so it is a parameter. */
  class Context {
    const cancelAt: Option<nat>
    var checks: nat

    constructor (cancelAt: Option<nat>)
      ensures this.cancelAt == cancelAt && checks == 0
    {
      this.cancelAt := cancelAt;
      checks := 0;
    }

    /** `ctx.Err() != nil`. */
    method Err() returns (cancelled: bool)
      modifies this`checks
      ensures checks == old(checks) + 1
      ensures cancelled == Cancelled(cancelAt, old(checks))
    {
      cancelled := Cancelled(cancelAt, checks);
      checks := checks + 1;
    }
  }

  /** The offset after `t` full-buffer reads of a file of `size` bytes. */
  function OffsetAfter(t: nat, size: nat): (o: nat)
    ensures o <= size
    ensures o == size || o == t * BufferSize
  {
    Min(t * BufferSize, size)
  }

  /** Round `t` of the read loop, whose context check is check `start + t`,
      neither stops nor fails: not cancelled, and the read gets data. */
  predicate Continues(cancelAt: Option<nat>, start: nat, failsAt: Option<nat>, size: nat, t: nat)
  {
    !Cancelled(cancelAt, start + t) && !ReadFails(failsAt, OffsetAfter(t, size)) && OffsetAfter(t, size) < size
  }

  /** The concatenation of the chunks written. */
  function Flatten(chunks: seq<Bytes>): Bytes
  {
    if |chunks| == 0 then [] else Flatten(chunks[..|chunks| - 1]) + chunks[|chunks| - 1]
  }

  /** The read loop after `rounds` rounds that each read a chunk, the
      context having been checked `start` times before the loop: the chunks
      are the file's first `offset` bytes, cut at the buffer size. */
  ghost predicate ReadSoFar(content: Bytes, failsAt: Option<nat>, cancelAt: Option<nat>, start: nat,
                            rounds: nat, chunks: seq<Bytes>, offset: nat)
  {
    && offset == OffsetAfter(rounds, |content|)
    && (forall u :: 0 <= u < rounds ==> Continues(cancelAt, start, failsAt, |content|, u))
    && |chunks| == rounds && Flatten(chunks) == content[..offset]
    && (forall c :: c in chunks ==> 0 < |c| <= BufferSize)
  }

  /** A round that is not cancelled, does not fail and is not at the end of
      the file reads the next chunk. */
  lemma ReadRound(content: Bytes, failsAt: Option<nat>, cancelAt: Option<nat>, start: nat,
                  rounds: nat, chunks: seq<Bytes>, offset: nat, chunk: Bytes)
    requires ReadSoFar(content, failsAt, cancelAt, start, rounds, chunks, offset)
    requires !Cancelled(cancelAt, start + rounds) && !ReadFails(failsAt, offset) && offset < |content|
    requires offset + |chunk| <= |content| && chunk == content[offset..offset + |chunk|]
    requires |chunk| == Min(BufferSize, |content| - offset)
    ensures ReadSoFar(content, failsAt, cancelAt, start, rounds + 1, chunks + [chunk], offset + |chunk|)
  {
    assert (chunks + [chunk])[..rounds] == chunks;
    assert content[..offset + |chunk|] == content[..offset] + chunk;
  }

  /** Why the read loop of `getFileHash` ended. */
  datatype LoopExit = ContextCancelled | EndOfFile | ReadError(err: Error)

  /** The read loop of `getFileHash`: feeds the file to `h` chunk by chunk
      through `buffer` until the context is found cancelled, a read fails or
      the file is exhausted. */
  method ReadChunks(ctx: Context, f: OsFile, h: Hasher, buffer: array<byte>)
    returns (exit: LoopExit, ghost rounds: nat, ghost chunks: seq<Bytes>)
    requires f.Valid() && f.offset == 0 && h.written == [] && buffer.Length == BufferSize
    modifies ctx, f, h, buffer
    ensures f.Valid() && h.written == Flatten(chunks)
    ensures ReadSoFar(f.content, f.failsAt, ctx.cancelAt, old(ctx.checks), rounds, chunks, f.offset)
    ensures exit == ContextCancelled <==> Cancelled(ctx.cancelAt, old(ctx.checks) + rounds)
    ensures exit == EndOfFile <==>
      !Cancelled(ctx.cancelAt, old(ctx.checks) + rounds) && !ReadFails(f.failsAt, f.offset) && f.offset == |f.content|
    ensures exit.ReadError? <==>
      !Cancelled(ctx.cancelAt, old(ctx.checks) + rounds) && ReadFails(f.failsAt, f.offset)
    ensures exit.ReadError? ==> exit.err == f.failure
  {
    ghost var start := ctx.checks;
    rounds, chunks := 0, [];
    while true
      invariant f.Valid() && ctx.checks == start + rounds
      invariant ReadSoFar(f.content, f.failsAt, ctx.cancelAt, start, rounds, chunks, f.offset)
      invariant h.written == Flatten(chunks)
      decreases |f.content| - f.offset
    {
      var cancelled := ctx.Err();
      if cancelled {
        return ContextCancelled, rounds, chunks;
      }
      var n, status := f.Read(buffer);
      if status == Eof {
        return EndOfFile, rounds, chunks;
      } else if status.ReadFailed? {
        return ReadError(status.err), rounds, chunks;
      }
      ReadRound(f.content, f.failsAt, ctx.cancelAt, start, rounds, chunks, f.offset - n, buffer[..n]);
      h.Write(buffer[..n]);
      chunks := chunks + [buffer[..n]];
      rounds := rounds + 1;
    }
  }

  /** `getFileHash` with the selected algorithm: reads the file through a
      64 KiB buffer, feeding each chunk read to the hasher, until `io.EOF`, a
      read error or a cancelled context, whichever the loop meets first; then
      feeds the file's name (its full path) and returns the hex digest. A read
      error returns an empty digest and the error; a cancellation returns the
      digest of what was read so far, without an error. `rounds` is the number
      of chunks read and `chunks` what each read delivered. */
  method GetFileHash(algorithm: HashAlgorithm, ctx: Context, f: OsFile)
    returns (hash: Bytes, err: Option<Error>, ghost rounds: nat, ghost chunks: seq<Bytes>)
    requires f.Valid() && f.offset == 0
    modifies f, ctx
    ensures f.Valid()
    // every round before the last read a chunk
    ensures ReadSoFar(f.content, f.failsAt, ctx.cancelAt, old(ctx.checks), rounds, chunks, f.offset)
    // how the last round ended
    ensures Cancelled(ctx.cancelAt, old(ctx.checks) + rounds) ==>
      err.None? && hash == algorithm(Flatten(chunks) + f.name)
    ensures !Cancelled(ctx.cancelAt, old(ctx.checks) + rounds) && ReadFails(f.failsAt, f.offset) ==>
      hash == [] && err == Some(f.failure)
    ensures !Cancelled(ctx.cancelAt, old(ctx.checks) + rounds) && !ReadFails(f.failsAt, f.offset) ==>
      f.offset == |f.content| && err.None? && hash == algorithm(f.content + f.name)
  {
    var h := new Hasher(algorithm);
    var buffer := new byte[BufferSize];
    var exit;
    exit, rounds, chunks := ReadChunks(ctx, f, h, buffer);
    if exit.ReadError? {
      return [], Some(exit.err), rounds, chunks;
    }
    if exit == EndOfFile {
      assert f.content[..f.offset] == f.content;
    }
    h.Write(f.name);
    hash := h.Sum();
    err := None;
  }

  /** Opening a file: the opened file, or the error `os.Open` reports. */
  datatype Opened = Opened(file: OsFile) | OpenFailed(err: Error)

  /** `fileHashSum`: opens `filepath.Join(file.Path, file.Name)` (`opening` is
      the outcome of that `os.Open`) and hashes it. An open error is returned
      with an empty digest; otherwise the outcome is that of `getFileHash` on
      the opened file, whose name is the joined path: a read error gives an
      empty digest and the error, a cancellation the digest of what was read,
      without an error. `rounds` and `chunks` are the reads of `getFileHash`. */
  method FileHashSum(algorithm: HashAlgorithm, join: (Bytes, Bytes) -> Bytes, ctx: Context,
                     file: File, opening: Opened)
    returns (hash: Bytes, err: Option<Error>, ghost rounds: nat, ghost chunks: seq<Bytes>)
    requires opening.Opened? ==> opening.file.Valid() && opening.file.offset == 0
    requires opening.Opened? ==> opening.file.name == join(file.path, file.name)
    modifies ctx, if opening.Opened? then {opening.file} else {}
    ensures opening.Opened? ==> opening.file.Valid()
    ensures opening.OpenFailed? ==> hash == [] && err == Some(opening.err)
    ensures opening.Opened? ==>
      ReadSoFar(opening.file.content, opening.file.failsAt, ctx.cancelAt, old(ctx.checks), rounds, chunks,
                opening.file.offset)
    ensures opening.Opened? && Cancelled(ctx.cancelAt, old(ctx.checks) + rounds) ==>
      err.None? && hash == algorithm(Flatten(chunks) + join(file.path, file.name))
    ensures opening.Opened? && !Cancelled(ctx.cancelAt, old(ctx.checks) + rounds)
            && ReadFails(opening.file.failsAt, opening.file.offset) ==>
      hash == [] && err == Some(opening.file.failure)
    ensures opening.Opened? && !Cancelled(ctx.cancelAt, old(ctx.checks) + rounds)
            && !ReadFails(opening.file.failsAt, opening.file.offset) ==>
      err.None? && hash == algorithm(opening.file.content + join(file.path, file.name))
    ensures err.Some? ==> hash == []
    ensures opening.Opened? && err.None? ==>
      hash == algorithm(opening.file.content[..opening.file.offset] + join(file.path, file.name))
    ensures opening.Opened? && ctx.cancelAt.None? && opening.file.failsAt.None? ==>
      err.None? && hash == algorithm(opening.file.content + join(file.path, file.name))
  {
    if opening.OpenFailed? {
      return [], Some(opening.err), 0, [];
    }
    hash, err, rounds, chunks := GetFileHash(algorithm, ctx, opening.file);
    if err.None? && opening.file.offset == |opening.file.content| {
      assert opening.file.content[..opening.file.offset] == opening.file.content;
    }
    // the deferred `Close` only logs a failure
  }

  /** A read loop whose first round fails or is cancelled reads nothing. */
  lemma NothingReadWhenFirstRoundStops(content: Bytes, failsAt: Option<nat>, cancelAt: Option<nat>, start: nat,
                                       rounds: nat, chunks: seq<Bytes>, offset: nat)
    requires ReadSoFar(content, failsAt, cancelAt, start, rounds, chunks, offset)
    requires failsAt == Some(0) || cancelAt == Some(start)
    ensures rounds == 0 && chunks == [] && offset == 0
  {
    // the first round cannot continue, so no round completed
    assert !Continues(cancelAt, start, failsAt, |content|, 0);
  }

  /** A file whose first read fails, hashed under a context that is never
      cancelled, is reported with the read's error and an empty digest; hashed
      under a context cancelled before the first read, it gets the digest of
      the path alone and no error. */
  method FailingReadReported(algorithm: HashAlgorithm, join: (Bytes, Bytes) -> Bytes, file: File, failure: Error)
    returns (hash: Bytes, err: Option<Error>, hashCancelled: Bytes, errCancelled: Option<Error>)
    ensures hash == [] && err == Some(failure)
    ensures errCancelled.None? && hashCancelled == algorithm(join(file.path, file.name))
  {
    var content: Bytes := [1, 2, 3];
    var path := join(file.path, file.name);
    var f := new OsFile.Open(path, content, Some(0), failure);
    var ctx := new Context(None);
    ghost var rounds, chunks;
    hash, err, rounds, chunks := FileHashSum(algorithm, join, ctx, file, Opened(f));
    NothingReadWhenFirstRoundStops(content, Some(0), None, 0, rounds, chunks, f.offset);
    var g := new OsFile.Open(path, content, None, failure);
    var cancelled := new Context(Some(0));
    hashCancelled, errCancelled, rounds, chunks := FileHashSum(algorithm, join, cancelled, file, Opened(g));
    NothingReadWhenFirstRoundStops(content, None, Some(0), 0, rounds, chunks, g.offset);
    assert Flatten(chunks) + path == path;
  }
}
