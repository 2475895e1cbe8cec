/**
 * The model-building part of the training script: after word2vec training,
 * a vector map of the embedding size is filled with every vocabulary entry
 * whose count reaches `min_count`, in vocabulary order, each with its count
 * and its own row of the embedding matrix; the output directory is then
 * created if missing and the map is saved into it.
 *
 * The vector map is modelled as a recorder of the calls made on it, and the
 * file system as the set of existing directories.
 */
module Train {

  /** The count and embedding-matrix row of one vocabulary word. */
  datatype VocabInfo = VocabInfo(count: int, index: nat)

  /** gensim's vocabulary: a dictionary from word to `VocabInfo`, iterated in
      the order `order`. */
  datatype Vocab = Vocab(order: seq<string>, entries: map<string, VocabInfo>)

  /** A call made on the vector map. */
  datatype MapCall<V> = Borrowed(key: string, freq: int, vector: V) | Saved(path: string)

  predicate Distinct(s: seq<string>) {
    forall i, j :: 0 <= i < j < |s| ==> s[i] != s[j]
  }

  /** Every word of `words` has an entry whose row exists. */
  predicate Indexed<V>(words: seq<string>, entries: map<string, VocabInfo>, rows: seq<V>) {
    forall w :: w in words ==> w in entries && entries[w].index < |rows|
  }

  /** A dictionary iterates over each of its keys once, and gensim gives every
      vocabulary word a row of its embedding matrix. */
  predicate WellFormed<V>(vocab: Vocab, rows: seq<V>) {
    && Distinct(vocab.order)
    && (forall w :: w in vocab.entries ==> w in vocab.order)
    && Indexed(vocab.order, vocab.entries, rows)
  }

  /** The `borrow` calls the loop makes after visiting `words`. */
  function Borrows<V>(words: seq<string>, entries: map<string, VocabInfo>, rows: seq<V>, minCount: int): seq<MapCall<V>>
    requires Indexed(words, entries, rows)
  {
    if words == [] then []
    else
      var w := words[|words| - 1];
      var prev := Borrows(words[..|words| - 1], entries, rows, minCount);
      var e := entries[w];
      if e.count < minCount then prev else prev + [Borrowed(w, e.count, rows[e.index])]
  }

  /** How many calls in `calls` borrow `key`. */
  function Occurrences<V>(calls: seq<MapCall<V>>, key: string): nat {
    if calls == [] then 0
    else
      var last := calls[|calls| - 1];
      Occurrences(calls[..|calls| - 1], key) + (if last.Borrowed? && last.key == key then 1 else 0)
  }

  /** The position of `w` in `s`. */
  function IndexOf(s: seq<string>, w: string): (r: nat)
    requires w in s
    ensures r < |s| && s[r] == w && w !in s[..r]
  {
    if s[0] == w then 0 else 1 + IndexOf(s[1..], w)
  }

  /** Each call is a `borrow` of a visited word whose count reaches the
      threshold, with that count as its frequency and that word's own row as
      its vector. */
  lemma {:induction false} BorrowsAreQualifyingEntries<V>(words: seq<string>, entries: map<string, VocabInfo>, rows: seq<V>, minCount: int)
    requires Indexed(words, entries, rows)
    ensures forall c :: c in Borrows(words, entries, rows, minCount) ==>
      && c.Borrowed?
      && c.key in words
      && c.freq == entries[c.key].count
      && c.freq >= minCount
      && c.vector == rows[entries[c.key].index]
  {
    if words != [] {
      BorrowsAreQualifyingEntries(words[..|words| - 1], entries, rows, minCount);
    }
  }

  /** Appending a call adds one occurrence exactly when it borrows the key. */
  lemma OccurrencesAppend<V>(calls: seq<MapCall<V>>, c: MapCall<V>, key: string)
    ensures Occurrences(calls + [c], key) == Occurrences(calls, key) + (if c.Borrowed? && c.key == key then 1 else 0)
  {
    assert (calls + [c])[..|calls|] == calls;
  }

  /** Every visited word whose count reaches the threshold is borrowed exactly
      once; every other word, and in particular one below the threshold, never. */
  lemma {:induction false} BorrowsExactlyOnce<V>(words: seq<string>, entries: map<string, VocabInfo>, rows: seq<V>, minCount: int, w: string)
    requires Indexed(words, entries, rows) && Distinct(words)
    ensures Occurrences(Borrows(words, entries, rows, minCount), w) ==
      if w in words && entries[w].count >= minCount then 1 else 0
  {
    if words != [] {
      var n := |words| - 1;
      var prefix, last := words[..n], words[n];
      assert words == prefix + [last];
      assert Distinct(prefix) && Indexed(prefix, entries, rows);
      assert last !in prefix;
      assert w in words <==> w in prefix || w == last;
      BorrowsExactlyOnce(prefix, entries, rows, minCount, w);
      var prev := Borrows(prefix, entries, rows, minCount);
      var e := entries[last];
      if e.count >= minCount {
        OccurrencesAppend(prev, Borrowed(last, e.count, rows[e.index]), w);
      }
    }
  }

  /** Appending words after `w` does not move it. */
  lemma {:induction false} IndexOfPrefix(s: seq<string>, t: seq<string>, w: string)
    requires w in s
    ensures IndexOf(s + t, w) == IndexOf(s, w)
  {
    if s[0] != w {
      assert (s + t)[1..] == s[1..] + t;
      IndexOfPrefix(s[1..], t, w);
    }
  }

  /** `calls` borrow words of `words`, each one later in `words` than the one before. */
  predicate FollowsOrder<V>(words: seq<string>, calls: seq<MapCall<V>>) {
    && (forall i :: 0 <= i < |calls| ==> calls[i].Borrowed? && calls[i].key in words)
    && forall i, j :: 0 <= i < j < |calls| ==> IndexOf(words, calls[i].key) < IndexOf(words, calls[j].key)
  }

  /** Appending a word to the vocabulary keeps the order of earlier calls. */
  lemma FollowsOrderWiden<V>(words: seq<string>, last: string, calls: seq<MapCall<V>>)
    requires FollowsOrder(words, calls)
    ensures FollowsOrder(words + [last], calls)
  {
    forall i | 0 <= i < |calls| ensures IndexOf(words + [last], calls[i].key) == IndexOf(words, calls[i].key) {
      IndexOfPrefix(words, [last], calls[i].key);
    }
  }

  /** A call borrowing a new last word comes after all calls on earlier words. */
  lemma FollowsOrderExtend<V>(words: seq<string>, last: string, calls: seq<MapCall<V>>, c: MapCall<V>)
    requires FollowsOrder(words, calls) && last !in words
    requires c.Borrowed? && c.key == last
    ensures FollowsOrder(words + [last], calls + [c])
  {
    var all := words + [last];
    FollowsOrderWiden(words, last, calls);
    assert IndexOf(all, last) == |words| by {
      assert all[..|words|] == words;
    }
    forall i | 0 <= i < |calls| ensures IndexOf(all, calls[i].key) < |words| {
      IndexOfPrefix(words, [last], calls[i].key);
    }
  }

  /** The `borrow` calls follow the vocabulary's iteration order. */
  lemma {:induction false} BorrowsInVocabOrder<V>(words: seq<string>, entries: map<string, VocabInfo>, rows: seq<V>, minCount: int)
    requires Indexed(words, entries, rows) && Distinct(words)
    ensures FollowsOrder(words, Borrows(words, entries, rows, minCount))
  {
    if words != [] {
      var n := |words| - 1;
      var prefix := words[..n];
      var last := words[n];
      assert words == prefix + [last];
      BorrowsInVocabOrder(prefix, entries, rows, minCount);
      var prev := Borrows(prefix, entries, rows, minCount);
      var e := entries[last];
      if e.count < minCount {
        FollowsOrderWiden(prefix, last, prev);
      } else {
        FollowsOrderExtend(prefix, last, prev, Borrowed(last, e.count, rows[e.index]));
      }
    }
  }

  /** The output location, as the set of directories that exist. */
  class FileSystem {
    var dirs: set<string>

    constructor (dirs: set<string>)
      ensures this.dirs == dirs
    {
      this.dirs := dirs;
    }

    /** `os.path.exists`. */
    method Exists(path: string) returns (b: bool)
      ensures b <==> path in dirs
    {
      b := path in dirs;
    }

    /** `os.makedirs`. */
    method MakeDirs(path: string)
      modifies this
      ensures dirs == old(dirs) + {path}
    {
      dirs := dirs + {path};
    }
  }

  /** The vector map, as a recorder of the calls made on it. */
  class VectorMap<V> {
    const dim: int
    var calls: seq<MapCall<V>>

    constructor (dim: int)
      ensures this.dim == dim && calls == []
    {
      this.dim := dim;
      calls := [];
    }

    method Borrow(key: string, freq: int, vector: V)
      modifies this
      ensures calls == old(calls) + [Borrowed(key, freq, vector)]
    {
      calls := calls + [Borrowed(key, freq, vector)];
    }

    /** Saving writes into the directory `path`, which must exist. */
    method Save(path: string, fs: FileSystem)
      requires path in fs.dirs
      modifies this
      ensures calls == old(calls) + [Saved(path)]
    {
      calls := calls + [Saved(path)];
    }
  }

  /** The map construction and saving of `main`: the map has dimension `size`,
      receives the qualifying `borrow` calls in vocabulary order and then one
      `save`, into a directory that exists by then. */
  method BuildAndSave<V>(size: int, minCount: int, vocab: Vocab, rows: seq<V>, outPath: string, fs: FileSystem)
    returns (vectorMap: VectorMap<V>)
    requires WellFormed(vocab, rows)
    modifies fs
    ensures fresh(vectorMap) && vectorMap.dim == size
    ensures vectorMap.calls == Borrows(vocab.order, vocab.entries, rows, minCount) + [Saved(outPath)]
    ensures fs.dirs == old(fs.dirs) + {outPath}
  {
    vectorMap := new VectorMap(size);
    var words := vocab.order;
    for i := 0 to |words|
      invariant vectorMap.calls == Borrows(words[..i], vocab.entries, rows, minCount)
      invariant fs.dirs == old(fs.dirs)
    {
      assert words[..i + 1][..i] == words[..i];
      var info := vocab.entries[words[i]];
      var freq, idx := info.count, info.index;
      if freq < minCount {
        continue;
      }
      var vector := rows[idx];
      vectorMap.Borrow(words[i], freq, vector);
    }
    assert words[..|words|] == words;
    var present := fs.Exists(outPath);
    if !present {
      fs.MakeDirs(outPath);
    }
    vectorMap.Save(outPath, fs);
  }

  /** Only `borrow` calls precede the single `save`, which comes last. */
  lemma SaveComesLastAndOnce<V>(vocab: Vocab, rows: seq<V>, minCount: int, outPath: string)
    requires WellFormed(vocab, rows)
    ensures var calls := Borrows(vocab.order, vocab.entries, rows, minCount) + [Saved(outPath)];
      forall i :: 0 <= i < |calls| ==> (calls[i].Saved? <==> i == |calls| - 1)
  {
    BorrowsAreQualifyingEntries(vocab.order, vocab.entries, rows, minCount);
    var b := Borrows(vocab.order, vocab.entries, rows, minCount);
    forall i | 0 <= i < |b| ensures b[i].Borrowed? {
      assert b[i] in b;
    }
  }
}
