/**
 * The spaCy pipeline component: `transform_doc`, which merges entities and
 * trimmed noun chunks, and `Sense2VecComponent`, whose `first_run` flag makes
 * the attribute set-up run on the first document only.
 */
module Component {

  import opened NounChunk

  /** A span of a document, by the dependency labels of its tokens. */
  type Span = seq<Label>

  /** A spaCy document, reduced to what the component reads and does to it:
      whether it has a first token (`len(doc) > 0`), its entity spans, its noun
      chunks, and the spans merged into single tokens so far, in the order they
      were merged. A document without tokens has no entities and no chunks. */
  class Doc {
    const hasTokens: bool
    const ents: seq<Span>
    const nounChunks: seq<Span>
    var merged: seq<Span>

    constructor (hasTokens: bool, ents: seq<Span>, nounChunks: seq<Span>)
      requires !hasTokens ==> ents == [] && nounChunks == []
      ensures this.hasTokens == hasTokens && this.ents == ents && this.nounChunks == nounChunks
      ensures merged == []
    {
      this.hasTokens := hasTokens;
      this.ents := ents;
      this.nounChunks := nounChunks;
      merged := [];
    }

    /** `Span.merge`: the span becomes one token of the document. */
    method Merge(span: Span)
      modifies this
      ensures merged == old(merged) + [span]
    {
      merged := merged + [span];
    }
  }

  /** The spans `transform_doc` merges for a list of noun chunks: each chunk
      trimmed, in the chunks' order. */
  function TrimmedChunks(chunks: seq<Span>): (r: seq<Span>)
    ensures |r| == |chunks|
    ensures forall i :: 0 <= i < |r| ==> r[i] == Trimmed(chunks[i]) && Stops(r[i])
    ensures forall i :: 0 <= i < |r| ==> chunks[i] != [] ==> r[i] != []
  {
    if chunks == [] then []
    else
      TrimmedIsStoppedSuffix(chunks[0]);
      [Trimmed(chunks[0])] + TrimmedChunks(chunks[1..])
  }

  /** Trimming one more chunk appends its trimmed span. */
  lemma TrimmedChunksAppend(chunks: seq<Span>, i: nat)
    requires i < |chunks|
    ensures TrimmedChunks(chunks[..i + 1]) == TrimmedChunks(chunks[..i]) + [Trimmed(chunks[i])]
  {
    var a := TrimmedChunks(chunks[..i + 1]);
    var b := TrimmedChunks(chunks[..i]) + [Trimmed(chunks[i])];
    assert forall k :: 0 <= k < |a| ==> a[k] == b[k];
  }

  /** The trimming loop run on one noun chunk, seen only through the function
      that specifies it. */
  method TrimOne(chunk: Span) returns (np: Span)
    ensures np == Trimmed(chunk)
  {
    np := TrimChunk(chunk);
  }

  /** `transform_doc`: every entity is merged as it is, then every noun chunk
      after trimming; the same document is returned. */
  method TransformDoc(doc: Doc) returns (r: Doc)
    modifies doc
    ensures r == doc
    ensures doc.merged == old(doc.merged) + doc.ents + TrimmedChunks(doc.nounChunks)
  {
    var ents, chunks := doc.ents, doc.nounChunks;
    for i := 0 to |ents|
      invariant doc.merged == old(doc.merged) + ents[..i]
    {
      assert ents[..i + 1] == ents[..i] + [ents[i]];
      doc.Merge(ents[i]);
    }
    assert ents[..|ents|] == ents;
    ghost var before := doc.merged;
    for i := 0 to |chunks|
      invariant doc.merged == before + TrimmedChunks(chunks[..i])
    {
      var np := TrimOne(chunks[i]);
      TrimmedChunksAppend(chunks, i);
      doc.Merge(np);
    }
    assert chunks[..|chunks|] == chunks;
    r := doc;
  }

  /** What a call of the component gives back: the transformed document, or the
      IndexError raised when the set-up reads the first token of an empty one. */
  datatype CallResult = Returned(doc: Doc) | IndexError

  class Sense2VecComponent {
    /** True until the first document has gone through the set-up. */
    var firstRun: bool
    /** How many times `init_component` has registered the extension attributes. */
    var initRuns: nat

    /** The set-up has run exactly once once the flag is down, never before. */
    ghost predicate Valid()
      reads this
    {
      initRuns == if firstRun then 0 else 1
    }

    constructor ()
      ensures Valid() && firstRun && initRuns == 0
    {
      firstRun := true;
      initRuns := 0;
    }

    /** `init_component`: looks up the classes of the document, of its first
        token and of its first span, then registers the extension attributes. */
    method InitComponent(doc: Doc) returns (ok: bool)
      modifies this`initRuns
      ensures ok == doc.hasTokens
      ensures initRuns == old(initRuns) + (if ok then 1 else 0)
    {
      if !doc.hasTokens {
        return false;
      }
      initRuns := initRuns + 1;
      ok := true;
    }

    /** `__call__`: the set-up on the first successful call only, then the
        document transformation on every call. */
    method Call(doc: Doc) returns (r: CallResult)
      requires Valid()
      modifies this, doc
      ensures Valid()
      ensures old(firstRun) && !doc.hasTokens ==>
        r == IndexError && firstRun && initRuns == old(initRuns) && doc.merged == old(doc.merged)
      ensures !(old(firstRun) && !doc.hasTokens) ==>
        && r == Returned(doc)
        && !firstRun
        && initRuns == (if old(firstRun) then old(initRuns) + 1 else old(initRuns))
        && doc.merged == old(doc.merged) + doc.ents + TrimmedChunks(doc.nounChunks)
    {
      if firstRun {
        var ok := InitComponent(doc);
        if !ok {
          return IndexError;
        }
        firstRun := false;
      }
      var d := TransformDoc(doc);
      r := Returned(d);
    }
  }

  /** A component used on two documents after construction registers the
      extensions once and transforms both documents; the same document passed
      twice is transformed twice. */
  method CallTwice(d1: Doc, d2: Doc) returns (c: Sense2VecComponent, r1: CallResult, r2: CallResult)
    requires d1.hasTokens
    modifies d1, d2
    ensures fresh(c) && c.initRuns == 1 && !c.firstRun
    ensures r1 == Returned(d1) && r2 == Returned(d2)
    ensures d1 != d2 ==>
      && d1.merged == old(d1.merged) + d1.ents + TrimmedChunks(d1.nounChunks)
      && d2.merged == old(d2.merged) + d2.ents + TrimmedChunks(d2.nounChunks)
    ensures d1 == d2 ==>
      d1.merged == old(d1.merged) + d1.ents + TrimmedChunks(d1.nounChunks) + d1.ents + TrimmedChunks(d1.nounChunks)
  {
    c := new Sense2VecComponent();
    r1 := c.Call(d1);
    r2 := c.Call(d2);
  }
}
