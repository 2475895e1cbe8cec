/**
 * The trimming rule `transform_doc` applies to every noun chunk before merging
 * it: leading tokens are dropped one at a time while the chunk is longer than
 * one token and its first token's dependency label is not one of the labels
 * that modify the head (advmod, amod, compound). A chunk is modelled by the
 * sequence of its tokens' dependency labels.
 */
module NounChunk {

  type Label = string

  /** The dependency labels that keep a leading token in the chunk. */
  predicate Anchors(dep: Label) {
    dep == "advmod" || dep == "amod" || dep == "compound"
  }

  /** The condition under which the trimming loop stops. */
  predicate Stops(np: seq<Label>) {
    |np| <= 1 || Anchors(np[0])
  }

  /** What trimming leaves of a chunk. */
  function Trimmed(np: seq<Label>): seq<Label>
  {
    if Stops(np) then np else Trimmed(np[1..])
  }

  /** Trimming yields a suffix of the chunk, non-empty when the chunk is, at
      which the loop condition fails, and every label it drops is one that does
      not anchor a token. */
  lemma {:induction false} TrimmedIsStoppedSuffix(np: seq<Label>)
    ensures |Trimmed(np)| <= |np| && Trimmed(np) == np[|np| - |Trimmed(np)|..]
    ensures np != [] ==> |Trimmed(np)| >= 1
    ensures Stops(Trimmed(np))
    ensures forall i :: 0 <= i < |np| - |Trimmed(np)| ==> !Anchors(np[i])
  {
    if !Stops(np) {
      TrimmedIsStoppedSuffix(np[1..]);
    }
  }

  /** Trimming a trimmed chunk changes nothing. */
  lemma {:induction false} TrimmedIdempotent(np: seq<Label>)
    ensures Trimmed(Trimmed(np)) == Trimmed(np)
  {
    TrimmedIsStoppedSuffix(np);
  }

  /** The suffix characterised by the loop's exit condition is unique: a suffix
      at which the loop stops, reached by dropping only non-anchoring labels (and
      not everything), is the trimmed chunk. */
  lemma {:induction false} TrimmedUnique(np: seq<Label>, k: nat)
    requires k <= |np| && (np != [] ==> k < |np|)
    requires Stops(np[k..])
    requires forall i :: 0 <= i < k ==> !Anchors(np[i])
    ensures Trimmed(np) == np[k..]
  {
    if k > 0 {
      assert !Stops(np);
      assert np[1..][k - 1..] == np[k..];
      TrimmedUnique(np[1..], k - 1);
    }
  }

  /** The `while` loop of `transform_doc`, which reassigns the chunk to its
      tail until the stop condition holds. */
  method TrimChunk(chunk: seq<Label>) returns (np: seq<Label>)
    ensures np == Trimmed(chunk)
    ensures |np| <= |chunk| && np == chunk[|chunk| - |np|..]
    ensures chunk != [] ==> |np| >= 1
    ensures Stops(np)
    ensures forall i :: 0 <= i < |chunk| - |np| ==> !Anchors(chunk[i])
  {
    np := chunk;
    while |np| > 1 && !Anchors(np[0])
      invariant |np| <= |chunk| && np == chunk[|chunk| - |np|..]
      invariant chunk != [] ==> np != []
      invariant forall i :: 0 <= i < |chunk| - |np| ==> !Anchors(chunk[i])
      invariant Trimmed(np) == Trimmed(chunk)
      decreases |np|
    {
      np := np[1..];
    }
  }
}
