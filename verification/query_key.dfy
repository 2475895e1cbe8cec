/**
 * Lookup keys of the sense2vec pipeline component.
 *
 * A token or span is looked up in the vector map under the key
 * `text-with-spaces-as-underscores | sense`, where the sense is the entity
 * type when there is one and the part-of-speech tag otherwise. Keys returned
 * by a nearest-neighbour query are decoded back into (text, sense) tuples by
 * turning every underscore into a space and splitting once at the last `|`.
 */
module QueryKey {

  datatype Option<T> = None | Some(value: T)

  /** What a spaCy token or span contributes to its key. `ownPos` is `Some` when
      the object has a `pos_` attribute of its own (a token) and `None` when it
      has none (a span), in which case the tag of its root token, `rootPos`, is
      used. An empty `entType` means "no entity type". */
  datatype TextObject = TextObject(text: string, ownPos: Option<string>, rootPos: string, entType: string)

  const SEPARATOR: char := '|'

  /** `s` with every occurrence of `from` replaced by `to` (Python's `str.replace`
      for single characters). */
  function Replace(s: string, from: char, to: char): (r: string)
    ensures |r| == |s|
    ensures forall i :: 0 <= i < |r| ==> r[i] == if s[i] == from then to else s[i]
  {
    if s == [] then [] else [if s[0] == from then to else s[0]] + Replace(s[1..], from, to)
  }

  /** The part-of-speech tag of a token or span. */
  function Pos(o: TextObject): (r: string)
    ensures o.ownPos.Some? ==> r == o.ownPos.value
    ensures o.ownPos.None? ==> r == o.rootPos
  {
    match o.ownPos
    case Some(p) => p
    case None => o.rootPos
  }

  /** The sense under which an object is looked up. */
  function Sense(o: TextObject): (r: string)
    ensures o.entType != "" ==> r == o.entType
    ensures o.entType == "" && o.ownPos.Some? ==> r == o.ownPos.value
    ensures o.entType == "" && o.ownPos.None? ==> r == o.rootPos
  {
    if o.entType != "" then o.entType else Pos(o)
  }

  /** The key an object is looked up under (`_get_query`). */
  function GetQuery(o: TextObject): (k: string)
    ensures |k| == |o.text| + 1 + |Sense(o)|
    ensures forall i :: 0 <= i < |o.text| ==> k[i] == if o.text[i] == ' ' then '_' else o.text[i]
    ensures ' ' !in k[..|o.text|]
    ensures k[|o.text|] == SEPARATOR && SEPARATOR in k
    ensures k[|o.text| + 1..] == Sense(o)
  {
    Replace(o.text, ' ', '_') + [SEPARATOR] + Sense(o)
  }

  /** The position of the last `c` in `s`, if any. */
  function LastIndexOf(s: string, c: char): (r: Option<nat>)
    ensures r.None? <==> c !in s
    ensures r.Some? ==> r.value < |s| && s[r.value] == c && c !in s[r.value + 1..]
  {
    if s == [] then None
    else if s[|s| - 1] == c then Some(|s| - 1)
    else
      var r := LastIndexOf(s[..|s| - 1], c);
      assert s[..|s| - 1] + [s[|s| - 1]] == s;
      r
  }

  /** Python's `s.rsplit(sep, 1)`: the whole string when `sep` does not occur,
      otherwise the parts before and after its last occurrence. */
  function RSplitOnce(s: string, sep: char): (parts: seq<string>)
    ensures sep !in s ==> parts == [s]
    ensures sep in s ==> |parts| == 2 && s == parts[0] + [sep] + parts[1] && sep !in parts[1]
    ensures forall j, c :: 0 <= j < |parts| && c in parts[j] ==> c in s
  {
    match LastIndexOf(s, sep)
    case None => [s]
    case Some(i) =>
      assert s == s[..i] + [sep] + s[i + 1..];
      [s[..i], s[i + 1..]]
  }

  /** The tuple a result key of `most_similar` becomes: underscores back to
      spaces, then split at the last separator. */
  function DecodeKey(word: string): (parts: seq<string>)
    ensures SEPARATOR !in word ==> |parts| == 1 && |parts[0]| == |word|
    ensures SEPARATOR in word ==> |parts| == 2 && |parts[0]| + 1 + |parts[1]| == |word| && SEPARATOR !in parts[1]
    ensures forall j :: 0 <= j < |parts| ==> '_' !in parts[j]
    ensures SEPARATOR !in word ==> parts == [Replace(word, '_', ' ')]
    ensures SEPARATOR in word ==> parts[0] + [SEPARATOR] + parts[1] == Replace(word, '_', ' ')
  {
    var spaced := Replace(word, '_', ' ');
    ReplaceKeeps(word, '_', ' ', SEPARATOR);
    ReplaceRemoves(word, '_', ' ');
    RSplitOnce(spaced, SEPARATOR)
  }

  /** A character other than the two involved occurs after a replacement
      exactly when it occurred before. */
  lemma ReplaceKeeps(s: string, from: char, to: char, c: char)
    requires c != from && c != to
    ensures c in Replace(s, from, to) <==> c in s
  {
    var r := Replace(s, from, to);
    if c in s {
      var i :| 0 <= i < |s| && s[i] == c;
      assert r[i] == c;
    }
  }

  /** The replaced character is gone after a replacement. */
  lemma ReplaceRemoves(s: string, from: char, to: char)
    requires from != to
    ensures from !in Replace(s, from, to)
  {
  }

  /** The decoded words of a `most_similar` answer paired with their scores,
      position by position, stopping at the shorter list (Python's `zip`). */
  function DecodeResults<S>(words: seq<string>, scores: seq<S>): (r: seq<(seq<string>, S)>)
    ensures |r| == if |words| <= |scores| then |words| else |scores|
    ensures forall i :: 0 <= i < |r| ==> r[i] == (DecodeKey(words[i]), scores[i])
  {
    if words == [] || scores == [] then []
    else [(DecodeKey(words[0]), scores[0])] + DecodeResults(words[1..], scores[1..])
  }

  /** Splitting `a | b` at its last separator gives back `a` and `b` whenever `b`
      has no separator, whatever `a` contains. */
  lemma SplitAtLast(a: string, b: string, sep: char)
    requires sep !in b
    ensures RSplitOnce(a + [sep] + b, sep) == [a, b]
  {
    var s := a + [sep] + b;
    assert s[|a|] == sep;
    var i := LastIndexOf(s, sep).value;
    assert s[..i] == a && s[i + 1..] == b;
  }

  /** Replacing a character that does not occur changes nothing. */
  lemma ReplaceAbsent(s: string, from: char, to: char)
    requires from !in s
    ensures Replace(s, from, to) == s
  {
    var r := Replace(s, from, to);
    assert forall i :: 0 <= i < |s| ==> r[i] == s[i];
  }

  /** Decoding a built key gives the text and the sense, each with its
      underscores turned into spaces; only the separator inside the sense
      could spoil the split. */
  lemma DecodeQuery(o: TextObject)
    requires SEPARATOR !in Sense(o)
    ensures DecodeKey(GetQuery(o)) == [Replace(o.text, '_', ' '), Replace(Sense(o), '_', ' ')]
  {
    var k := GetQuery(o);
    var t := Replace(o.text, '_', ' ');
    var u := Replace(Sense(o), '_', ' ');
    var d := Replace(k, '_', ' ');
    var n := |o.text|;
    forall i | 0 <= i < |d| ensures d[i] == (t + [SEPARATOR] + u)[i] {
      if i > n {
        assert k[i] == k[n + 1..][i - n - 1];
      }
    }
    assert d == t + [SEPARATOR] + u;
    forall j | 0 <= j < |u| ensures u[j] != SEPARATOR {
      assert Sense(o)[j] != SEPARATOR;
    }
    SplitAtLast(t, u, SEPARATOR);
  }

  /** The round trip of a key: when neither the text nor the sense contains an
      underscore and the sense contains no separator, decoding gives back exactly
      the text and the sense, even when the text contains separators. */
  lemma QueryRoundTrip(o: TextObject)
    requires '_' !in o.text && '_' !in Sense(o) && SEPARATOR !in Sense(o)
    ensures DecodeKey(GetQuery(o)) == [o.text, Sense(o)]
  {
    DecodeQuery(o);
    ReplaceAbsent(o.text, '_', ' ');
    ReplaceAbsent(Sense(o), '_', ' ');
  }

  /** The asymmetry of decoding: an underscore already present in the text
      comes back as a space, so the decoded text differs from the original. */
  lemma UnderscoreInTextIsLost(o: TextObject)
    requires '_' in o.text
    ensures |DecodeKey(GetQuery(o))| == 2 && DecodeKey(GetQuery(o))[0] != o.text
  {
  }

  /** The same holds of the sense: an entity label with underscores, such as
      WORK_OF_ART, comes back with spaces in their place. */
  lemma UnderscoreInSenseIsLost(o: TextObject)
    requires '_' in Sense(o)
    ensures |DecodeKey(GetQuery(o))| == 2 && DecodeKey(GetQuery(o))[1] != Sense(o)
  {
  }
}
