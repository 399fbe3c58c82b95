/**
 The text-search engine as the merge sees it. The BM25 scoring inside it is
 not modelled: the engine is a log of the configuration and the documents it
 was given, and its `search` is an oracle from a query string to a ranked,
 possibly empty list of hits.
 */
module Engine {
  import opened JsObjects

  /** One search result: a document id and its certainty (an uninterpreted relevance score). */
  datatype Hit = Hit(id: nat, certainty: real)

  /** A document handed to the engine: the fields to index and the id it is filed under. */
  datatype Doc = Doc(fields: Row, id: nat)

  /**
   The field weights the engine is configured with: every selected field, and
   each with weight 1 (`fill` supplies one weight per field, so the padding is
   never read).
   */
  function FieldWeights(selected: seq<string>): (w: map<string, nat>)
    ensures w.Keys == set f | f in selected
    ensures forall f :: f in w ==> w[f] == 1
  {
    ZipObject(selected, seq(|selected|, _ => 1), 1)
  }

  /** The search engine instance: its field weights, its documents in insertion order, and whether it was consolidated. */
  class SearchEngine {
    var weights: map<string, nat>
    var docs: seq<Doc>
    var consolidated: bool

    constructor ()
      ensures weights == map[] && docs == [] && !consolidated
    {
      weights := map[];
      docs := [];
      consolidated := false;
    }

    /** `defineConfig({ fldWeights })`. */
    method DefineConfig(fldWeights: map<string, nat>)
      modifies this
      ensures weights == fldWeights
      ensures docs == old(docs) && consolidated == old(consolidated)
    {
      weights := fldWeights;
    }

    /** `addDoc(fields, id)`: files one more document. */
    method AddDoc(fields: Row, id: nat)
      modifies this
      ensures docs == old(docs) + [Doc(fields, id)]
      ensures weights == old(weights) && consolidated == old(consolidated)
    {
      docs := docs + [Doc(fields, id)];
    }

    /** `consolidate()`: freezes the collection for searching. */
    method Consolidate()
      modifies this
      ensures consolidated
      ensures docs == old(docs) && weights == old(weights)
    {
      consolidated := true;
    }
  }

  /** The oracle answers only with ids of documents that were added. */
  ghost predicate ReturnsAddedIds(search: string -> seq<Hit>, docs: seq<Doc>)
  {
    forall q, k :: 0 <= k < |search(q)| ==> exists d :: 0 <= d < |docs| && docs[d].id == search(q)[k].id
  }
}
