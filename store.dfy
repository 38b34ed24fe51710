/** The in-memory document store (`stored_docs` and `doc_counter`), the
    state-changing part of `ingest`, and `retrieve_top_k` without the cosine
    arithmetic: the embedding service and the similarity of two vectors are
    parameters. */
module DocStore {
  import opened Builtins
  import Chunking
  import opened Ranking

  type Vector = seq<real>

  /** The embedding service: a batch of texts to a batch of vectors. */
  type Embedder = seq<string> -> seq<Vector>

  /** The embedding service returns one vector per input text. */
  ghost predicate OneVectorPerText(embed: Embedder) {
    forall ts :: |embed(ts)| == |ts|
  }

  /** A stored document: its chunks in text order and one embedding per chunk. */
  datatype Document = Document(id: int, title: string, text: string, chunks: seq<string>, embs: seq<Vector>)

  datatype IngestReply = Ingested(docId: int, numChunks: nat) | Rejected(error: string)

  const NoTextError := "No text provided."

  /** The chunks `ingest` stores for a stripped text. */
  function ChunksOf(text: string): seq<string> {
    Chunking.Chunks(Words(text), Chunking.MaxWords, Chunking.Overlap)
  }

  /** What every stored document satisfies: its id is its position, its text
      is non-empty with no whitespace at either end (as `strip` leaves it), its
      chunks are the chunking of its text, and it has as many embeddings as
      chunks. */
  ghost predicate StoredDocs(docs: seq<Document>) {
    forall i :: 0 <= i < |docs| ==> StoredDoc(docs[i], i)
  }

  /** A document `ingest` may store at position `id`. */
  ghost predicate StoredDoc(doc: Document, id: int) {
    && doc.id == id
    && doc.text != [] && !IsSpace(doc.text[0]) && !IsSpace(doc.text[|doc.text| - 1])
    && doc.chunks == ChunksOf(doc.text) && doc.chunks != []
    && |doc.embs| == |doc.chunks|
  }

  lemma StoredDocsAppend(docs: seq<Document>, doc: Document)
    requires StoredDocs(docs) && StoredDoc(doc, |docs|)
    ensures StoredDocs(docs + [doc])
  {
    forall i | 0 <= i < |docs + [doc]| ensures StoredDoc((docs + [doc])[i], i) {
      if i < |docs| {
        assert (docs + [doc])[i] == docs[i];
        assert StoredDoc(docs[i], i);
      }
    }
  }

  /** What `ingest` builds from a stripped, non-blank text is a storable
      document: in particular its chunking is not empty. */
  lemma NewDocStored(doc: Document, id: int)
    requires doc.id == id
    requires doc.text != [] && !IsSpace(doc.text[0]) && !IsSpace(doc.text[|doc.text| - 1])
    requires doc.chunks == ChunksOf(doc.text) && |doc.embs| == |doc.chunks|
    ensures StoredDoc(doc, id)
  {
    assert !AllSpace(doc.text);
    Chunking.NoChunksIffBlank(doc.text, Chunking.MaxWords, Chunking.Overlap);
  }

  /** `ingest`'s guard: the stripped text is empty exactly when the text is
      blank, and otherwise has no whitespace at either end. */
  lemma StrippedBlank(rawText: string, text: string)
    requires text == Strip(rawText)
    ensures text == [] <==> AllSpace(rawText)
    ensures text != [] ==> !IsSpace(text[0]) && !IsSpace(text[|text| - 1])
  {
  }

  ghost predicate EmbeddingsMatch(docs: seq<Document>) {
    forall i :: 0 <= i < |docs| ==> |docs[i].embs| == |docs[i].chunks|
  }

  /** The candidates of one document, one per embedding, in chunk order. */
  function DocCandidates(doc: Document, query: Vector, sim: (Vector, Vector) -> real): (cs: seq<Candidate>)
    requires |doc.embs| == |doc.chunks|
    ensures |cs| == |doc.chunks|
  {
    seq(|doc.embs|, i requires 0 <= i < |doc.embs| => Candidate(doc.chunks[i], sim(query, doc.embs[i]), doc.id))
  }

  /** The candidates of the whole store: document order, then chunk order. */
  function AllCandidates(docs: seq<Document>, query: Vector, sim: (Vector, Vector) -> real): seq<Candidate>
    requires EmbeddingsMatch(docs)
  {
    if docs == [] then []
    else DocCandidates(docs[0], query, sim) + AllCandidates(docs[1..], query, sim)
  }

  /** The number of chunks in the store. */
  function TotalChunks(docs: seq<Document>): nat {
    if docs == [] then 0 else |docs[0].chunks| + TotalChunks(docs[1..])
  }

  /** What `retrieve_top_k` returns: nothing for an empty store; otherwise the
      query is embedded once and the best `k` candidates are kept. */
  function Retrieval(docs: seq<Document>, query: string, k: int, embed: Embedder,
                     sim: (Vector, Vector) -> real): seq<Candidate>
    requires EmbeddingsMatch(docs) && OneVectorPerText(embed)
  {
    if docs == [] then []
    else
      assert |embed([query])| == 1;
      TopK(AllCandidates(docs, embed([query])[0], sim), k)
  }

  // The candidate list.

  lemma {:induction false} AllCandidatesAppend(docs: seq<Document>, doc: Document, query: Vector,
                                               sim: (Vector, Vector) -> real)
    requires EmbeddingsMatch(docs) && |doc.embs| == |doc.chunks|
    ensures EmbeddingsMatch(docs + [doc])
    ensures AllCandidates(docs + [doc], query, sim)
         == AllCandidates(docs, query, sim) + DocCandidates(doc, query, sim)
  {
    if docs != [] {
      assert (docs + [doc])[1..] == docs[1..] + [doc];
      AllCandidatesAppend(docs[1..], doc, query, sim);
    }
  }

  /** There is one candidate per stored chunk. */
  lemma {:induction false} AllCandidatesCount(docs: seq<Document>, query: Vector, sim: (Vector, Vector) -> real)
    requires EmbeddingsMatch(docs)
    ensures |AllCandidates(docs, query, sim)| == TotalChunks(docs)
  {
    if docs != [] {
      AllCandidatesCount(docs[1..], query, sim);
    }
  }

  /** Candidate number `TotalChunks(docs[..d]) + i` is chunk `i` of document
      `d`, with that document's id and the score of that chunk's embedding. */
  lemma {:induction false} CandidateAt(docs: seq<Document>, query: Vector, sim: (Vector, Vector) -> real,
                                       d: nat, i: nat)
    requires EmbeddingsMatch(docs)
    requires d < |docs| && i < |docs[d].chunks|
    ensures var all := AllCandidates(docs, query, sim); var at := TotalChunks(docs[..d]) + i;
      at < |all| && all[at] == Candidate(docs[d].chunks[i], sim(query, docs[d].embs[i]), docs[d].id)
  {
    var head := DocCandidates(docs[0], query, sim);
    var rest := AllCandidates(docs[1..], query, sim);
    AllCandidatesCount(docs[1..], query, sim);
    if d == 0 {
      assert docs[..0] == [];
    } else {
      CandidateAt(docs[1..], query, sim, d - 1, i);
      assert docs[..d][1..] == docs[1..][..d - 1];
    }
  }

  /** Every candidate is a chunk of a stored document and carries that document's id. */
  lemma {:induction false} CandidateFromStore(docs: seq<Document>, query: Vector, sim: (Vector, Vector) -> real,
                                              c: Candidate)
    requires EmbeddingsMatch(docs)
    requires c in AllCandidates(docs, query, sim)
    ensures exists d :: 0 <= d < |docs| && c.docId == docs[d].id && c.chunk in docs[d].chunks
  {
    var head := DocCandidates(docs[0], query, sim);
    if c in head {
      var i :| 0 <= i < |head| && head[i] == c;
      assert c.chunk == docs[0].chunks[i];
    } else {
      CandidateFromStore(docs[1..], query, sim, c);
      var d :| 0 <= d < |docs[1..]| && c.docId == docs[1..][d].id && c.chunk in docs[1..][d].chunks;
      assert docs[1..][d] == docs[d + 1];
    }
  }

  /** What retrieval returns are chunks of stored documents, each tagged with its document's id. */
  lemma RetrievedFromStore(docs: seq<Document>, query: string, k: int, embed: Embedder,
                           sim: (Vector, Vector) -> real, i: nat)
    requires EmbeddingsMatch(docs) && OneVectorPerText(embed)
    requires i < |Retrieval(docs, query, k, embed, sim)|
    ensures var c := Retrieval(docs, query, k, embed, sim)[i];
      exists d :: 0 <= d < |docs| && c.docId == docs[d].id && c.chunk in docs[d].chunks
  {
    assert |embed([query])| == 1;
    var q := embed([query])[0];
    var all := AllCandidates(docs, q, sim);
    var c := Retrieval(docs, query, k, embed, sim)[i];
    SliceFrom(SortDesc(all), 0, k, i);
    SortDescPermutes(all);
    assert c in multiset(SortDesc(all));
    assert c in all;
    CandidateFromStore(docs, q, sim, c);
  }

  class DocumentStore {
    var docs: seq<Document>
    var counter: int

    ghost predicate Valid()
      reads this
    {
      counter == |docs| && StoredDocs(docs)
    }

    /** The store at process start: no documents, counter 0. */
    constructor ()
      ensures Valid() && docs == [] && counter == 0
    {
      docs := [];
      counter := 0;
    }

    /** `ingest`: a text that is blank after stripping is rejected and nothing
        changes; otherwise the stripped text is chunked and embedded and the
        document is appended under the old counter, which then goes up by one. */
    method Ingest(rawText: string, title: string, embed: Embedder) returns (reply: IngestReply)
      requires Valid() && OneVectorPerText(embed)
      modifies this
      ensures Valid()
      ensures AllSpace(rawText) ==>
        reply == Rejected(NoTextError) && docs == old(docs) && counter == old(counter)
      ensures !AllSpace(rawText) ==>
        var text := Strip(rawText);
        var chunks := ChunksOf(text);
        && chunks != []
        && reply == Ingested(old(counter), |chunks|)
        && docs == old(docs) + [Document(old(counter), title, text, chunks, embed(chunks))]
        && counter == old(counter) + 1
    {
      var text := Strip(rawText);
      StrippedBlank(rawText, text);
      if text == [] {
        return Rejected(NoTextError);
      }
      var doc := NewDocument(text, title, counter, embed);
      Append(doc);
      reply := Ingested(doc.id, |doc.chunks|);
    }

    /** The state change of `ingest`: `stored_docs.append(doc)` and
        `doc_counter += 1`, which keeps the class invariant. */
    method Append(doc: Document)
      requires Valid() && StoredDoc(doc, counter)
      modifies this
      ensures Valid()
      ensures docs == old(docs) + [doc] && counter == old(counter) + 1
    {
      StoredDocsAppend(docs, doc);
      docs := docs + [doc];
      counter := counter + 1;
    }

    /** `retrieve_top_k`: the empty store gives nothing; otherwise one
        candidate per stored chunk, in document then chunk order, stably
        sorted by score, best first, cut to `[:k]`. */
    method RetrieveTopK(query: string, k: int, embed: Embedder, sim: (Vector, Vector) -> real)
      returns (top: seq<Candidate>)
      requires Valid() && OneVectorPerText(embed)
      ensures top == Retrieval(docs, query, k, embed, sim)
      ensures docs == [] ==> top == []
      ensures k >= 0 ==> |top| == if k < TotalChunks(docs) then k else TotalChunks(docs)
      ensures NonIncreasing(top)
    {
      assert EmbeddingsMatch(docs);
      RetrievalFacts(docs, query, k, embed, sim);
      if |docs| == 0 {
        return [];
      }
      assert |embed([query])| == 1;
      var q := embed([query])[0];
      var candidates := CollectCandidates(docs, q, sim);
      var ranked := SortDesc(candidates);
      top := Slice(ranked, 0, k);
    }
  }

  /** The document `ingest` builds from a stripped, non-blank text: the text is
      chunked with the defaults and every chunk is embedded. */
  method NewDocument(text: string, title: string, id: int, embed: Embedder) returns (doc: Document)
    requires text != [] && !IsSpace(text[0]) && !IsSpace(text[|text| - 1])
    requires OneVectorPerText(embed)
    ensures doc == Document(id, title, text, ChunksOf(text), embed(ChunksOf(text)))
    ensures StoredDoc(doc, id)
  {
    var chunks := Chunking.ChunkText(text, Chunking.MaxWords, Chunking.Overlap);
    var embs := embed(chunks);
    doc := Document(id, title, text, chunks, embs);
    NewDocStored(doc, id);
  }

  /** The nested loops of `retrieve_top_k`: for each document, for each of its
      chunk embeddings, one scored candidate. */
  method CollectCandidates(docs: seq<Document>, q: Vector, sim: (Vector, Vector) -> real)
    returns (candidates: seq<Candidate>)
    requires EmbeddingsMatch(docs)
    ensures candidates == AllCandidates(docs, q, sim)
  {
    candidates := [];
    for d := 0 to |docs|
      invariant candidates == AllCandidates(docs[..d], q, sim)
    {
      var doc := docs[d];
      for i := 0 to |doc.embs|
        invariant candidates == AllCandidates(docs[..d], q, sim) + DocCandidates(doc, q, sim)[..i]
      {
        candidates := candidates + [Candidate(doc.chunks[i], sim(q, doc.embs[i]), doc.id)];
      }
      assert docs[..d + 1] == docs[..d] + [doc];
      AllCandidatesAppend(docs[..d], doc, q, sim);
    }
    assert docs[..|docs|] == docs;
  }

  /** Retrieval returns nothing for an empty store, `min(k, chunks stored)`
      candidates for `k >= 0`, and them best first. */
  lemma RetrievalFacts(docs: seq<Document>, query: string, k: int, embed: Embedder,
                       sim: (Vector, Vector) -> real)
    requires EmbeddingsMatch(docs) && OneVectorPerText(embed)
    ensures docs == [] ==> Retrieval(docs, query, k, embed, sim) == []
    ensures var n := TotalChunks(docs);
      k >= 0 ==> |Retrieval(docs, query, k, embed, sim)| == if k < n then k else n
    ensures NonIncreasing(Retrieval(docs, query, k, embed, sim))
  {
    if docs != [] {
      assert |embed([query])| == 1;
      var q := embed([query])[0];
      var candidates := AllCandidates(docs, q, sim);
      AllCandidatesCount(docs, q, sim);
      TopKLength(candidates, k);
      TopKPrefix(candidates, k);
    }
  }

  /** Two ingests of non-blank texts into a fresh store get ids 0 and 1, in call order. */
  method IngestTwice(text1: string, text2: string, title1: string, title2: string, embed: Embedder)
    returns (reply1: IngestReply, reply2: IngestReply)
    requires !AllSpace(text1) && !AllSpace(text2) && OneVectorPerText(embed)
    ensures reply1.Ingested? && reply1.docId == 0
    ensures reply2.Ingested? && reply2.docId == 1
  {
    var store := new DocumentStore();
    reply1 := store.Ingest(text1, title1, embed);
    reply2 := store.Ingest(text2, title2, embed);
  }
}
