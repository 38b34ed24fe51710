/** The decision logic of `chat` before the language model is called: the
    empty-question guard, retrieval of the five best chunks, and the source
    section of the prompt built from them. Score formatting is a parameter. */
module Chat {
  import opened Builtins
  import opened Ranking
  import opened DocStore

  const NoQuestionError := "No question provided."
  const NoDocumentsSource := "No documents ingested."
  const RetrievedHeader := "\n\n" + "--- Retrieved Chunks (most relevant first) ---" + "\n\n"

  /** `chat` asks `retrieve_top_k` for this many chunks. */
  const ChatTopK := 5

  /** What `chat` decides before the model is called: a rejection, or the
      question, style and source section the prompt is made of, together with
      the retrieved chunks returned beside the answer. */
  datatype ChatPlan =
    | QuestionRejected(error: string)
    | Ask(question: string, style: string, source: string, retrieved: seq<Candidate>)

  /** One retrieved chunk in the source section: its formatted score, the
      chunk, and a blank line. */
  function Entry(c: Candidate, fmt: real -> string): string {
    "[score " + fmt(c.score) + "] " + c.chunk + "\n\n"
  }

  /** The entries of `rs`, in the order of `rs`. */
  function Entries(rs: seq<Candidate>, fmt: real -> string): string {
    if rs == [] then "" else Entries(rs[..|rs| - 1], fmt) + Entry(rs[|rs| - 1], fmt)
  }

  /** The source section: the header and one entry per retrieved chunk, or the
      fixed notice when nothing was retrieved. */
  function SourceSection(retrieved: seq<Candidate>, fmt: real -> string): string {
    if retrieved == [] then NoDocumentsSource else RetrievedHeader + Entries(retrieved, fmt)
  }

  /** The entries of a prefix of `rs` begin the entries of `rs`. */
  lemma {:induction false} EntriesPrefix(rs: seq<Candidate>, fmt: real -> string, j: nat)
    requires j <= |rs|
    ensures Entries(rs[..j], fmt) <= Entries(rs, fmt)
    decreases |rs|
  {
    if j < |rs| {
      var init := rs[..|rs| - 1];
      assert init[..j] == rs[..j];
      EntriesPrefix(init, fmt, j);
      assert Entries(rs, fmt) == Entries(init, fmt) + Entry(rs[|rs| - 1], fmt);
    } else {
      assert rs[..j] == rs;
    }
  }

  /** Chunk `i` is written right after chunks `0..i-1`: the section lists the
      chunks in retrieval order, most relevant first. */
  lemma SourceLists(retrieved: seq<Candidate>, fmt: real -> string, i: nat)
    requires i < |retrieved|
    ensures RetrievedHeader + (Entries(retrieved[..i], fmt) + Entry(retrieved[i], fmt))
         <= SourceSection(retrieved, fmt)
  {
    var upTo := retrieved[..i + 1];
    assert upTo[..|upTo| - 1] == retrieved[..i];
    assert Entries(upTo, fmt) == Entries(retrieved[..i], fmt) + Entry(retrieved[i], fmt);
    EntriesPrefix(retrieved, fmt, i + 1);
    PrefixAfter(RetrievedHeader, Entries(upTo, fmt), Entries(retrieved, fmt));
  }

  lemma PrefixAfter(a: string, b: string, c: string)
    requires b <= c
    ensures a + b <= a + c
  {
    assert (a + c)[..|a + b|] == a + c[..|b|];
  }

  /** The section is the fixed notice exactly when nothing was retrieved. */
  lemma NoticeIffNothingRetrieved(retrieved: seq<Candidate>, fmt: real -> string)
    ensures SourceSection(retrieved, fmt) == NoDocumentsSource <==> retrieved == []
  {
    if retrieved != [] {
      var section := SourceSection(retrieved, fmt);
      assert section == RetrievedHeader + Entries(retrieved, fmt);
      assert section[0] == RetrievedHeader[0];
      assert NoDocumentsSource[0] == 'N';
    }
  }

  /** The `source_text` loop: the header, then `+=` one entry per chunk. */
  method BuildSource(retrieved: seq<Candidate>, fmt: real -> string) returns (source: string)
    ensures source == SourceSection(retrieved, fmt)
  {
    if retrieved != [] {
      source := RetrievedHeader;
      for i := 0 to |retrieved|
        invariant source == RetrievedHeader + Entries(retrieved[..i], fmt)
      {
        var r := retrieved[i];
        source := source + ("[score " + fmt(r.score) + "] " + r.chunk + "\n\n");
        assert retrieved[..i + 1][..i] == retrieved[..i];
      }
      assert retrieved[..|retrieved|] == retrieved;
    } else {
      source := NoDocumentsSource;
    }
  }

  /** `chat`: a question that is blank after stripping is rejected, and every
      other question is asked; in that case
      the stripped question retrieves the five best chunks and the source
      section is built from them. The section is the fixed notice exactly when
      the store is empty. */
  method Chat(store: DocumentStore, rawQuestion: string, style: string, embed: Embedder,
              sim: (Vector, Vector) -> real, fmt: real -> string) returns (plan: ChatPlan)
    requires store.Valid() && OneVectorPerText(embed)
    ensures AllSpace(rawQuestion) <==> plan == QuestionRejected(NoQuestionError)
    ensures AllSpace(rawQuestion) || plan.Ask?
    ensures plan.Ask? ==>
      && plan.question == Strip(rawQuestion) && plan.style == style
      && plan.retrieved == Retrieval(store.docs, Strip(rawQuestion), ChatTopK, embed, sim)
      && plan.source == SourceSection(plan.retrieved, fmt)
    ensures plan.Ask? ==> (plan.source == NoDocumentsSource <==> store.docs == [])
    ensures plan.Ask? ==> var n := TotalChunks(store.docs);
      |plan.retrieved| == if n < ChatTopK then n else ChatTopK
  {
    var question := Strip(rawQuestion);
    if question == [] {
      return QuestionRejected(NoQuestionError);
    }
    var retrieved := store.RetrieveTopK(question, ChatTopK, embed, sim);
    var source := BuildSource(retrieved, fmt);
    NoticeIffNothingRetrieved(retrieved, fmt);
    if store.docs != [] {
      assert StoredDoc(store.docs[0], 0);
    }
    plan := Ask(question, style, source, retrieved);
  }
}
