/** `EmbeddingsManager` (src/embeddings.py): the filter that turns the text
    splitter's raw chunks into documents (strip, drop short chunks, drop exact
    duplicates by digest, attach provenance) and the refusal to build an index
    from no documents.

    The splitter's output is an input (`rawChunks`), and the MD5 hex digest is
    an arbitrary function `digest` from text to text. */
module Embeddings {
  import opened Text

  /** Stripped chunks shorter than this are dropped. */
  const MinChunkLength := 50

  const NoChunksMessage := "No valid chunks created"

  /** The keys of `crawled_data` that chunking reads. */
  datatype CrawledPage = CrawledPage(url: string, title: string, content: string)

  /** A LangChain `Document`: its `page_content` and its three metadata keys. */
  datatype Document = Document(text: string, sourceUrl: string, pageTitle: string, chunkIndex: nat)

  /** The digests of the documents' texts (`seen_hashes`). */
  function Digests(docs: seq<Document>, digest: string -> string): (hashes: set<string>)
    ensures forall k :: 0 <= k < |docs| ==> digest(docs[k].text) in hashes
  {
    set k | 0 <= k < |docs| :: digest(docs[k].text)
  }

  lemma DigestsAppend(docs: seq<Document>, d: Document, digest: string -> string)
    ensures Digests(docs + [d], digest) == Digests(docs, digest) + {digest(d.text)}
  {
    var all := docs + [d];
    assert digest(d.text) == digest(all[|docs|].text);
    forall h | h in Digests(all, digest) ensures h in Digests(docs, digest) + {digest(d.text)} {
      var k :| 0 <= k < |all| && h == digest(all[k].text);
      if k < |docs| { assert all[k] == docs[k]; }
    }
    forall h | h in Digests(docs, digest) ensures h in Digests(all, digest) {
      var k :| 0 <= k < |docs| && h == digest(docs[k].text);
      assert all[k] == docs[k];
    }
  }

  /** The documents `create_chunks` emits for raw chunks `raw`: chunk `i` is
      emitted, stripped, when it is long enough and its digest is not among
      those of the documents emitted before it. */
  function FilterChunks(raw: seq<string>, url: string, title: string, digest: string -> string)
    : (docs: seq<Document>)
    ensures |docs| <= |raw|
    ensures Emitted(docs, raw, url, title)
    ensures Ascending(docs)
    ensures DistinctDigests(docs, digest)
    decreases |raw|
  {
    if raw == [] then []
    else
      var kept := FilterChunks(raw[..|raw| - 1], url, title, digest);
      var chunk := Strip(raw[|raw| - 1]);
      PrefixEmitted(raw, kept, url, title);
      if |chunk| < MinChunkLength || digest(chunk) in Digests(kept, digest) then kept
      else
        var doc := Document(chunk, url, title, |raw| - 1);
        AppendEmitted(raw, kept, doc, url, title, digest);
        kept + [doc]
  }

  /** Each document is its raw chunk stripped, long enough, with the page's provenance. */
  predicate Emitted(docs: seq<Document>, raw: seq<string>, url: string, title: string) {
    forall k :: 0 <= k < |docs| ==>
      docs[k].chunkIndex < |raw| && docs[k].text == Strip(raw[docs[k].chunkIndex]) &&
      |docs[k].text| >= MinChunkLength && docs[k].sourceUrl == url && docs[k].pageTitle == title
  }

  /** The raw positions of the documents strictly increase. */
  predicate Ascending(docs: seq<Document>) {
    forall j, k :: 0 <= j < k < |docs| ==> docs[j].chunkIndex < docs[k].chunkIndex
  }

  /** No two documents share a digest. */
  predicate DistinctDigests(docs: seq<Document>, digest: string -> string) {
    forall j, k :: 0 <= j < k < |docs| ==> digest(docs[j].text) != digest(docs[k].text)
  }

  /** Documents emitted for a prefix of `raw` are emitted for `raw`. */
  lemma PrefixEmitted(raw: seq<string>, docs: seq<Document>, url: string, title: string)
    requires raw != [] && Emitted(docs, raw[..|raw| - 1], url, title)
    ensures Emitted(docs, raw, url, title)
    ensures forall k :: 0 <= k < |docs| ==> docs[k].chunkIndex < |raw| - 1
  {
    forall k | 0 <= k < |docs| ensures docs[k].text == Strip(raw[docs[k].chunkIndex]) {
      assert raw[..|raw| - 1][docs[k].chunkIndex] == raw[docs[k].chunkIndex];
    }
  }

  /** Appending the last raw chunk, when it is new, keeps all three properties. */
  lemma AppendEmitted(raw: seq<string>, docs: seq<Document>, doc: Document, url: string, title: string,
                      digest: string -> string)
    requires raw != [] && Emitted(docs, raw, url, title) && Ascending(docs) && DistinctDigests(docs, digest)
    requires forall k :: 0 <= k < |docs| ==> docs[k].chunkIndex < |raw| - 1
    requires doc == Document(Strip(raw[|raw| - 1]), url, title, |raw| - 1)
    requires |doc.text| >= MinChunkLength && digest(doc.text) !in Digests(docs, digest)
    ensures Emitted(docs + [doc], raw, url, title)
    ensures Ascending(docs + [doc])
    ensures DistinctDigests(docs + [doc], digest)
  {
    var all := docs + [doc];
    forall k | 0 <= k < |all|
      ensures all[k].chunkIndex < |raw| && all[k].text == Strip(raw[all[k].chunkIndex])
      ensures |all[k].text| >= MinChunkLength && all[k].sourceUrl == url && all[k].pageTitle == title
    {
      if k < |docs| { assert all[k] == docs[k]; }
    }
    AppendAscending(docs, doc);
    AppendDistinct(docs, doc, digest);
  }

  lemma AppendAscending(docs: seq<Document>, doc: Document)
    requires Ascending(docs) && forall k :: 0 <= k < |docs| ==> docs[k].chunkIndex < doc.chunkIndex
    ensures Ascending(docs + [doc])
  {
    var all := docs + [doc];
    forall j, k | 0 <= j < k < |all| ensures all[j].chunkIndex < all[k].chunkIndex {
      assert all[j] == docs[j];
      if k < |docs| { assert all[k] == docs[k]; }
    }
  }

  lemma AppendDistinct(docs: seq<Document>, doc: Document, digest: string -> string)
    requires DistinctDigests(docs, digest) && digest(doc.text) !in Digests(docs, digest)
    ensures DistinctDigests(docs + [doc], digest)
  {
    var all := docs + [doc];
    forall j, k | 0 <= j < k < |all| ensures digest(all[j].text) != digest(all[k].text) {
      assert all[j] == docs[j];
      if k < |docs| { assert all[k] == docs[k]; }
    }
  }

  /** Two emitted documents never have the same text. */
  lemma DistinctTexts(raw: seq<string>, url: string, title: string, digest: string -> string, j: nat, k: nat)
    requires j < k < |FilterChunks(raw, url, title, digest)|
    ensures FilterChunks(raw, url, title, digest)[j].text != FilterChunks(raw, url, title, digest)[k].text
  {
  }

  /** The digests of the long-enough raw chunks. */
  function QualifyingDigests(raw: seq<string>, digest: string -> string): set<string> {
    set i | 0 <= i < |raw| && |Strip(raw[i])| >= MinChunkLength :: digest(Strip(raw[i]))
  }

  /** The qualifying digests of `raw` are those of its prefix plus the last chunk's. */
  lemma QualifyingDigestsLast(raw: seq<string>, digest: string -> string)
    requires raw != []
    ensures var last := Strip(raw[|raw| - 1]);
            QualifyingDigests(raw, digest) ==
              QualifyingDigests(raw[..|raw| - 1], digest) + if |last| >= MinChunkLength then {digest(last)} else {}
  {
    QualifyingFromPrefixOrLast(raw, digest);
    QualifyingPrefixIncluded(raw, digest);
    var chunk := Strip(raw[|raw| - 1]);
    if |chunk| >= MinChunkLength {
      assert digest(chunk) in QualifyingDigests(raw, digest);
    }
  }

  lemma QualifyingFromPrefixOrLast(raw: seq<string>, digest: string -> string)
    requires raw != []
    ensures forall h :: h in QualifyingDigests(raw, digest) ==>
              h in QualifyingDigests(raw[..|raw| - 1], digest) || h == digest(Strip(raw[|raw| - 1]))
  {
    var n := |raw| - 1;
    var prefix := raw[..n];
    forall h | h in QualifyingDigests(raw, digest)
      ensures h in QualifyingDigests(prefix, digest) || h == digest(Strip(raw[n]))
    {
      var i := QualifyingWitness(raw, digest, h);
      if i < n {
        assert prefix[i] == raw[i];
        QualifyingMember(prefix, digest, i);
      }
    }
  }

  lemma QualifyingWitness(raw: seq<string>, digest: string -> string, h: string) returns (i: nat)
    requires h in QualifyingDigests(raw, digest)
    ensures i < |raw| && |Strip(raw[i])| >= MinChunkLength && h == digest(Strip(raw[i]))
  {
    i :| 0 <= i < |raw| && |Strip(raw[i])| >= MinChunkLength && h == digest(Strip(raw[i]));
  }

  lemma QualifyingMember(raw: seq<string>, digest: string -> string, i: nat)
    requires i < |raw| && |Strip(raw[i])| >= MinChunkLength
    ensures digest(Strip(raw[i])) in QualifyingDigests(raw, digest)
  {
  }

  lemma QualifyingPrefixIncluded(raw: seq<string>, digest: string -> string)
    requires raw != []
    ensures QualifyingDigests(raw[..|raw| - 1], digest) <= QualifyingDigests(raw, digest)
  {
    var prefix := raw[..|raw| - 1];
    forall h | h in QualifyingDigests(prefix, digest)
      ensures h in QualifyingDigests(raw, digest)
    {
      var i :| 0 <= i < |prefix| && |Strip(prefix[i])| >= MinChunkLength && h == digest(Strip(prefix[i]));
      assert prefix[i] == raw[i];
    }
  }

  /** Completeness: every digest of a long-enough raw chunk is the digest of
      an emitted document, and no other digest is. */
  lemma {:induction false} FilterKeepsEveryDigest(raw: seq<string>, url: string, title: string, digest: string -> string)
    ensures Digests(FilterChunks(raw, url, title, digest), digest) == QualifyingDigests(raw, digest)
    decreases |raw|
  {
    if raw != [] {
      var n := |raw| - 1;
      var prefix := raw[..n];
      FilterKeepsEveryDigest(prefix, url, title, digest);
      QualifyingDigestsLast(raw, digest);
      var kept := FilterChunks(prefix, url, title, digest);
      var chunk := Strip(raw[n]);
      if |chunk| < MinChunkLength {
        assert FilterChunks(raw, url, title, digest) == kept;
      } else if digest(chunk) in Digests(kept, digest) {
        assert FilterChunks(raw, url, title, digest) == kept;
      } else {
        var doc := Document(chunk, url, title, n);
        assert FilterChunks(raw, url, title, digest) == kept + [doc];
        DigestsAppend(kept, doc, digest);
      }
    }
  }

  /** Among chunks with the same digest, the first long-enough one is the one
      emitted: no long-enough raw chunk before an emitted document shares its digest. */
  lemma {:induction false} FilterKeepsFirst(raw: seq<string>, url: string, title: string, digest: string -> string)
    ensures var docs := FilterChunks(raw, url, title, digest);
            forall k, j :: 0 <= k < |docs| && 0 <= j < docs[k].chunkIndex &&
                           |Strip(raw[j])| >= MinChunkLength ==>
                             digest(Strip(raw[j])) != digest(docs[k].text)
    decreases |raw|
  {
    if raw != [] {
      var n := |raw| - 1;
      var prefix := raw[..n];
      FilterKeepsFirst(prefix, url, title, digest);
      FilterKeepsEveryDigest(prefix, url, title, digest);
      var kept := FilterChunks(prefix, url, title, digest);
      var docs := FilterChunks(raw, url, title, digest);
      forall k, j | 0 <= k < |docs| && 0 <= j < docs[k].chunkIndex && |Strip(raw[j])| >= MinChunkLength
        ensures digest(Strip(raw[j])) != digest(docs[k].text)
      {
        assert prefix[j] == raw[j];
        if k == |kept| {
          assert digest(Strip(prefix[j])) in QualifyingDigests(prefix, digest);
        } else {
          assert docs[k] == kept[k];
        }
      }
    }
  }

  /** A long-enough raw chunk is left out only when a document emitted
      before it has the same digest. */
  lemma DroppedOnlyAsDuplicate(raw: seq<string>, url: string, title: string, digest: string -> string, i: nat)
    requires i < |raw| && |Strip(raw[i])| >= MinChunkLength
    requires forall k :: 0 <= k < |FilterChunks(raw, url, title, digest)| ==>
               FilterChunks(raw, url, title, digest)[k].chunkIndex != i
    ensures exists k :: 0 <= k < |FilterChunks(raw, url, title, digest)| &&
              FilterChunks(raw, url, title, digest)[k].chunkIndex < i &&
              digest(FilterChunks(raw, url, title, digest)[k].text) == digest(Strip(raw[i]))
  {
    var docs := FilterChunks(raw, url, title, digest);
    FilterKeepsEveryDigest(raw, url, title, digest);
    FilterKeepsFirst(raw, url, title, digest);
    assert digest(Strip(raw[i])) in QualifyingDigests(raw, digest);
    var k :| 0 <= k < |docs| && digest(docs[k].text) == digest(Strip(raw[i]));
    assert docs[k].chunkIndex < i;
  }

  /** With an injective digest, deduplication is on the text itself: a
      long-enough chunk is left out only when an earlier document has its text. */
  lemma DroppedOnlyAsRepeatedText(raw: seq<string>, url: string, title: string, digest: string -> string, i: nat)
    requires forall a, b :: digest(a) == digest(b) ==> a == b
    requires i < |raw| && |Strip(raw[i])| >= MinChunkLength
    requires forall k :: 0 <= k < |FilterChunks(raw, url, title, digest)| ==>
               FilterChunks(raw, url, title, digest)[k].chunkIndex != i
    ensures exists k :: 0 <= k < |FilterChunks(raw, url, title, digest)| &&
              FilterChunks(raw, url, title, digest)[k].chunkIndex < i &&
              FilterChunks(raw, url, title, digest)[k].text == Strip(raw[i])
  {
    DroppedOnlyAsDuplicate(raw, url, title, digest, i);
  }

  /** The index built from the documents (embedding and FAISS are external). */
  datatype VectorStore = VectorStore(documents: seq<Document>)

  datatype BuildResult = Built(store: VectorStore) | BuildError(message: string)

  class EmbeddingsManager {
    /** The text splitter's settings; they shape `rawChunks`, which are given. */
    const chunkSize: nat
    const chunkOverlap: nat
    var vectorStore: Option<VectorStore>

    constructor (chunkSize: nat := 1000, chunkOverlap: nat := 200)
      ensures this.chunkSize == chunkSize && this.chunkOverlap == chunkOverlap
      ensures vectorStore == None
    {
      this.chunkSize := chunkSize;
      this.chunkOverlap := chunkOverlap;
      vectorStore := None;
    }

    /** `create_chunks`: `rawChunks` is `split_text(page.content)`. */
    method CreateChunks(page: CrawledPage, rawChunks: seq<string>, digest: string -> string)
      returns (documents: seq<Document>)
      ensures documents == FilterChunks(rawChunks, page.url, page.title, digest)
    {
      documents := [];
      var seenHashes: set<string> := {};
      for i := 0 to |rawChunks|
        invariant documents == FilterChunks(rawChunks[..i], page.url, page.title, digest)
        invariant seenHashes == Digests(documents, digest)
      {
        assert rawChunks[..i + 1][..i] == rawChunks[..i];
        var chunk := Strip(rawChunks[i]);
        if |chunk| < MinChunkLength {
          continue;
        }
        var chunkHash := digest(chunk);
        if chunkHash in seenHashes {
          continue;
        }
        seenHashes := seenHashes + {chunkHash};
        var doc := Document(chunk, page.url, page.title, i);
        DigestsAppend(documents, doc, digest);
        documents := documents + [doc];
      }
      assert rawChunks[..|rawChunks|] == rawChunks;
    }

    /** `create_vector_store` without `save_path`: an empty document list is
        an error raised before any embedding; otherwise the store is built
        from the documents and kept. */
    method CreateVectorStore(page: CrawledPage, rawChunks: seq<string>, digest: string -> string)
      returns (r: BuildResult)
      modifies this`vectorStore
      ensures r.BuildError? <==> FilterChunks(rawChunks, page.url, page.title, digest) == []
      ensures r.BuildError? ==> r.message == NoChunksMessage && vectorStore == old(vectorStore)
      ensures r.Built? ==> r.store.documents == FilterChunks(rawChunks, page.url, page.title, digest) &&
                           vectorStore == Some(r.store)
    {
      var documents := CreateChunks(page, rawChunks, digest);
      if documents == [] {
        return BuildError(NoChunksMessage);
      }
      vectorStore := Some(VectorStore(documents));
      r := Built(vectorStore.value);
    }
  }
}
