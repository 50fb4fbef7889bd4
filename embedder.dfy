/** `fetch_and_embed` of src/embedder.py: resolve a topic to encyclopedia
    text (direct lookup, then a search-then-lookup fallback), save the text
    best-effort under a file named after the sanitised topic, cut it into
    fixed-width character chunks and embed every chunk.

    The knowledge base, the file system and the embedding model are
    parameters: a `Wiki` answers the two page lookups and the search (each
    gives its result or fails), `write` reports whether saving a file
    succeeded, and `embed` maps one string to its vector. */
module Embedder {
  import opened PyBuiltins

  /** The default of the `chunk_size` parameter. */
  const DEFAULT_CHUNK_SIZE := 1000

  /** The directory the raw article text is saved under. */
  const DATA_DIR := "data"

  // ---------------------------------------------------------------------
  // Topic to file name

  /** `topic.replace(" ", "_").replace("/", "_")`: the stem of the file the
      article is saved to. */
  function SafeTopic(topic: string): (r: string)
    ensures |r| == |topic|
    ensures forall i :: 0 <= i < |topic| ==>
      r[i] == (if topic[i] == ' ' || topic[i] == '/' then '_' else topic[i])
    ensures ' ' !in r && '/' !in r
  {
    var spaced := ReplaceChar(topic, ' ', '_');
    ReplaceChar(spaced, '/', '_')
  }

  /** The name of the saved file: the sanitised topic with a `.txt` suffix. */
  function FileName(topic: string): (r: string)
    ensures r == SafeTopic(topic) + ".txt"
    ensures ' ' !in r && '/' !in r
  {
    SafeTopic(topic) + ".txt"
  }

  /** A topic is left alone exactly when it holds neither a space nor a
      slash. */
  lemma SafeTopicFixedPoints(topic: string)
    ensures SafeTopic(topic) == topic <==> ' ' !in topic && '/' !in topic
  {
    if ' ' !in topic && '/' !in topic {
      var r := SafeTopic(topic);
      assert forall i :: 0 <= i < |topic| ==> r[i] == topic[i];
    }
  }

  /** Sanitising a sanitised topic changes nothing. */
  lemma SafeTopicIdempotent(topic: string)
    ensures SafeTopic(SafeTopic(topic)) == SafeTopic(topic)
  {
    SafeTopicFixedPoints(SafeTopic(topic));
  }

  /** Distinct topics can share a file: "a b" and "a/b" are both saved as
      "a_b.txt", the later save overwriting the earlier one. */
  lemma SafeTopicCollides()
    ensures "a b" != "a/b" && FileName("a b") == FileName("a/b") == "a_b.txt"
  {
    assert SafeTopic("a b")[1] == '_';
    assert SafeTopic("a/b")[1] == '_';
  }

  // ---------------------------------------------------------------------
  // Chunking

  /** `[text[i:i + size] for i in range(0, len(text), size)]`. A zero size
      makes `range` raise; a negative one makes it empty. */
  function Chunks(text: string, size: int): (r: Result<seq<string>, PyError>)
    ensures r.Failure? <==> size == 0
  {
    match Range(0, |text|, size)
    case Failure(e) => Failure(e)
    case Success(starts) =>
      Success(seq(|starts|, k requires 0 <= k < |starts| => Slice(text, starts[k], starts[k] + size)))
  }

  /** Chunk k is the slice of the text at the k-th value of the range. */
  lemma ChunksUnfold(text: string, size: int)
    requires size != 0
    ensures var cs, starts := Chunks(text, size).value, Progression(0, |text|, size);
      && |cs| == |starts|
      && forall k :: 0 <= k < |cs| ==> cs[k] == Slice(text, starts[k], starts[k] + size)
  {
  }

  /** A negative size gives an empty range, hence no chunks at all. */
  lemma NegativeSizeGivesNoChunks(text: string, size: int)
    requires size < 0
    ensures Chunks(text, size) == Success([])
  {
    assert Progression(0, |text|, size) == [];
    ChunksUnfold(text, size);
    assert |Chunks(text, size).value| == 0;
  }

  /** The chunks cover the text: the last one starts inside it, and the one
      that would come next would start at or past its end. */
  lemma ChunksCover(text: string, size: int)
    requires size > 0
    ensures var q := |Chunks(text, size).value|;
      && |text| <= q * size
      && (q > 0 ==> (q - 1) * size < |text|)
  {
    ChunksUnfold(text, size);
    ProgressionValues(0, |text|, size);
    var starts := Progression(0, |text|, size);
    if |starts| > 0 {
      assert starts[|starts| - 1] == (|starts| - 1) * size;
    }
  }

  /** Chunk k starts at offset k * size, inside the text, and runs for size
      characters or up to the end of the text, whichever comes first. */
  lemma ChunkAt(text: string, size: int, k: nat)
    requires size > 0
    requires k < |Chunks(text, size).value|
    ensures k * size < |text|
    ensures Chunks(text, size).value[k] == text[k * size .. Min((k + 1) * size, |text|)]
  {
    ChunksUnfold(text, size);
    ProgressionValues(0, |text|, size);
    assert Progression(0, |text|, size)[k] == k * size;
    SliceFromInside(text, k * size, k * size + size);
    ShiftedMultiple(k + 1, size);
  }

  /** The number of chunks is the length of the text divided by the size,
      rounded up; so there are none exactly when the text is empty. */
  lemma ChunkCount(text: string, size: int)
    requires size > 0
    ensures |Chunks(text, size).value| == (|text| + size - 1) / size
    ensures |Chunks(text, size).value| == 0 <==> |text| == 0
  {
    ChunksCover(text, size);
    var q := |Chunks(text, size).value|;
    CeilingDivision(|text|, size, q);
  }

  /** The one q with (q - 1) * d < n <= q * d is n / d rounded up. */
  lemma CeilingDivision(n: nat, d: int, q: nat)
    requires d > 0
    requires n <= q * d
    requires q == 0 || (q - 1) * d < n
    ensures q == (n + d - 1) / d
  {
    var c, rem := (n + d - 1) / d, (n + d - 1) % d;
    assert n + d - 1 == c * d + rem && 0 <= rem < d;
    if q > c {
      MultiplyMonotone(c, q - 1, d);
      assert false;
    } else if q < c {
      MultiplyMonotone(q, c - 1, d);
      ShiftedMultiple(c, d);
      assert false;
    }
  }

  lemma MultiplyMonotone(a: int, b: int, d: int)
    requires a <= b && d > 0
    ensures a * d <= b * d
  {
  }

  /** Every chunk but the last holds exactly size characters; the last one
      holds the rest, between 1 and size characters. */
  lemma ChunkLengths(text: string, size: int)
    requires size > 0
    ensures var cs := Chunks(text, size).value;
      && (forall k :: 0 <= k < |cs| - 1 ==> |cs[k]| == size)
      && (|cs| > 0 ==> 1 <= |cs[|cs| - 1]| <= size)
  {
    var cs := Chunks(text, size).value;
    forall k | 0 <= k < |cs| - 1
      ensures |cs[k]| == size
    {
      InnerChunkLength(text, size, k);
    }
    if |cs| > 0 {
      LastChunkLength(text, size);
    }
  }

  lemma InnerChunkLength(text: string, size: int, k: nat)
    requires size > 0
    requires k < |Chunks(text, size).value| - 1
    ensures |Chunks(text, size).value[k]| == size
  {
    var q := |Chunks(text, size).value|;
    ChunksCover(text, size);
    ChunkAt(text, size, k);
    MultiplyMonotone(k + 1, q - 1, size);
    ShiftedMultiple(k + 1, size);
  }

  lemma LastChunkLength(text: string, size: int)
    requires size > 0
    requires |Chunks(text, size).value| > 0
    ensures var cs := Chunks(text, size).value;
      1 <= |cs[|cs| - 1]| <= size
  {
    var q := |Chunks(text, size).value|;
    ChunksCover(text, size);
    ChunkAt(text, size, q - 1);
    ShiftedMultiple(q, size);
  }

  /** The first m chunks, joined, are the text up to offset m * size. */
  lemma {:induction false} JoinedPrefix(text: string, size: int, m: nat)
    requires size > 0
    requires m <= |Chunks(text, size).value|
    ensures Join(Chunks(text, size).value[..m]) == text[..Min(m * size, |text|)]
  {
    var cs := Chunks(text, size).value;
    if m == 0 {
      assert cs[..0] == [];
    } else {
      JoinedPrefix(text, size, m - 1);
      assert cs[..m][..m - 1] == cs[..m - 1];
      ChunkAt(text, size, m - 1);
      ShiftedMultiple(m, size);
      assert text[..(m - 1) * size] + text[(m - 1) * size .. Min(m * size, |text|)]
        == text[..Min(m * size, |text|)];
    }
  }

  /** No overlap and no loss: the chunks, joined in order, are the text. */
  lemma ChunksReassemble(text: string, size: int)
    requires size > 0
    ensures Join(Chunks(text, size).value) == text
  {
    var cs := Chunks(text, size).value;
    ChunksCover(text, size);
    JoinedPrefix(text, size, |cs|);
    assert cs[..|cs|] == cs;
  }

  /** "HelloWorld" in chunks of 5 is "Hello" and "World". */
  lemma ChunksExample()
    ensures Chunks("HelloWorld", 5) == Success(["Hello", "World"])
  {
    var cs := Chunks("HelloWorld", 5).value;
    ChunkCount("HelloWorld", 5);
    ChunkAt("HelloWorld", 5, 0);
    ChunkAt("HelloWorld", 5, 1);
    assert cs[0] == "Hello" && cs[1] == "World";
    assert cs == ["Hello", "World"];
  }

  // ---------------------------------------------------------------------
  // Fetching

  /** The knowledge base as the function sees it, one answer per call site:
      `page` is the lookup of the topic itself (`wikipedia.page(topic)`),
      `search` the ranked titles for the topic (`wikipedia.search(topic)`),
      and `fallbackPage` the later lookup of the title the search ranked
      first. The two lookups are separate requests, so the second may
      succeed for a title the first failed on (a transient network error). */
  datatype Wiki = Wiki(
    page: string -> Option<string>,
    search: string -> Option<seq<string>>,
    fallbackPage: string -> Option<string>)

  /** The article text for a topic: the direct lookup if that succeeds;
      otherwise the fallback lookup of the first title the search ranks,
      failing when the search fails, finds nothing (the `[0]` raises) or that
      lookup fails too. */
  function Fetch(topic: string, wiki: Wiki): (r: Option<string>)
    ensures wiki.page(topic).Some? ==> r == wiki.page(topic)
    ensures wiki.page(topic).None? && wiki.search(topic).Some? && |wiki.search(topic).value| > 0
      ==> r == wiki.fallbackPage(wiki.search(topic).value[0])
    ensures wiki.page(topic).None? && (wiki.search(topic).None? || wiki.search(topic).value == [])
      ==> r.None?
  {
    match wiki.page(topic)
    case Some(text) => Some(text)
    case None =>
      match wiki.search(topic)
      case None => None
      case Some(titles) => if |titles| > 0 then wiki.fallbackPage(titles[0]) else None
  }

  /** When the search ranks the topic itself first, the fallback asks for the
      same page again; a knowledge base that answers that request as it did
      the first time makes the whole fetch fail. */
  lemma RepeatedLookupRepeatsFailure(topic: string, wiki: Wiki)
    requires wiki.page(topic).None? && wiki.fallbackPage(topic) == wiki.page(topic)
    requires wiki.search(topic).Some? && |wiki.search(topic).value| > 0
    requires wiki.search(topic).value[0] == topic
    ensures Fetch(topic, wiki).None?
  {
  }

  // ---------------------------------------------------------------------
  // The whole operation

  /** The attempt to save the article: under which directory and name, with
      what content, and whether the write succeeded. */
  datatype SaveAttempt = SaveAttempt(dir: string, name: string, content: string, saved: bool)

  /** How a call ends: it returns chunks and embeddings, or the exception it
      raises escapes to the caller. */
  datatype Outcome<V> = Returned(chunks: seq<string>, embeddings: seq<V>) | Raised(error: PyError)

  /** A call's save attempt, if it got as far, and its outcome. */
  datatype Run<V> = Run(save: Option<SaveAttempt>, outcome: Outcome<V>)

  /** `model.encode(chunks)`, taken to encode each chunk on its own. */
  function Encode<V>(embed: string -> V, chunks: seq<string>): (r: seq<V>)
    ensures |r| == |chunks|
    ensures forall i :: 0 <= i < |chunks| ==> r[i] == embed(chunks[i])
  {
    seq(|chunks|, i requires 0 <= i < |chunks| => embed(chunks[i]))
  }

  /** `fetch_and_embed(topic, chunk_size)`. */
  function FetchAndEmbed<V>(
    topic: string, chunkSize: int, wiki: Wiki,
    write: (string, string) -> bool, embed: string -> V
  ): (r: Run<V>)
    // Nothing is saved or returned but two empty lists when the fetch fails.
    ensures Fetch(topic, wiki).None? ==> r.save.None? && r.outcome == Returned([], [])
    // Otherwise the fetched text is saved under the sanitised topic.
    ensures Fetch(topic, wiki).Some? ==>
      && r.save.Some?
      && r.save.value.dir == DATA_DIR
      && r.save.value.name == FileName(topic)
      && r.save.value.content == Fetch(topic, wiki).value
    // The save reports what the write did.
    ensures r.save.Some? ==> r.save.value.saved == write(r.save.value.name, r.save.value.content)
    // Only a zero chunk size raises, and only once the text has been fetched.
    ensures r.outcome.Raised? <==> Fetch(topic, wiki).Some? && chunkSize == 0
    // The chunks returned are those of the fetched text.
    ensures Fetch(topic, wiki).Some? && chunkSize != 0 ==>
      r.outcome.Returned? && r.outcome.chunks == Chunks(Fetch(topic, wiki).value, chunkSize).value
    // Embeddings pair up with chunks, index for index.
    ensures r.outcome.Returned? ==>
      && |r.outcome.embeddings| == |r.outcome.chunks|
      && forall i :: 0 <= i < |r.outcome.chunks| ==> r.outcome.embeddings[i] == embed(r.outcome.chunks[i])
  {
    match Fetch(topic, wiki)
    case None => Run(None, Returned([], []))
    case Some(text) =>
      var name := FileName(topic);
      var save := SaveAttempt(DATA_DIR, name, text, write(name, text));
      match Chunks(text, chunkSize)
      case Failure(e) => Run(Some(save), Raised(e))
      case Success(chunks) => Run(Some(save), Returned(chunks, Encode(embed, chunks)))
  }

  /** When both the direct lookup and the fallback fail, the call returns
      ([], []) without saving or embedding anything, whatever the chunk
      size. */
  lemma BothLookupsFail<V>(
    topic: string, chunkSize: int, wiki: Wiki,
    write: (string, string) -> bool, embed: string -> V
  )
    requires wiki.page(topic).None?
    requires || wiki.search(topic).None?
             || wiki.search(topic).value == []
             || wiki.fallbackPage(wiki.search(topic).value[0]).None?
    ensures FetchAndEmbed(topic, chunkSize, wiki, write, embed) == Run(None, Returned([], []))
  {
  }

  /** When the direct lookup succeeds, its text is what is saved and chunked,
      and neither the search nor the fallback lookup is consulted. */
  lemma DirectLookupWins<V>(
    topic: string, chunkSize: int, wiki: Wiki,
    search': string -> Option<seq<string>>, fallbackPage': string -> Option<string>,
    write: (string, string) -> bool, embed: string -> V
  )
    requires wiki.page(topic).Some?
    ensures var r := FetchAndEmbed(topic, chunkSize, wiki, write, embed);
      && r == FetchAndEmbed(topic, chunkSize, wiki.(search := search', fallbackPage := fallbackPage'), write, embed)
      && r.save.Some? && r.save.value.content == wiki.page(topic).value
  {
  }

  /** When the direct lookup fails and the fallback finds a page, that page's
      text is what is saved and chunked, yet the file is still named after
      the topic asked for, not after the title the search found. */
  lemma FallbackText<V>(
    topic: string, chunkSize: int, wiki: Wiki,
    write: (string, string) -> bool, embed: string -> V
  )
    requires wiki.page(topic).None?
    requires wiki.search(topic).Some? && |wiki.search(topic).value| > 0
    requires wiki.fallbackPage(wiki.search(topic).value[0]).Some?
    ensures var text := wiki.fallbackPage(wiki.search(topic).value[0]).value;
      var r := FetchAndEmbed(topic, chunkSize, wiki, write, embed);
      && r.save.Some?
      && r.save.value.content == text
      && r.save.value.name == SafeTopic(topic) + ".txt"
      && (chunkSize > 0 ==> r.outcome.Returned? && Join(r.outcome.chunks) == text)
  {
    var text := wiki.fallbackPage(wiki.search(topic).value[0]).value;
    if chunkSize > 0 {
      ChunksReassemble(text, chunkSize);
    }
  }

  /** Saving is best effort: whether the write succeeds changes nothing about
      the chunks and embeddings returned, nor about what was written where. */
  lemma SaveFailureIsHarmless<V>(
    topic: string, chunkSize: int, wiki: Wiki,
    write: (string, string) -> bool, write': (string, string) -> bool, embed: string -> V
  )
    ensures var r := FetchAndEmbed(topic, chunkSize, wiki, write, embed);
      var r' := FetchAndEmbed(topic, chunkSize, wiki, write', embed);
      && r.outcome == r'.outcome
      && r.save.Some? == r'.save.Some?
      && (r.save.Some? ==> r.save.value.(saved := true) == r'.save.value.(saved := true))
  {
  }

  /** With a positive chunk size, a call that fetched text returns its
      chunks, which rebuild that text and number len(text) / size rounded
      up, each paired with its embedding. */
  lemma FetchedTextIsChunked<V>(
    topic: string, chunkSize: int, wiki: Wiki,
    write: (string, string) -> bool, embed: string -> V
  )
    requires chunkSize > 0
    requires Fetch(topic, wiki).Some?
    ensures var text := Fetch(topic, wiki).value;
      var r := FetchAndEmbed(topic, chunkSize, wiki, write, embed);
      && r.outcome.Returned?
      && Join(r.outcome.chunks) == text
      && |r.outcome.chunks| == (|text| + chunkSize - 1) / chunkSize
      && |r.outcome.embeddings| == |r.outcome.chunks|
  {
    var text := Fetch(topic, wiki).value;
    ChunksReassemble(text, chunkSize);
    ChunkCount(text, chunkSize);
  }

  /** A call with the default chunk size returns len(text) / 1000 chunks,
      rounded up, each of at most 1000 characters. */
  lemma DefaultChunkSizeCall<V>(
    topic: string, wiki: Wiki,
    write: (string, string) -> bool, embed: string -> V
  )
    requires Fetch(topic, wiki).Some?
    ensures var text := Fetch(topic, wiki).value;
      var r := FetchAndEmbed(topic, DEFAULT_CHUNK_SIZE, wiki, write, embed);
      && r.outcome.Returned?
      && |r.outcome.chunks| == (|text| + 999) / 1000
      && forall k :: 0 <= k < |r.outcome.chunks| ==> 1 <= |r.outcome.chunks[k]| <= 1000
  {
    var text := Fetch(topic, wiki).value;
    var cs := Chunks(text, DEFAULT_CHUNK_SIZE).value;
    ChunkCount(text, DEFAULT_CHUNK_SIZE);
    ChunkLengths(text, DEFAULT_CHUNK_SIZE);
    forall k | 0 <= k < |cs|
      ensures 1 <= |cs[k]| <= 1000
    {
      if k < |cs| - 1 {
        assert |cs[k]| == 1000;
      }
    }
  }

  /** A zero chunk size raises `ValueError` from `range`, but only after the
      article was fetched and its save attempted. */
  lemma ZeroChunkSizeRaisesAfterSave<V>(
    topic: string, wiki: Wiki,
    write: (string, string) -> bool, embed: string -> V
  )
    requires Fetch(topic, wiki).Some?
    ensures var r := FetchAndEmbed(topic, 0, wiki, write, embed);
      && r.save.Some?
      && r.outcome == Raised(ValueError("range() arg 3 must not be zero"))
  {
  }

  /** A negative chunk size gives an empty `range`: the text is fetched and
      its save attempted, but no chunk and no embedding is returned. */
  lemma NegativeChunkSizeGivesNothing<V>(
    topic: string, chunkSize: int, wiki: Wiki,
    write: (string, string) -> bool, embed: string -> V
  )
    requires chunkSize < 0
    requires Fetch(topic, wiki).Some?
    ensures var r := FetchAndEmbed(topic, chunkSize, wiki, write, embed);
      r.save.Some? && r.outcome == Returned([], [])
  {
    NegativeSizeGivesNoChunks(Fetch(topic, wiki).value, chunkSize);
  }
}
