/**
 * Ingestion of a PDF: fold the pages' extracted text into one string, cut
 * it into chunks of a fixed number of words, and replace the contents of the
 * vector-store collection with those chunks and their embeddings.
 *
 * PDF parsing is left to its library: a document is the sequence of the
 * texts its pages yield, the empty string standing for a page with no text.
 * The embedding model is the function-typed parameter `encode`.
 */
module Ingest {
  import opened PyStr

  // ---------------------------------------------------------------------
  // load_pdf

  /** What `load_pdf` appends after each page's text. */
  const PageBreak: string := "\n\n"

  /** The pages that contribute text, in page order: every page with text,
      and no empty page. */
  function NonEmptyPages(pages: seq<string>): (kept: seq<string>)
    ensures forall i :: 0 <= i < |kept| ==> kept[i] != ""
    ensures forall p :: p in pages && p != "" ==> p in kept
    ensures forall p :: p in kept ==> p in pages
    decreases |pages|
  {
    if pages == [] then []
    else (if pages[0] != "" then [pages[0]] else []) + NonEmptyPages(pages[1..])
  }

  /** Every page with text is kept as often as it occurs, and no empty page
      is. */
  lemma {:induction false} NonEmptyPagesMultiplicity(pages: seq<string>)
    ensures multiset(NonEmptyPages(pages)) == multiset(pages)["" := 0]
    decreases |pages|
  {
    if pages != [] {
      NonEmptyPagesMultiplicity(pages[1..]);
      assert pages == [pages[0]] + pages[1..];
    }
  }

  /** Each page's text followed by a page break, concatenated in order. */
  function Terminated(pages: seq<string>): string
    decreases |pages|
  {
    if pages == [] then "" else pages[0] + PageBreak + Terminated(pages[1..])
  }

  /** The text `load_pdf` returns for the given pages. */
  function PdfText(pages: seq<string>): string {
    Terminated(NonEmptyPages(pages))
  }

  lemma {:induction false} TerminatedAppend(a: seq<string>, b: seq<string>)
    ensures Terminated(a + b) == Terminated(a) + Terminated(b)
    decreases |a|
  {
    if a != [] {
      assert (a + b)[1..] == a[1..] + b;
      TerminatedAppend(a[1..], b);
    } else {
      assert a + b == b;
    }
  }

  lemma {:induction false} NonEmptyPagesAppend(a: seq<string>, p: string)
    ensures NonEmptyPages(a + [p]) == NonEmptyPages(a) + (if p != "" then [p] else [])
    decreases |a|
  {
    if a == [] {
      assert [] + [p] == [p];
    } else {
      assert (a + [p])[1..] == a[1..] + [p];
      NonEmptyPagesAppend(a[1..], p);
    }
  }

  /** `load_pdf`: accumulate the text of every page that has some, each
      followed by a blank line. */
  method LoadPdf(pages: seq<string>) returns (text: string)
    ensures text == PdfText(pages)
  {
    text := "";
    for i := 0 to |pages|
      invariant text == PdfText(pages[..i])
    {
      var content := pages[i];
      assert pages[..i + 1] == pages[..i] + [content];
      NonEmptyPagesAppend(pages[..i], content);
      if content != "" {
        TerminatedAppend(NonEmptyPages(pages[..i]), [content]);
        assert Terminated([content]) == content + PageBreak;
        text := text + content + PageBreak;
      } else {
        assert NonEmptyPages(pages[..i]) + [] == NonEmptyPages(pages[..i]);
      }
    }
    assert pages[..|pages|] == pages;
  }

  /** A document whose pages yield no text loads as the empty string, and
      only such a document does. */
  lemma {:induction false} PdfTextEmptyIff(pages: seq<string>)
    ensures PdfText(pages) == "" <==> forall i :: 0 <= i < |pages| ==> pages[i] == ""
  {
    var kept := NonEmptyPages(pages);
    if kept != [] {
      assert kept[0] in pages;
      assert |Terminated(kept)| >= |PageBreak|;
    } else {
      forall i | 0 <= i < |pages| ensures pages[i] == "" {
        assert pages[i] in pages;
      }
    }
  }

  /** Loaded text that is not empty ends with the blank line after its last
      page. */
  lemma {:induction false} PdfTextEndsWithBreak(pages: seq<string>)
    requires PdfText(pages) != ""
    ensures EndsWith(PdfText(pages), PageBreak)
  {
    var kept := NonEmptyPages(pages);
    var n := |kept|;
    assert kept == kept[..n - 1] + [kept[n - 1]];
    TerminatedAppend(kept[..n - 1], [kept[n - 1]]);
    assert Terminated([kept[n - 1]]) == kept[n - 1] + PageBreak;
  }

  // ---------------------------------------------------------------------
  // chunk_text

  const DefaultChunkSize: int := 350

  /** The number of words at which `chunk_text` closes a chunk. The source
      compares the chunk's length with `chunk_size` after adding a word, so
      a `chunk_size` below 1 closes a chunk after every word. */
  function ChunkWidth(chunkSize: int): (m: nat)
    ensures m >= 1
    ensures chunkSize >= 1 ==> m == chunkSize
  {
    if chunkSize < 1 then 1 else chunkSize
  }

  /** Concatenation of a sequence of word lists. */
  function Flatten(groups: seq<seq<string>>): seq<string>
    decreases |groups|
  {
    if groups == [] then [] else groups[0] + Flatten(groups[1..])
  }

  /** Cuts `words` into consecutive groups of `m` words; the last group holds
      the remaining words and is never empty. */
  function Group(words: seq<string>, m: nat): (groups: seq<seq<string>>)
    requires m >= 1
    decreases |words|
  {
    if words == [] then []
    else if |words| <= m then [words]
    else [words[..m]] + Group(words[m..], m)
  }

  /** Concatenating the groups gives the words back. */
  lemma {:induction false} GroupFlatten(words: seq<string>, m: nat)
    requires m >= 1
    ensures Flatten(Group(words, m)) == words
    decreases |words|
  {
    if |words| > m {
      GroupFlatten(words[m..], m);
      var rest := Group(words[m..], m);
      assert ([words[..m]] + rest)[1..] == rest;
      assert words == words[..m] + words[m..];
    }
  }

  /** Every group holds 1 to `m` words, and all but the last exactly `m`. */
  lemma {:induction false} GroupSizes(words: seq<string>, m: nat)
    requires m >= 1
    ensures forall i :: 0 <= i < |Group(words, m)| ==> 1 <= |Group(words, m)[i]| <= m
    ensures forall i :: 0 <= i < |Group(words, m)| - 1 ==> |Group(words, m)[i]| == m
    decreases |words|
  {
    if |words| > m {
      GroupSizes(words[m..], m);
      var groups, rest := Group(words, m), Group(words[m..], m);
      assert forall i :: 1 <= i < |groups| ==> groups[i] == rest[i - 1];
    }
  }

  /** One chunk per group: its words joined by single spaces. */
  function JoinGroups(groups: seq<seq<string>>): (chunks: seq<string>)
    ensures |chunks| == |groups|
  {
    seq(|groups|, i requires 0 <= i < |groups| => Join(" ", groups[i]))
  }

  /** The chunks `chunk_text(text, chunk_size)` returns. */
  function Chunks(text: string, chunkSize: int): seq<string> {
    JoinGroups(Group(Words(text), ChunkWidth(chunkSize)))
  }

  /** Every group of `done` is a full one. */
  predicate FullGroups(done: seq<string>, m: nat)
    requires m >= 1
  {
    forall i :: 0 <= i < |Group(done, m)| ==> |Group(done, m)[i]| == m
  }

  /** After whole groups, the next words form the next group. */
  lemma {:induction false} GroupAppend(done: seq<string>, tail: seq<string>, m: nat)
    requires m >= 1
    requires FullGroups(done, m)
    requires 1 <= |tail| <= m
    ensures Group(done + tail, m) == Group(done, m) + [tail]
    decreases |done|
  {
    var whole := done + tail;
    if done == [] {
      assert whole == tail;
    } else {
      assert |Group(done, m)[0]| == m;
      assert |done| >= m;
      assert whole[..m] == done[..m];
      assert whole[m..] == done[m..] + tail;
      if |done| == m {
        assert done[m..] == [];
        assert whole[m..] == tail;
      } else {
        assert Group(done, m) == [done[..m]] + Group(done[m..], m);
        assert FullGroups(done[m..], m) by {
          forall i | 0 <= i < |Group(done[m..], m)| ensures |Group(done[m..], m)[i]| == m {
            assert Group(done[m..], m)[i] == Group(done, m)[i + 1];
          }
        }
        GroupAppend(done[m..], tail, m);
      }
    }
  }

  lemma JoinGroupsAppend(groups: seq<seq<string>>, group: seq<string>)
    ensures JoinGroups(groups + [group]) == JoinGroups(groups) + [Join(" ", group)]
  {
    var l, r := JoinGroups(groups + [group]), JoinGroups(groups) + [Join(" ", group)];
    forall i | 0 <= i < |l| ensures l[i] == r[i] {
      assert (groups + [group])[i] == if i < |groups| then groups[i] else group;
    }
  }

  /** `chunk_text`: walk the words of `text`, closing a chunk whenever it
      reaches `chunk_size` words, and emit the unfinished last chunk. */
  method ChunkText(text: string, chunkSize: int) returns (chunks: seq<string>)
    ensures chunks == Chunks(text, chunkSize)
  {
    var words := Words(text);
    ghost var m := ChunkWidth(chunkSize);
    ghost var start := 0;
    chunks := [];
    var current: seq<string> := [];
    for i := 0 to |words|
      invariant start <= i
      invariant current == words[start..i]
      invariant |current| < m
      invariant FullGroups(words[..start], m)
      invariant chunks == JoinGroups(Group(words[..start], m))
    {
      current := current + [words[i]];
      if |current| >= chunkSize {
        GroupAppend(words[..start], current, m);
        JoinGroupsAppend(Group(words[..start], m), current);
        assert words[..start] + current == words[..i + 1];
        chunks := chunks + [Join(" ", current)];
        start := i + 1;
        current := [];
      }
    }
    if current != [] {
      GroupAppend(words[..start], current, m);
      JoinGroupsAppend(Group(words[..start], m), current);
      assert words[..start] + current == words;
      chunks := chunks + [Join(" ", current)];
    } else {
      assert words[..start] == words;
    }
  }

  lemma {:induction false} FlattenMember(groups: seq<seq<string>>, i: nat, j: nat)
    requires i < |groups| && j < |groups[i]|
    ensures groups[i][j] in Flatten(groups)
    decreases i
  {
    if i > 0 { FlattenMember(groups[1..], i - 1, j); }
  }

  lemma {:induction false} FlattenWords(groups: seq<seq<string>>)
    requires AllWords(Flatten(groups))
    ensures forall i :: 0 <= i < |groups| ==> AllWords(groups[i])
  {
    forall i, j | 0 <= i < |groups| && 0 <= j < |groups[i]| ensures IsWord(groups[i][j]) {
      FlattenMember(groups, i, j);
    }
  }

  /** Each chunk split on whitespace. */
  function WordsOfEach(chunks: seq<string>): (split: seq<seq<string>>)
    ensures |split| == |chunks|
    ensures forall i :: 0 <= i < |chunks| ==> split[i] == Words(chunks[i])
  {
    seq(|chunks|, i requires 0 <= i < |chunks| => Words(chunks[i]))
  }

  /** Splitting each chunk on whitespace gives back its group of words. */
  lemma WordsOfChunks(text: string, chunkSize: int, i: nat)
    requires i < |Chunks(text, chunkSize)|
    ensures Words(Chunks(text, chunkSize)[i]) == Group(Words(text), ChunkWidth(chunkSize))[i]
  {
    var groups := Group(Words(text), ChunkWidth(chunkSize));
    GroupFlatten(Words(text), ChunkWidth(chunkSize));
    FlattenWords(groups);
    WordsOfJoin(groups[i]);
  }

  /** Every chunk holds between 1 and `chunk_size` words (one word when
      `chunk_size` is below 1), and every chunk but the last holds exactly
      that many. */
  lemma ChunkWordCounts(text: string, chunkSize: int)
    ensures forall i :: 0 <= i < |Chunks(text, chunkSize)| ==>
      1 <= |Words(Chunks(text, chunkSize)[i])| <= ChunkWidth(chunkSize)
    ensures forall i :: 0 <= i < |Chunks(text, chunkSize)| - 1 ==>
      |Words(Chunks(text, chunkSize)[i])| == ChunkWidth(chunkSize)
  {
    GroupSizes(Words(text), ChunkWidth(chunkSize));
    forall i | 0 <= i < |Chunks(text, chunkSize)| {
      WordsOfChunks(text, chunkSize, i);
    }
  }

  /** The words of the chunks, in order, are exactly the words of the text:
      none is dropped, duplicated or moved. */
  lemma ChunksPreserveWords(text: string, chunkSize: int)
    ensures Flatten(WordsOfEach(Chunks(text, chunkSize))) == Words(text)
  {
    var chunks := Chunks(text, chunkSize);
    var groups := Group(Words(text), ChunkWidth(chunkSize));
    var split := WordsOfEach(chunks);
    forall i | 0 <= i < |chunks| ensures split[i] == groups[i] {
      WordsOfChunks(text, chunkSize, i);
    }
    assert split == groups;
    GroupFlatten(Words(text), ChunkWidth(chunkSize));
  }

  lemma {:induction false} GroupCount(words: seq<string>, m: nat)
    requires m >= 1
    ensures (|Group(words, m)| - 1) * m < |words| <= |Group(words, m)| * m
    decreases |words|
  {
    if |words| > m {
      var k := |Group(words[m..], m)|;
      assert |Group(words, m)| == k + 1;
      GroupCount(words[m..], m);
      assert (k + 1) * m == k * m + m;
      assert (k - 1) * m == k * m - m;
    }
  }

  /** There are ceil(|words| / chunk_size) chunks: the fewest whose
      capacity holds all the words. */
  lemma ChunkCount(text: string, chunkSize: int)
    ensures var n, m := |Chunks(text, chunkSize)|, ChunkWidth(chunkSize);
      (n - 1) * m < |Words(text)| <= n * m
  {
    GroupCount(Words(text), ChunkWidth(chunkSize));
  }

  /** Text that is empty or only whitespace gives no chunk, and only such
      text does. */
  lemma ChunksEmptyIff(text: string, chunkSize: int)
    ensures Chunks(text, chunkSize) == [] <==> AllSpace(text)
  {
    WordsEmptyIff(text);
  }

  /** A text of 700 words in chunks of the default size gives two chunks of
      350 words each. */
  lemma SevenHundredWords(text: string)
    requires |Words(text)| == 700
    ensures |Chunks(text, DefaultChunkSize)| == 2
    ensures forall i :: 0 <= i < 2 ==> |Words(Chunks(text, DefaultChunkSize)[i])| == 350
  {
    ChunkCount(text, DefaultChunkSize);
    ChunkWordCounts(text, DefaultChunkSize);
    ChunksPreserveWords(text, DefaultChunkSize);
    var split := WordsOfEach(Chunks(text, DefaultChunkSize));
    assert split[1..][1..] == [];
    assert Flatten(split[1..][1..]) == [];
    assert Flatten(split[1..]) == split[1];
    assert Flatten(split) == split[0] + split[1];
  }

  // ---------------------------------------------------------------------
  // store_embeddings

  /** One stored entry: the chunk's text and its embedding. */
  datatype Record<E> = Record(document: string, embedding: E)

  /** The id `store_embeddings` gives the chunk at position `i`. */
  function ChunkId(i: nat): string {
    "chunk_" + NatToString(i)
  }

  /** Chunk ids at different positions differ. */
  lemma ChunkIdInjective(i: nat, j: nat)
    requires ChunkId(i) == ChunkId(j)
    ensures i == j
  {
    var prefix := "chunk_";
    assert ChunkId(i)[|prefix|..] == NatToString(i);
    assert ChunkId(j)[|prefix|..] == NatToString(j);
    NatToStringInjective(i, j);
  }

  /** No id occurs twice in the list. */
  predicate Distinct(ids: seq<string>) {
    forall i, j :: 0 <= i < j < |ids| ==> ids[i] != ids[j]
  }

  /** `[f"chunk_{i}" for i in range(n)]`: `chunk_i` at position i, no id
      twice. */
  function ChunkIds(n: nat): (ids: seq<string>)
    ensures |ids| == n
    ensures forall i :: 0 <= i < n ==> ids[i] == ChunkId(i)
    ensures Distinct(ids)
  {
    var ids := seq(n, i requires 0 <= i < n => ChunkId(i));
    assert Distinct(ids) by {
      forall i, j | 0 <= i < j < n ensures ids[i] != ids[j] {
        if ChunkId(i) == ChunkId(j) { ChunkIdInjective(i, j); }
      }
    }
    ids
  }

  /** The ids a list holds. */
  function IdSet(ids: seq<string>): set<string> {
    set id | id in ids
  }

  /** A list with no id twice holds as many ids as it has positions. */
  lemma {:induction false} DistinctIdSet(ids: seq<string>)
    requires Distinct(ids)
    ensures |IdSet(ids)| == |ids|
    decreases |ids|
  {
    if ids != [] {
      var rest := ids[1..];
      assert Distinct(rest) by {
        forall i, j | 0 <= i < j < |rest| ensures rest[i] != rest[j] {
          assert rest[i] == ids[i + 1] && rest[j] == ids[j + 1];
        }
      }
      DistinctIdSet(rest);
      assert ids == [ids[0]] + rest;
      assert IdSet(ids) == {ids[0]} + IdSet(rest);
      assert ids[0] !in IdSet(rest);
    }
  }

  /** The id of position `n` is none of the ids of earlier positions. */
  lemma FreshChunkId(n: nat, earlier: set<string>)
    requires forall id :: id in earlier ==> exists i :: 0 <= i < n && id == ChunkId(i)
    ensures ChunkId(n) !in earlier
  {
    if ChunkId(n) in earlier {
      var i :| 0 <= i < n && ChunkId(n) == ChunkId(i);
      ChunkIdInjective(n, i);
    }
  }

  /** The set of the first `n` chunk ids, which has exactly `n` members. */
  function ChunkIdSet(n: nat): (ids: set<string>)
    ensures |ids| == n
    ensures forall i :: 0 <= i < n ==> ChunkId(i) in ids
    ensures forall id :: id in ids ==> exists i :: 0 <= i < n && id == ChunkId(i)
  {
    if n == 0 then {}
    else
      var earlier := ChunkIdSet(n - 1);
      FreshChunkId(n - 1, earlier);
      earlier + {ChunkId(n - 1)}
  }

  /** The entries `collection.add(documents, embeddings, ids)` inserts. */
  function Entries<E>(documents: seq<string>, embeddings: seq<E>, ids: seq<string>): (added: map<string, Record<E>>)
    requires |documents| == |ids| && |embeddings| == |ids|
    requires Distinct(ids)
    ensures forall i :: 0 <= i < |ids| ==> ids[i] in added && added[ids[i]] == Record(documents[i], embeddings[i])
    ensures forall id :: id in added ==> id in ids
    ensures |added| == |ids|
  {
    var added := map i | 0 <= i < |ids| :: ids[i] := Record(documents[i], embeddings[i]);
    DistinctIdSet(ids);
    assert added.Keys == IdSet(ids);
    assert |added| == |added.Keys|;
    added
  }

  /** `model.encode(chunks)`: one embedding per chunk, in order. */
  function Embeddings<E>(chunks: seq<string>, encode: string -> E): (vectors: seq<E>)
    ensures |vectors| == |chunks|
    ensures forall i :: 0 <= i < |chunks| ==> vectors[i] == encode(chunks[i])
  {
    seq(|chunks|, i requires 0 <= i < |chunks| => encode(chunks[i]))
  }

  /** What the collection holds after `store_embeddings(chunks)`. */
  function Replacement<E>(chunks: seq<string>, encode: string -> E): map<string, Record<E>> {
    Entries(chunks, Embeddings(chunks, encode), ChunkIds(|chunks|))
  }

  /** The collection then holds exactly the ids `chunk_0` .. `chunk_{n-1}`,
      `chunk_i` holding chunk i and its embedding, and nothing else. */
  lemma ReplacementContents<E>(chunks: seq<string>, encode: string -> E)
    ensures Replacement(chunks, encode).Keys == ChunkIdSet(|chunks|)
    ensures |Replacement(chunks, encode)| == |chunks|
    ensures forall i :: 0 <= i < |chunks| ==>
      Replacement(chunks, encode)[ChunkId(i)] == Record(chunks[i], encode(chunks[i]))
    ensures forall id :: id in Replacement(chunks, encode) ==>
      Replacement(chunks, encode)[id].document in chunks
  {
    ReplacementKeys(chunks, encode);
    ReplacementDocuments(chunks, encode);
  }

  lemma ReplacementKeys<E>(chunks: seq<string>, encode: string -> E)
    ensures Replacement(chunks, encode).Keys == ChunkIdSet(|chunks|)
  {
    var ids := ChunkIds(|chunks|);
    var records := Replacement(chunks, encode);
    forall id | id in records ensures id in ChunkIdSet(|chunks|) {
      var i :| 0 <= i < |ids| && ids[i] == id;
    }
    forall i | 0 <= i < |chunks| ensures ChunkId(i) in records {
      assert ids[i] == ChunkId(i);
    }
  }

  lemma ReplacementDocuments<E>(chunks: seq<string>, encode: string -> E)
    ensures forall i :: 0 <= i < |chunks| ==>
      Replacement(chunks, encode)[ChunkId(i)] == Record(chunks[i], encode(chunks[i]))
    ensures forall id :: id in Replacement(chunks, encode) ==>
      Replacement(chunks, encode)[id].document in chunks
  {
    var ids := ChunkIds(|chunks|);
    var embeddings := Embeddings(chunks, encode);
    var records := Replacement(chunks, encode);
    forall id | id in records ensures records[id].document in chunks {
      var i :| 0 <= i < |ids| && ids[i] == id;
      assert records[id] == Record(chunks[i], embeddings[i]);
    }
    forall i | 0 <= i < |chunks|
      ensures records[ChunkId(i)] == Record(chunks[i], encode(chunks[i]))
    {
      assert ids[i] == ChunkId(i);
    }
  }

  /** A vector-store collection: entries keyed by id. Only the operations
      `store_embeddings` uses are modelled. */
  class Collection<E> {
    var records: map<string, Record<E>>

    constructor ()
      ensures records == map[]
    {
      records := map[];
    }

    /** `collection.get()["ids"]`: the ids of all stored entries. */
    method Get() returns (ids: set<string>)
      ensures ids == records.Keys
    {
      ids := records.Keys;
    }

    /** `collection.delete(ids=...)`. */
    method Delete(ids: set<string>)
      modifies this
      ensures records == old(records) - ids
    {
      records := records - ids;
    }

    /** `collection.add(...)`: the lists must have equal lengths and hold no
        id twice, which the store checks before adding. Adding an id that is
        already stored is outside the model. */
    method Add(documents: seq<string>, embeddings: seq<E>, ids: seq<string>)
      requires |documents| == |ids| && |embeddings| == |ids|
      requires Distinct(ids)
      requires forall i :: 0 <= i < |ids| ==> ids[i] !in records
      modifies this
      ensures records == old(records) + Entries(documents, embeddings, ids)
    {
      records := records + Entries(documents, embeddings, ids);
    }
  }

  lemma EmptyThenAdd<E>(added: map<string, Record<E>>)
    ensures map[] + added == added
  {
  }

  /** `store_embeddings`: delete every entry of the collection, then add
      `chunk_i` holding `chunks[i]` and its embedding for every position i. */
  method StoreEmbeddings<E>(collection: Collection<E>, chunks: seq<string>, encode: string -> E)
    modifies collection
    ensures collection.records == Replacement(chunks, encode)
  {
    var existing := collection.Get();
    if existing != {} {
      collection.Delete(existing);
    }
    assert collection.records == map[];
    var embeddings := Embeddings(chunks, encode);
    var ids := ChunkIds(|chunks|);
    EmptyThenAdd(Replacement(chunks, encode));
    collection.Add(chunks, embeddings, ids);
  }

  /** Ingesting one document after another leaves only the second one's
      chunks: nothing of the first survives. */
  method Reingest<E>(collection: Collection<E>, first: seq<string>, second: seq<string>, encode: string -> E)
    modifies collection
    ensures collection.records == Replacement(second, encode)
    ensures forall id :: id in collection.records ==> collection.records[id].document in second
  {
    StoreEmbeddings(collection, first, encode);
    StoreEmbeddings(collection, second, encode);
    ReplacementContents(second, encode);
  }
}
