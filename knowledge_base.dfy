/** The knowledge base of chatbot.py: an append-only collection of
    (id, document, category) records that the admin's save action fills one
    chunk at a time and the clear action empties, and the context text built
    from documents a query returns. */
module KnowledgeBase {
  import opened Paragraphs
  import opened Decimal

  /** One entry of the collection: its id, its document text and the
      category stored in its metadata. */
  datatype Record = Record(id: string, document: string, category: string)

  /** What the save action reports: the number of chunks added, or that one
      of the two fields was left empty. */
  datatype SaveOutcome = Added(count: nat) | MissingField

  /** `f"{category}_{size}_{index}"`, where `size` is the collection's
      length when the record is added and `index` the chunk's position. */
  function RecordId(category: string, size: nat, index: nat): string {
    category + "_" + Show(size) + "_" + Show(index)
  }

  /** The record at position `k` carries the id the save action gives it:
      its own category, then `k`, then some chunk index. */
  ghost predicate PositionalId(r: Record, k: nat) {
    exists i: nat :: r.id == RecordId(r.category, k, i)
  }

  /** What a collection filled only by the save action looks like: every
      document is a chunk, and every id names the record's own position. */
  ghost predicate WellFormed(records: seq<Record>) {
    forall k :: 0 <= k < |records| ==> IsChunk(records[k].document) && PositionalId(records[k], k)
  }

  // ---------------------------------------------------------------------
  // Record ids.

  /** In `x + "_" + d` with `d` all digits, the last '_' sits at `|x|`. */
  lemma {:induction false} LastUnderscore(x: string, d: string)
    requires AllDigits(d)
    ensures var s := x + "_" + d;
      s[|x|] == '_' && forall k :: |x| < k < |s| ==> IsDigit(s[k])
  {
    var s := x + "_" + d;
    forall k | |x| < k < |s| ensures IsDigit(s[k]) {
      assert s[k] == d[k - |x| - 1];
    }
  }

  /** A number appended after '_' can be read back off the end. */
  lemma {:induction false} PeelNumber(x: string, d: string, y: string, e: string)
    requires AllDigits(d) && AllDigits(e)
    ensures x + "_" + d == y + "_" + e ==> x == y && d == e
  {
    LastUnderscore(x, d);
    LastUnderscore(y, e);
    if x + "_" + d == y + "_" + e {
      var s := x + "_" + d;
      assert |x| == |y|;
      assert x == s[..|x|] && y == s[..|y|];
      assert d == s[|x| + 1..] && e == s[|y| + 1..];
    }
  }

  /** Equal ids have equal categories, sizes and chunk indices. */
  lemma {:induction false} RecordIdInjective(c1: string, n1: nat, i1: nat, c2: string, n2: nat, i2: nat)
    ensures RecordId(c1, n1, i1) == RecordId(c2, n2, i2) ==> c1 == c2 && n1 == n2 && i1 == i2
  {
    PeelNumber(c1 + "_" + Show(n1), Show(i1), c2 + "_" + Show(n2), Show(i2));
    PeelNumber(c1, Show(n1), c2, Show(n2));
    ValueShow(n1);
    ValueShow(n2);
    ValueShow(i1);
    ValueShow(i2);
  }

  /** In a collection filled only by the save action no two records share
      an id, so adding a record never meets an id already taken. */
  lemma {:induction false} IdsDistinct(records: seq<Record>)
    requires WellFormed(records)
    ensures forall p, q :: 0 <= p < q < |records| ==> records[p].id != records[q].id
  {
    forall p, q | 0 <= p < q < |records| ensures records[p].id != records[q].id {
      assert PositionalId(records[p], p) && PositionalId(records[q], q);
      var i: nat :| records[p].id == RecordId(records[p].category, p, i);
      var j: nat :| records[q].id == RecordId(records[q].category, q, j);
      RecordIdInjective(records[p].category, p, i, records[q].category, q, j);
    }
  }

  /** The records the save action adds for `chunks` to a collection of
      `size` records: chunk `i` becomes record `size + i`, with id
      `RecordId(category, size + i, i)`. */
  function Entries(chunks: seq<string>, category: string, size: nat): seq<Record> {
    seq(|chunks|, i requires 0 <= i < |chunks| => Record(RecordId(category, size + i, i), chunks[i], category))
  }

  /** Saving chunks keeps a well-formed collection well formed: the new
      records hold chunks, and each id names the position the record lands
      at, because `size` is the collection's length when the save starts. */
  lemma {:induction false} EntriesWellFormed(records: seq<Record>, chunks: seq<string>, category: string)
    requires WellFormed(records)
    requires forall j :: 0 <= j < |chunks| ==> IsChunk(chunks[j])
    ensures WellFormed(records + Entries(chunks, category, |records|))
  {
    var added := Entries(chunks, category, |records|);
    var rs := records + added;
    forall k | 0 <= k < |rs| ensures IsChunk(rs[k].document) && PositionalId(rs[k], k) {
      if k < |records| {
        assert rs[k] == records[k];
      } else {
        var i := k - |records|;
        assert rs[k] == added[i];
        assert rs[k].id == RecordId(rs[k].category, k, i);
      }
    }
  }

  // ---------------------------------------------------------------------
  // The context handed to the language model.

  /** `"\n\n".join(results['documents'][0])` when the query returned a
      non-empty first list of documents, "" otherwise. */
  function Context(documents: seq<seq<string>>): string {
    if |documents| > 0 && |documents[0]| > 0 then Join(documents[0]) else ""
  }

  /** Chunking the context of stored documents gives back exactly those
      documents, in the order the query returned them: the join loses no
      paragraph boundary and merges no two documents. */
  lemma {:induction false} ContextRoundTrip(records: seq<Record>, docs: seq<string>)
    requires WellFormed(records)
    requires forall j :: 0 <= j < |docs| ==> exists k :: 0 <= k < |records| && records[k].document == docs[j]
    ensures Chunks(Context([docs])) == docs
  {
    forall j | 0 <= j < |docs| ensures IsChunk(docs[j]) {
      var k :| 0 <= k < |records| && records[k].document == docs[j];
    }
    ChunksJoin(docs);
    if docs == [] {
      ChunksEmpty("");
    }
  }

  // ---------------------------------------------------------------------
  // The collection.

  class Store {
    /** The collection's records, oldest first. */
    var records: seq<Record>

    ghost predicate Valid()
      reads this
    {
      WellFormed(records)
    }

    /** Opening the collection with whatever it already holds. */
    constructor (persisted: seq<Record>)
      ensures records == persisted
    {
      records := persisted;
    }

    /** The save button. With both fields non-empty, it appends one record
        per chunk of `text`, in chunk order, and reports how many it added;
        otherwise it reports the missing field and changes nothing. */
    method Save(text: string, category: string) returns (outcome: SaveOutcome)
      modifies this
      ensures text == [] || category == [] ==>
        outcome == MissingField && records == old(records)
      ensures text != [] && category != [] ==>
        outcome == Added(|Chunks(text)|) && records == old(records) + Entries(Chunks(text), category, |old(records)|)
      ensures old(Valid()) ==> Valid()
    {
      if text != [] && category != [] {
        var chunks := Chunks(text);
        ChunksWellFormed(text);
        AddChunks(chunks, category);
        outcome := Added(|chunks|);
      } else {
        outcome := MissingField;
      }
    }

    /** The loop of the save action: each chunk is added in turn, its id
        built from the collection's length at that moment and the chunk's
        index. */
    method AddChunks(chunks: seq<string>, category: string)
      modifies this
      ensures records == old(records) + Entries(chunks, category, |old(records)|)
      ensures old(Valid()) && (forall j :: 0 <= j < |chunks| ==> IsChunk(chunks[j])) ==> Valid()
    {
      ghost var start := records;
      for i := 0 to |chunks|
        invariant records == start + Entries(chunks[..i], category, |start|)
      {
        var size := |records|;
        records := records + [Record(RecordId(category, size, i), chunks[i], category)];
      }
      assert chunks[..|chunks|] == chunks;
      if WellFormed(start) && forall j :: 0 <= j < |chunks| ==> IsChunk(chunks[j]) {
        EntriesWellFormed(start, chunks, category);
      }
    }

    /** The clear button: the collection is dropped and created anew. */
    method Clear()
      modifies this
      ensures records == [] && Valid()
    {
      records := [];
    }
  }
}
