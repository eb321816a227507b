/** `main()` of create_passages.py (lines 44-98) over a list of input
    documents: each document's text is stripped, normalised and split into
    paragraphs, the paragraphs are packed into passages, and the passages
    are counted in the length histogram and written to the shards. A kept
    passage that is empty after stripping makes `math.log2` raise, which
    ends the run. */
module CreatePassages {
  import opened Text
  import opened ParagraphSplit
  import opened Histogram
  import opened Shards
  import opened Passages

  /** The fields of one input line that the program reads: `id` and `text`. */
  datatype Document = Document(id: string, text: string)

  /** Lines 57-63: the stripped text, normalised by `normalize` (the NFKD
      decomposition without combining characters of lines 60-61), split into
      paragraphs. */
  function Paragraphs(normalize: string -> string, text: string): (ps: seq<string>)
    ensures |ps| >= 1
  {
    Split(normalize(Strip(text)))
  }

  /** Every record the loop would write for the documents `docs`, in order,
      if `math.log2` accepted an empty passage. */
  function AllPassages(cfg: Config, normalize: string -> string, docs: seq<Document>): (rs: seq<Passage>)
  {
    if docs == [] then []
    else
      var d := docs[|docs| - 1];
      AllPassages(cfg, normalize, docs[..|docs| - 1]) + DocumentPassages(cfg, d.id, Paragraphs(normalize, d.text))
  }

  /** The slots of `np.zeros(20, dtype=np.int32)`. */
  function Zeros(): (h: seq<Int32>)
    ensures |h| == Buckets && forall b :: 0 <= b < Buckets ==> h[b] == 0
  {
    seq(Buckets, _ => 0 as Int32)
  }

  /** Lines 44-98 over `docs`. The shards hold the records written, which
      are every record of the documents up to the first empty passage;
      `crashed` says whether there was one. The histogram counts exactly the
      records written, and the shards are full but for the last, non-empty,
      and hold the records in order. */
  method Convert(docs: seq<Document>, cfg: Config, normalize: string -> string)
    returns (writer: ShardWriter<Passage>, lengthCounts: array<Int32>, crashed: bool)
    ensures fresh(writer) && fresh(lengthCounts)
    ensures writer.Valid() && writer.log == Emitted(AllPassages(cfg, normalize, docs))
    ensures crashed <==> |writer.log| < |AllPassages(cfg, normalize, docs)|
    ensures AllNonEmpty(writer.log)
    ensures lengthCounts.Length == Buckets && lengthCounts[..] == Tally(Zeros(), ContentsOf(writer.log))
    ensures WellFormed(writer.shards) && Flatten(writer.shards) == writer.log
  {
    writer := new ShardWriter<Passage>();
    lengthCounts := new Int32[Buckets](_ => 0);
    assert lengthCounts[..] == Zeros();
    crashed := false;
    for i := 0 to |docs|
      invariant writer.Valid() && writer.log == AllPassages(cfg, normalize, docs[..i])
      invariant AllNonEmpty(writer.log)
      invariant lengthCounts[..] == Tally(Zeros(), ContentsOf(writer.log))
    {
      var d := docs[i];
      var paragraphs := Paragraphs(normalize, d.text);
      ghost var done := writer.log;
      var records, _, stopped := BuildPassages(d.id, paragraphs, cfg, lengthCounts, writer);
      NextDocument(cfg, normalize, docs, i);
      CountAppended(done, records);
      if stopped {
        CrashedRun(cfg, normalize, docs, i, done, records);
        crashed := true;
        ChunksWellFormed(writer.log);
        return;
      }
    }
    assert docs[..|docs|] == docs;
    EmittedAll(writer.log);
    ChunksWellFormed(writer.log);
  }

  /** The histogram of a whole run: `Convert` writes `Emitted(AllPassages(...))`
      and leaves `Tally(Zeros(), ...)` of it in `length_counts`; unless a slot
      overflows, those slots add up to the number of records written. */
  lemma RunTotal(cfg: Config, normalize: string -> string, docs: seq<Document>)
    ensures var log := Emitted(AllPassages(cfg, normalize, docs));
      AllNonEmpty(log) &&
      ((forall b :: 0 <= b < Buckets ==> CountInBucket(ContentsOf(log), b) < 0x8000_0000) ==>
        Sum(Tally(Zeros(), ContentsOf(log))) == |log|)
  {
    var log := Emitted(AllPassages(cfg, normalize, docs));
    HistogramTotal(log);
  }

  /** Counting records from the zeroed histogram: unless a slot overflows,
      the slots add up to the number of records. */
  lemma HistogramTotal(rs: seq<Passage>)
    requires AllNonEmpty(rs)
    ensures (forall b :: 0 <= b < Buckets ==> CountInBucket(ContentsOf(rs), b) < 0x8000_0000) ==>
      Sum(Tally(Zeros(), ContentsOf(rs))) == |rs|
  {
    if forall b :: 0 <= b < Buckets ==> CountInBucket(ContentsOf(rs), b) < 0x8000_0000 {
      SumZeros(Zeros());
      TallySum(Zeros(), ContentsOf(rs));
    }
  }

  lemma ContentsAppend(a: seq<Passage>, b: seq<Passage>)
    ensures ContentsOf(a + b) == ContentsOf(a) + ContentsOf(b)
  {
  }

  /** Counting a document's records after those of the documents before it
      is counting all of them from zero. */
  lemma CountAppended(done: seq<Passage>, records: seq<Passage>)
    requires AllNonEmpty(done) && AllNonEmpty(records)
    ensures AllNonEmpty(done + records)
    ensures Tally(Tally(Zeros(), ContentsOf(done)), ContentsOf(records)) == Tally(Zeros(), ContentsOf(done + records))
  {
    ContentsAppend(done, records);
    TallyAppend(Zeros(), ContentsOf(done), ContentsOf(records));
  }

  /** The records of the first documents come first among the records of
      all of them. */
  lemma {:induction false} AllPassagesPrefix(cfg: Config, normalize: string -> string, docs: seq<Document>, n: nat)
    requires n <= |docs|
    ensures var p := AllPassages(cfg, normalize, docs[..n]);
      var all := AllPassages(cfg, normalize, docs);
      |p| <= |all| && all[..|p|] == p
    decreases |docs|
  {
    if n < |docs| {
      var init := docs[..|docs| - 1];
      assert init[..n] == docs[..n];
      AllPassagesPrefix(cfg, normalize, init, n);
    } else {
      assert docs[..n] == docs;
    }
  }

  /** Every record carries the id of one of the documents `docs` and
      passed the newline test of line 77. */
  predicate FromDocuments(rs: seq<Passage>, docs: seq<Document>) {
    forall i :: 0 <= i < |rs| ==>
      Count(rs[i].contents, '\n') <= NewlineLimit && exists j :: 0 <= j < |docs| && rs[i].id == docs[j].id
  }

  /** Every record the run produces belongs to one of its documents and
      passed the newline test. */
  lemma {:induction false} AllPassagesRecords(cfg: Config, normalize: string -> string, docs: seq<Document>)
    ensures FromDocuments(AllPassages(cfg, normalize, docs), docs)
  {
    if docs != [] {
      var n := |docs| - 1;
      var d := docs[n];
      AllPassagesRecords(cfg, normalize, docs[..n]);
      DocumentRecords(cfg, d.id, Paragraphs(normalize, d.text));
      FromDocumentsAppend(AllPassages(cfg, normalize, docs[..n]), DocumentPassages(cfg, d.id, Paragraphs(normalize, d.text)),
                          docs);
    }
  }

  lemma FromDocumentsAppend(a: seq<Passage>, b: seq<Passage>, docs: seq<Document>)
    requires docs != [] && FromDocuments(a, docs[..|docs| - 1])
    requires forall i :: 0 <= i < |b| ==> b[i].id == docs[|docs| - 1].id && Count(b[i].contents, '\n') <= NewlineLimit
    ensures FromDocuments(a + b, docs)
  {
    var rs, n := a + b, |docs| - 1;
    forall i | 0 <= i < |rs|
      ensures Count(rs[i].contents, '\n') <= NewlineLimit && exists j :: 0 <= j < |docs| && rs[i].id == docs[j].id
    {
      if i < |a| {
        var j :| 0 <= j < n && a[i].id == docs[..n][j].id;
        assert docs[..n][j] == docs[j];
      } else {
        assert rs[i] == b[i - |a|];
      }
    }
  }

  /** The records of the first `i + 1` documents. */
  lemma NextDocument(cfg: Config, normalize: string -> string, docs: seq<Document>, i: nat)
    requires i < |docs|
    ensures AllPassages(cfg, normalize, docs[..i + 1]) ==
      AllPassages(cfg, normalize, docs[..i]) + DocumentPassages(cfg, docs[i].id, Paragraphs(normalize, docs[i].text))
  {
    assert docs[..i + 1][..i] == docs[..i];
  }

  /** A document that stops at an empty passage stops the whole run: the
      records written are the emitted prefix of all the documents' records,
      and some records are never written. */
  lemma CrashedRun(cfg: Config, normalize: string -> string, docs: seq<Document>, i: nat,
                   done: seq<Passage>, records: seq<Passage>)
    requires i < |docs| && done == AllPassages(cfg, normalize, docs[..i]) && AllNonEmpty(done)
    requires var d := docs[i]; var ds := DocumentPassages(cfg, d.id, Paragraphs(normalize, d.text));
      records == Emitted(ds) && |records| < |ds|
    ensures done + records == Emitted(AllPassages(cfg, normalize, docs))
    ensures |done + records| < |AllPassages(cfg, normalize, docs)|
  {
    var rest := AllPassagesSplit(cfg, normalize, docs, i);
    EmittedCut(done, DocumentPassages(cfg, docs[i].id, Paragraphs(normalize, docs[i].text)), rest);
  }

  /** The records of all documents are those of the documents before `i`,
      then those of document `i`, then the rest. */
  lemma AllPassagesSplit(cfg: Config, normalize: string -> string, docs: seq<Document>, i: nat)
    returns (rest: seq<Passage>)
    requires i < |docs|
    ensures AllPassages(cfg, normalize, docs) ==
      AllPassages(cfg, normalize, docs[..i]) + DocumentPassages(cfg, docs[i].id, Paragraphs(normalize, docs[i].text)) + rest
  {
    NextDocument(cfg, normalize, docs, i);
    AllPassagesPrefix(cfg, normalize, docs, i + 1);
    rest := PrefixRest(AllPassages(cfg, normalize, docs), AllPassages(cfg, normalize, docs[..i]),
                       DocumentPassages(cfg, docs[i].id, Paragraphs(normalize, docs[i].text)));
  }

  lemma PrefixRest<T>(all: seq<T>, a: seq<T>, b: seq<T>) returns (rest: seq<T>)
    requires |a + b| <= |all| && all[..|a + b|] == a + b
    ensures all == a + b + rest
  {
    rest := all[|a + b|..];
    assert all == all[..|a + b|] + rest;
  }

  /** Emission stops inside the middle part `ds` when it holds an empty
      passage, whatever follows. */
  lemma EmittedCut(done: seq<Passage>, ds: seq<Passage>, rest: seq<Passage>)
    requires AllNonEmpty(done) && |Emitted(ds)| < |ds|
    ensures Emitted(done + ds + rest) == done + Emitted(ds)
  {
    var records := Emitted(ds);
    assert done + ds + rest == done + (ds + rest);
    EmittedAppend(done, ds + rest);
    assert (ds + rest)[..|records| + 1] == records + [ds[|records|]];
    EmittedStops(ds + rest, records, ds[|records|]);
  }
}
