/** The per-document passage builder of `main()` in create_passages.py: the
    greedy loop that packs paragraphs into passages (lines 65-98).

    The specification works on paragraph indices: the accumulator
    `current_passage` always holds `Glue(ps[start..k])` for some `start`, so
    the state after each paragraph is that `start` together with the
    windows `[lo, hi)` of paragraphs whose accumulation reached the target
    length and was offered for emission. */
module Passages {
  import opened Text
  import opened Histogram
  import opened Shards

  /** The thresholds `--min_length`, `--max_length` and
      `--target_passage_length`. `--max_newlines` is parsed but never read:
      the newline test compares with the literal `NewlineLimit`. */
  datatype Config = Config(minLength: int, maxLength: int, targetLength: int)

  /** One output record, `{"id": ..., "contents": ...}`. */
  datatype Passage = Passage(id: string, contents: string)

  /** The literal 7 of line 77. */
  const NewlineLimit: nat := 7

  /** `p0 + "\n\n" + p1 + "\n\n" + ...`: what the accumulator holds after
      appending the paragraphs `ps` to an empty one. */
  function Glue(ps: seq<string>): (r: string)
    ensures (r == []) == (ps == [])
  {
    if ps == [] then [] else Glue(ps[..|ps| - 1]) + ps[|ps| - 1] + "\n\n"
  }

  /** The paragraphs `ps[lo..hi]` of one emission attempt. */
  datatype Window = Window(lo: nat, hi: nat)

  /** State after a prefix of the paragraphs: the accumulator holds
      `Glue(ps[start..k])`, and `attempts` lists the windows offered for
      emission so far, in order. */
  datatype Scan = Scan(start: nat, attempts: seq<Window>)

  /** The state machine of lines 67-98 run over `ps[..n]`. Every attempted
      window lies before the accumulator: whatever the accumulator holds
      has not been offered for emission. */
  function ScanPrefix(cfg: Config, ps: seq<string>, n: nat): (s: Scan)
    requires n <= |ps|
    ensures s.start <= n && |s.attempts| <= s.start
    ensures forall i :: 0 <= i < |s.attempts| ==> s.attempts[i].lo < s.attempts[i].hi <= s.start
  {
    if n == 0 then Scan(0, [])
    else
      var prev := ScanPrefix(cfg, ps, n - 1);
      var k := n - 1;
      if |ps[k]| > cfg.maxLength then
        // a paragraph over the maximum empties the accumulator
        Scan(n, prev.attempts)
      else if prev.start == k && |ps[k]| < cfg.minLength then
        // a short paragraph does not start a passage
        Scan(n, prev.attempts)
      else if |Glue(ps[prev.start..n])| >= cfg.targetLength then
        // the target is reached: offer the accumulation, then empty it
        Scan(n, prev.attempts + [Window(prev.start, n)])
      else
        Scan(prev.start, prev.attempts)
  }

  predicate InRange(ps: seq<string>, ws: seq<Window>) {
    forall i :: 0 <= i < |ws| ==> ws[i].lo <= ws[i].hi <= |ps|
  }

  /** Stripped text of the paragraphs of one window: it neither starts nor
      ends with whitespace. */
  function Contents(ps: seq<string>, w: Window): (r: string)
    requires w.lo <= w.hi <= |ps|
    ensures r == [] || (!IsSpace(r[0]) && !IsSpace(r[|r| - 1]))
  {
    Strip(Glue(ps[w.lo..w.hi]))
  }

  /** The records kept from the attempts `ws`: those whose stripped text has
      at most `NewlineLimit` line feeds, in order. */
  function Kept(id: string, ps: seq<string>, ws: seq<Window>): (r: seq<Passage>)
    requires InRange(ps, ws)
    ensures |r| <= |ws|
    ensures forall i :: 0 <= i < |r| ==> r[i].id == id && Count(r[i].contents, '\n') <= NewlineLimit
  {
    if ws == [] then []
    else
      var r := Kept(id, ps, ws[..|ws| - 1]);
      var c := Contents(ps, ws[|ws| - 1]);
      if Count(c, '\n') <= NewlineLimit then r + [Passage(id, c)] else r
  }

  /** Every record the loop would emit for document `id` split into `ps`,
      if `math.log2` accepted an empty passage: at most one per paragraph. */
  function DocumentPassages(cfg: Config, id: string, ps: seq<string>): (r: seq<Passage>)
    ensures |r| <= |ps|
  {
    Kept(id, ps, ScanPrefix(cfg, ps, |ps|).attempts)
  }

  /** Every record of a document carries its id and passed the newline test. */
  lemma DocumentRecords(cfg: Config, id: string, ps: seq<string>)
    ensures var r := DocumentPassages(cfg, id, ps);
      forall i :: 0 <= i < |r| ==> r[i].id == id && Count(r[i].contents, '\n') <= NewlineLimit
  {
  }

  /** The records written before the first one whose contents are empty:
      `math.log2(0)` raises there and ends the run. */
  function Emitted(rs: seq<Passage>): (r: seq<Passage>)
    ensures |r| <= |rs| && r == rs[..|r|]
    ensures forall i :: 0 <= i < |r| ==> r[i].contents != []
    ensures |r| < |rs| ==> rs[|r|].contents == []
  {
    if rs == [] || rs[0].contents == [] then [] else [rs[0]] + Emitted(rs[1..])
  }

  /** No record has empty contents: the condition for counting them all in
      the histogram. */
  predicate AllNonEmpty(rs: seq<Passage>) {
    NonEmpty(ContentsOf(rs))
  }

  function ContentsOf(rs: seq<Passage>): (cs: seq<string>)
    ensures |cs| == |rs| && forall i :: 0 <= i < |rs| ==> cs[i] == rs[i].contents
  {
    seq(|rs|, i requires 0 <= i < |rs| => rs[i].contents)
  }

  /** What the loop knows after the first `k` paragraphs: the state machine
      is at `Scan(start, attempts)`, the accumulator holds the paragraphs
      from `start` on, and the records are the kept attempts, none empty. */
  ghost predicate Accumulated(cfg: Config, id: string, ps: seq<string>, k: nat,
                              current: string, records: seq<Passage>, start: nat, attempts: seq<Window>)
  {
    k <= |ps| &&
    ScanPrefix(cfg, ps, k) == Scan(start, attempts) &&
    current == Glue(ps[start..k]) &&
    records == Kept(id, ps, attempts) &&
    AllNonEmpty(records)
  }

  /** The loop of lines 65-98 for one document: `current_passage` is the
      accumulator, `lengthCounts` the histogram of line 49. `crashed` reports
      that a kept passage was empty after stripping, where `math.log2`
      raises; the records before it have been emitted and counted. */
  method BuildPassages(id: string, paragraphs: seq<string>, cfg: Config, lengthCounts: array<Int32>,
                       writer: ShardWriter<Passage>)
    returns (records: seq<Passage>, passageCount: nat, crashed: bool)
    requires lengthCounts.Length == Buckets && writer.Valid()
    modifies lengthCounts, writer
    ensures records == Emitted(DocumentPassages(cfg, id, paragraphs))
    ensures crashed == (|records| < |DocumentPassages(cfg, id, paragraphs)|)
    ensures AllNonEmpty(records)
    ensures lengthCounts[..] == Tally(old(lengthCounts[..]), ContentsOf(records))
    ensures passageCount == |records|
    ensures writer.Valid() && writer.log == old(writer.log) + records
  {
    var currentPassage: string := "";
    ghost var start: nat := 0;
    ghost var attempts: seq<Window> := [];
    ghost var h0, f0 := lengthCounts[..], writer.log;
    records, passageCount, crashed := [], 0, false;
    for k := 0 to |paragraphs|
      invariant Accumulated(cfg, id, paragraphs, k, currentPassage, records, start, attempts)
      invariant lengthCounts[..] == Tally(h0, ContentsOf(records))
      invariant passageCount == |records| && !crashed
      invariant writer.Valid() && writer.log == f0 + records
    {
      ghost var s0, a0, c0 := start, attempts, currentPassage;
      ghost var w: Window;
      var offered: Offered;
      currentPassage, offered, start, attempts, w := Advance(cfg, paragraphs, k, currentPassage, start, attempts);
      var written := records;
      if offered.Reached? {
        written, crashed := EmitPassage(id, offered.passage, records, lengthCounts, writer, h0, f0);
        if crashed {
          CrashStep(cfg, id, paragraphs, k, c0, records, s0, a0, start, attempts, w);
          return;
        }
      }
      StepAccumulated(cfg, id, paragraphs, k, c0, records, s0, a0, currentPassage, start, attempts, offered, w, written);
      if |written| > |records| {
        passageCount := passageCount + 1;
      }
      records := written;
    }
    AllAccumulated(cfg, id, paragraphs, currentPassage, records, start, attempts);
  }

  /** One paragraph of the loop keeps what the loop knows: the records grow
      by the offered contents exactly when they pass the newline test. */
  lemma StepAccumulated(cfg: Config, id: string, ps: seq<string>, k: nat, current: string,
                        records: seq<Passage>, start: nat, attempts: seq<Window>,
                        current': string, start': nat, attempts': seq<Window>,
                        offered: Offered, w: Window, written: seq<Passage>)
    requires k < |ps| && Accumulated(cfg, id, ps, k, current, records, start, attempts)
    requires ScanPrefix(cfg, ps, k + 1) == Scan(start', attempts') && current' == Glue(ps[start'..k + 1])
    requires attempts' == if offered.Reached? then attempts + [w] else attempts
    requires w.lo <= w.hi <= |ps| && (offered.Reached? ==> offered.passage == Contents(ps, w))
    requires written == if offered.Reached? && Count(offered.passage, '\n') <= NewlineLimit
      then records + [Passage(id, offered.passage)] else records
    requires AllNonEmpty(written)
    ensures Accumulated(cfg, id, ps, k + 1, current', written, start', attempts')
  {
    if offered.Reached? {
      KeptSnoc(id, ps, attempts, w);
    }
  }

  /** A kept attempt whose contents are empty ends the run with the records
      before it, which are then the emitted prefix of the document's records. */
  lemma CrashStep(cfg: Config, id: string, ps: seq<string>, k: nat, current: string,
                  records: seq<Passage>, start: nat, attempts: seq<Window>,
                  start': nat, attempts': seq<Window>, w: Window)
    requires k < |ps| && Accumulated(cfg, id, ps, k, current, records, start, attempts)
    requires ScanPrefix(cfg, ps, k + 1) == Scan(start', attempts') && attempts' == attempts + [w]
    requires w.lo <= w.hi <= |ps| && Contents(ps, w) == []
    ensures records == Emitted(DocumentPassages(cfg, id, ps))
    ensures |records| < |DocumentPassages(cfg, id, ps)|
  {
    KeptSnoc(id, ps, attempts, w);
    EmptyPassageStops(cfg, id, ps, k, records);
  }

  /** At the end of the document the records are all the kept attempts;
      what is left in the accumulator is dropped. */
  lemma AllAccumulated(cfg: Config, id: string, ps: seq<string>, current: string,
                       records: seq<Passage>, start: nat, attempts: seq<Window>)
    requires Accumulated(cfg, id, ps, |ps|, current, records, start, attempts)
    ensures records == DocumentPassages(cfg, id, ps) && records == Emitted(records)
  {
    EmittedAll(records);
  }

  /** What one paragraph does to the accumulator (lines 68-76): the
      stripped accumulation when it reached the target length. */
  datatype Offered = NotReached | Reached(passage: string)

  /** Lines 68-76 and 98 on paragraph `k`: the state machine takes one step,
      and when it offers a window the stripped accumulation is its
      contents. */
  method Advance(cfg: Config, paragraphs: seq<string>, k: nat, currentPassage: string,
                 ghost start: nat, ghost attempts: seq<Window>)
    returns (current: string, offered: Offered, ghost start': nat, ghost attempts': seq<Window>, ghost w: Window)
    requires k < |paragraphs| && ScanPrefix(cfg, paragraphs, k) == Scan(start, attempts)
    requires currentPassage == Glue(paragraphs[start..k])
    ensures ScanPrefix(cfg, paragraphs, k + 1) == Scan(start', attempts')
    ensures current == Glue(paragraphs[start'..k + 1])
    ensures attempts' == if offered.Reached? then attempts + [w] else attempts
    ensures w.lo <= w.hi <= |paragraphs|
    ensures offered.Reached? ==> offered.passage == Contents(paragraphs, w)
    ensures |paragraphs[k]| > cfg.maxLength ==> current == "" && offered == NotReached
    ensures currentPassage == "" && |paragraphs[k]| < cfg.minLength ==> current == "" && offered == NotReached
    ensures offered.Reached? ==> current == "" && |currentPassage| + |paragraphs[k]| + 2 >= cfg.targetLength
  {
    current, offered, start', attempts', w := currentPassage, NotReached, start, attempts, Window(0, 0);
    var paragraph := paragraphs[k];
    var plen := |paragraph|;
    if plen > cfg.maxLength {
      ScanDiscard(cfg, paragraphs, k, start, attempts);
      current, start' := "", k + 1;
      assert paragraphs[start'..k + 1] == [];
      return;
    }
    if current == "" && plen < cfg.minLength {
      ScanDiscard(cfg, paragraphs, k, start, attempts);
      start' := k + 1;
      assert paragraphs[start'..k + 1] == [];
      return;
    }
    GlueSnoc(paragraphs, start, k);
    current := current + paragraph + "\n\n";
    if |current| < cfg.targetLength {
      ScanGrow(cfg, paragraphs, k, start, attempts);
      return;
    }
    w := Window(start, k + 1);
    ScanAttempt(cfg, paragraphs, k, start, attempts);
    assert current == Glue(paragraphs[w.lo..w.hi]);
    offered := Reached(Strip(current));
    current, start', attempts' := "", k + 1, attempts + [w];
    assert paragraphs[start'..k + 1] == [];
  }

  /** Lines 77-97 for the stripped accumulation `contents`: a passage with
      at most `NewlineLimit` line feeds is counted in the slot of its length
      and written to the current shard; an empty one makes `math.log2`
      raise, which `crashed` reports, before anything is changed. */
  method EmitPassage(id: string, contents: string, records: seq<Passage>, lengthCounts: array<Int32>,
                     writer: ShardWriter<Passage>, ghost h: seq<Int32>, ghost before: seq<Passage>)
    returns (written: seq<Passage>, crashed: bool)
    requires lengthCounts.Length == |h| == Buckets && AllNonEmpty(records)
    requires lengthCounts[..] == Tally(h, ContentsOf(records))
    requires writer.Valid() && writer.log == before + records
    modifies lengthCounts, writer
    ensures crashed <==> Count(contents, '\n') <= NewlineLimit && contents == []
    ensures written == if Count(contents, '\n') <= NewlineLimit && !crashed then records + [Passage(id, contents)] else records
    ensures writer.Valid() && writer.log == before + written
    ensures AllNonEmpty(written)
    ensures lengthCounts[..] == Tally(h, ContentsOf(written))
  {
    written, crashed := records, false;
    if Count(contents, '\n') > NewlineLimit {
      return;
    }
    if contents == [] {
      crashed := true;
      return;
    }
    var lndx := Bucket(|contents|);
    ghost var slots := lengthCounts[..];
    lengthCounts[lndx] := Inc(lengthCounts[lndx]);
    assert lengthCounts[..] == slots[lndx := Inc(slots[lndx])];
    TallySnoc(h, records, Passage(id, contents));
    writer.Write(Passage(id, contents));
    written := records + [Passage(id, contents)];
  }

  /** A paragraph over the maximum, or a short one reaching an empty
      accumulator, leaves the accumulator empty and offers nothing. */
  lemma ScanDiscard(cfg: Config, ps: seq<string>, k: nat, start: nat, attempts: seq<Window>)
    requires k < |ps| && ScanPrefix(cfg, ps, k) == Scan(start, attempts)
    requires |ps[k]| > cfg.maxLength || (start == k && |ps[k]| < cfg.minLength)
    ensures ScanPrefix(cfg, ps, k + 1) == Scan(k + 1, attempts)
  {
  }

  /** An appended paragraph that brings the accumulator to the target
      length offers the accumulated window. */
  lemma ScanAttempt(cfg: Config, ps: seq<string>, k: nat, start: nat, attempts: seq<Window>)
    requires k < |ps| && ScanPrefix(cfg, ps, k) == Scan(start, attempts)
    requires |ps[k]| <= cfg.maxLength && !(start == k && |ps[k]| < cfg.minLength)
    requires |Glue(ps[start..k + 1])| >= cfg.targetLength
    ensures ScanPrefix(cfg, ps, k + 1) == Scan(k + 1, attempts + [Window(start, k + 1)])
  {
  }

  /** Otherwise the paragraph only grows the accumulator. */
  lemma ScanGrow(cfg: Config, ps: seq<string>, k: nat, start: nat, attempts: seq<Window>)
    requires k < |ps| && ScanPrefix(cfg, ps, k) == Scan(start, attempts)
    requires |ps[k]| <= cfg.maxLength && !(start == k && |ps[k]| < cfg.minLength)
    requires |Glue(ps[start..k + 1])| < cfg.targetLength
    ensures ScanPrefix(cfg, ps, k + 1) == Scan(start, attempts)
  {
  }

  lemma GlueSnoc(ps: seq<string>, lo: nat, k: nat)
    requires lo <= k < |ps|
    ensures Glue(ps[lo..k + 1]) == Glue(ps[lo..k]) + ps[k] + "\n\n"
  {
    assert ps[lo..k + 1][..k - lo] == ps[lo..k];
  }

  lemma KeptSnoc(id: string, ps: seq<string>, ws: seq<Window>, w: Window)
    requires InRange(ps, ws) && w.lo <= w.hi <= |ps|
    ensures InRange(ps, ws + [w])
    ensures Kept(id, ps, ws + [w]) ==
      if Count(Contents(ps, w), '\n') <= NewlineLimit then Kept(id, ps, ws) + [Passage(id, Contents(ps, w))]
      else Kept(id, ps, ws)
  {
    assert (ws + [w])[..|ws|] == ws;
  }

  lemma TallySnoc(h: seq<Int32>, rs: seq<Passage>, r: Passage)
    requires |h| == Buckets && AllNonEmpty(rs) && r.contents != []
    ensures AllNonEmpty(rs + [r])
    ensures var t := Tally(h, ContentsOf(rs)); var b := Bucket(|r.contents|);
      Tally(h, ContentsOf(rs + [r])) == t[b := Inc(t[b])]
  {
    var cs := ContentsOf(rs + [r]);
    assert cs == ContentsOf(rs) + [r.contents];
    assert cs[..|cs| - 1] == ContentsOf(rs);
  }

  /** Stopping at the first empty kept passage emits exactly the records
      before it. */
  lemma EmptyPassageStops(cfg: Config, id: string, ps: seq<string>, k: nat, records: seq<Passage>)
    requires k < |ps|
    requires AllNonEmpty(records)
    requires Kept(id, ps, ScanPrefix(cfg, ps, k + 1).attempts) == records + [Passage(id, [])]
    ensures records == Emitted(DocumentPassages(cfg, id, ps))
    ensures |records| < |DocumentPassages(cfg, id, ps)|
  {
    KeptPrefix(cfg, id, ps, k + 1);
    EmittedStops(DocumentPassages(cfg, id, ps), records, Passage(id, []));
  }

  /** What the loop keeps from a prefix of the paragraphs is a prefix of what
      it keeps from the whole document. */
  lemma KeptPrefix(cfg: Config, id: string, ps: seq<string>, m: nat)
    requires m <= |ps|
    ensures var p := Kept(id, ps, ScanPrefix(cfg, ps, m).attempts);
      var d := DocumentPassages(cfg, id, ps);
      |p| <= |d| && d[..|p|] == p
  {
    var done := ScanPrefix(cfg, ps, m).attempts;
    var all := ScanPrefix(cfg, ps, |ps|).attempts;
    ScanExtends(cfg, ps, m, |ps|);
    assert all == done + all[|done|..];
    KeptAppend(id, ps, done, all[|done|..]);
  }

  lemma {:induction false} EmittedStops(rs: seq<Passage>, a: seq<Passage>, x: Passage)
    requires AllNonEmpty(a) && x.contents == []
    requires |a| < |rs| && rs[..|a| + 1] == a + [x]
    ensures Emitted(rs) == a
    decreases |a|
  {
    if a == [] {
      assert rs[0] == x;
    } else {
      assert rs[0] == a[0];
      assert rs[1..][..|a|] == a[1..] + [x];
      EmittedStops(rs[1..], a[1..], x);
      assert a == [a[0]] + a[1..];
    }
  }

  lemma {:induction false} EmittedAppend(a: seq<Passage>, b: seq<Passage>)
    requires AllNonEmpty(a)
    ensures Emitted(a + b) == a + Emitted(b)
    decreases |a|
  {
    if a == [] {
      assert a + b == b;
    } else {
      assert (a + b)[0] == a[0];
      assert (a + b)[1..] == a[1..] + b;
      EmittedAppend(a[1..], b);
      assert a == [a[0]] + a[1..];
    }
  }

  lemma EmittedAll(a: seq<Passage>)
    requires AllNonEmpty(a)
    ensures Emitted(a) == a
  {
    EmittedAppend(a, []);
    assert a + [] == a;
  }

  lemma {:induction false} KeptAppend(id: string, ps: seq<string>, ws: seq<Window>, vs: seq<Window>)
    requires InRange(ps, ws) && InRange(ps, vs)
    ensures InRange(ps, ws + vs)
    ensures Kept(id, ps, ws + vs) == Kept(id, ps, ws) + Kept(id, ps, vs)
    decreases |vs|
  {
    if vs == [] {
      assert ws + vs == ws;
    } else {
      var vs' := vs[..|vs| - 1];
      assert (ws + vs)[..|ws + vs| - 1] == ws + vs';
      assert (ws + vs)[|ws + vs| - 1] == vs[|vs| - 1];
      KeptAppend(id, ps, ws, vs');
    }
  }

  /** Later states only add attempts, and every attempt added after the
      first `m` paragraphs starts no earlier than the accumulator did then:
      passages never overlap and keep the order of their paragraphs. */
  lemma {:induction false} ScanExtends(cfg: Config, ps: seq<string>, m: nat, n: nat)
    requires m <= n <= |ps|
    ensures var s, t := ScanPrefix(cfg, ps, m), ScanPrefix(cfg, ps, n);
      |s.attempts| <= |t.attempts| && t.attempts[..|s.attempts|] == s.attempts &&
      s.start <= t.start &&
      forall i :: |s.attempts| <= i < |t.attempts| ==> s.start <= t.attempts[i].lo
    decreases n
  {
    if m < n {
      ScanExtends(cfg, ps, m, n - 1);
    }
  }

  /** A window offered for emission: it starts with a paragraph of at least
      the minimum length, holds no paragraph over the maximum, reaches the
      target length, and did not reach it one paragraph earlier. */
  ghost predicate IsAttempt(cfg: Config, ps: seq<string>, w: Window) {
    w.lo < w.hi <= |ps| &&
    |ps[w.lo]| >= cfg.minLength &&
    (forall j :: w.lo <= j < w.hi ==> |ps[j]| <= cfg.maxLength) &&
    |Glue(ps[w.lo..w.hi])| >= cfg.targetLength &&
    (w.lo < w.hi - 1 ==> |Glue(ps[w.lo..w.hi - 1])| < cfg.targetLength)
  }

  /** The accumulator `ps[start..n]`: no paragraph over the maximum, a first
      paragraph of at least the minimum length, still short of the target. */
  ghost predicate Accumulating(cfg: Config, ps: seq<string>, start: nat, n: nat) {
    start <= n <= |ps| &&
    (forall j :: start <= j < n ==> |ps[j]| <= cfg.maxLength) &&
    (start < n ==> |ps[start]| >= cfg.minLength && |Glue(ps[start..n])| < cfg.targetLength)
  }

  /** What the state machine guarantees after any prefix: every offered
      window is a genuine attempt, and the accumulator is well formed. */
  lemma {:induction false} ScanInvariant(cfg: Config, ps: seq<string>, n: nat)
    requires n <= |ps|
    ensures var s := ScanPrefix(cfg, ps, n);
      (forall i :: 0 <= i < |s.attempts| ==> IsAttempt(cfg, ps, s.attempts[i])) &&
      Accumulating(cfg, ps, s.start, n)
  {
    if n > 0 {
      var k := n - 1;
      ScanInvariant(cfg, ps, k);
      var prev := ScanPrefix(cfg, ps, k);
      if |ps[k]| > cfg.maxLength || (prev.start == k && |ps[k]| < cfg.minLength) {
        ScanDiscard(cfg, ps, k, prev.start, prev.attempts);
        assert Accumulating(cfg, ps, n, n);
      } else if |Glue(ps[prev.start..n])| >= cfg.targetLength {
        ScanAttempt(cfg, ps, k, prev.start, prev.attempts);
        OfferedIsAttempt(cfg, ps, prev.start, k);
        assert Accumulating(cfg, ps, n, n);
      } else {
        ScanGrow(cfg, ps, k, prev.start, prev.attempts);
        AccumulatingGrow(cfg, ps, prev.start, k);
      }
    }
  }

  /** A paragraph that neither is discarded nor reaches the target keeps the
      accumulator well formed. */
  lemma AccumulatingGrow(cfg: Config, ps: seq<string>, start: nat, k: nat)
    requires k < |ps| && Accumulating(cfg, ps, start, k)
    requires |ps[k]| <= cfg.maxLength && !(start == k && |ps[k]| < cfg.minLength)
    requires |Glue(ps[start..k + 1])| < cfg.targetLength
    ensures Accumulating(cfg, ps, start, k + 1)
  {
  }

  /** The accumulator offered when paragraph `k` brings it to the target is
      an attempt. */
  lemma OfferedIsAttempt(cfg: Config, ps: seq<string>, start: nat, k: nat)
    requires k < |ps| && Accumulating(cfg, ps, start, k)
    requires |ps[k]| <= cfg.maxLength && !(start == k && |ps[k]| < cfg.minLength)
    requires |Glue(ps[start..k + 1])| >= cfg.targetLength
    ensures IsAttempt(cfg, ps, Window(start, k + 1))
  {
    assert ps[start..k + 1 - 1] == ps[start..k];
  }

  /** Offered windows come in paragraph order and do not overlap. */
  lemma {:induction false} ScanOrdered(cfg: Config, ps: seq<string>, n: nat)
    requires n <= |ps|
    ensures var ws := ScanPrefix(cfg, ps, n).attempts;
      forall i, j :: 0 <= i < j < |ws| ==> ws[i].hi <= ws[j].lo
  {
    if n > 0 {
      var k := n - 1;
      ScanOrdered(cfg, ps, k);
      var prev := ScanPrefix(cfg, ps, k);
      if |ps[k]| > cfg.maxLength || (prev.start == k && |ps[k]| < cfg.minLength) {
        ScanDiscard(cfg, ps, k, prev.start, prev.attempts);
      } else if |Glue(ps[prev.start..n])| >= cfg.targetLength {
        ScanAttempt(cfg, ps, k, prev.start, prev.attempts);
        var ws := prev.attempts + [Window(prev.start, n)];
        forall i, j | 0 <= i < j < |ws|
          ensures ws[i].hi <= ws[j].lo
        {
          if j == |ws| - 1 {
            assert ws[i] == prev.attempts[i];
          } else {
            assert ws[i] == prev.attempts[i] && ws[j] == prev.attempts[j];
          }
        }
      } else {
        ScanGrow(cfg, ps, k, prev.start, prev.attempts);
      }
    }
  }

  /** Lines 69-71: a paragraph over the maximum empties the accumulator
      without offering it, and no offered window of the document holds it. */
  lemma LongParagraphDiscards(cfg: Config, ps: seq<string>, j: nat)
    requires j < |ps| && |ps[j]| > cfg.maxLength
    ensures ScanPrefix(cfg, ps, j + 1) == Scan(j + 1, ScanPrefix(cfg, ps, j).attempts)
    ensures var ws := ScanPrefix(cfg, ps, |ps|).attempts;
      forall i :: 0 <= i < |ws| ==> ws[i].hi <= j || j < ws[i].lo
  {
    var s := ScanPrefix(cfg, ps, j);
    ScanDiscard(cfg, ps, j, s.start, s.attempts);
    ScanInvariant(cfg, ps, |ps|);
  }

  /** Lines 72-74: a paragraph under the minimum reaching an empty
      accumulator is skipped and lies in no offered window; reaching a
      non-empty one, it is appended like any other. */
  lemma ShortParagraphRule(cfg: Config, ps: seq<string>, j: nat)
    requires j < |ps| && |ps[j]| < cfg.minLength && |ps[j]| <= cfg.maxLength
    ensures var s, t := ScanPrefix(cfg, ps, j), ScanPrefix(cfg, ps, j + 1);
      if s.start == j then
        t == Scan(j + 1, s.attempts) &&
        (var ws := ScanPrefix(cfg, ps, |ps|).attempts;
         forall i :: 0 <= i < |ws| ==> ws[i].hi <= j || j < ws[i].lo)
      else
        t == Scan(s.start, s.attempts) || t == Scan(j + 1, s.attempts + [Window(s.start, j + 1)])
  {
    var s := ScanPrefix(cfg, ps, j);
    if s.start == j {
      ScanDiscard(cfg, ps, j, s.start, s.attempts);
      var ws := ScanPrefix(cfg, ps, |ps|).attempts;
      ScanExtends(cfg, ps, j + 1, |ps|);
      forall i | 0 <= i < |ws|
        ensures ws[i].hi <= j || j < ws[i].lo
      {
        if i < |s.attempts| {
          assert ws[i] == s.attempts[i];
        }
      }
    } else if |Glue(ps[s.start..j + 1])| >= cfg.targetLength {
      ScanAttempt(cfg, ps, j, s.start, s.attempts);
    } else {
      ScanGrow(cfg, ps, j, s.start, s.attempts);
    }
  }

  /** Positions in `ws` of the attempts that are kept. */
  function KeptIndices(ps: seq<string>, ws: seq<Window>): (idx: seq<nat>)
    requires InRange(ps, ws)
    ensures forall i :: 0 <= i < |idx| ==> idx[i] < |ws|
    ensures forall i, j :: 0 <= i < j < |idx| ==> idx[i] < idx[j]
  {
    if ws == [] then []
    else
      var m := |ws| - 1;
      KeptIndices(ps, ws[..m]) + if Count(Contents(ps, ws[m]), '\n') <= NewlineLimit then [m] else []
  }

  /** Record `i` is the stripped text of attempt `KeptIndices[i]`. */
  lemma {:induction false} KeptAreAttempts(id: string, ps: seq<string>, ws: seq<Window>)
    requires InRange(ps, ws)
    ensures var r, idx := Kept(id, ps, ws), KeptIndices(ps, ws);
      |idx| == |r| &&
      forall i :: 0 <= i < |idx| ==> r[i] == Passage(id, Contents(ps, ws[idx[i]]))
    decreases |ws|
  {
    if ws != [] {
      var m := |ws| - 1;
      var ws', w := ws[..m], ws[m];
      assert ws == ws' + [w];
      assert InRange(ps, ws');
      KeptSnoc(id, ps, ws', w);
      KeptAreAttempts(id, ps, ws');
      assert forall i :: 0 <= i < m ==> ws'[i] == ws[i];
    }
  }

  /** Every attempt that is not kept has more than `NewlineLimit` line
      feeds. */
  lemma {:induction false} DroppedAttempts(ps: seq<string>, ws: seq<Window>)
    requires InRange(ps, ws)
    ensures var idx := KeptIndices(ps, ws);
      forall m :: 0 <= m < |ws| && m !in idx ==> Count(Contents(ps, ws[m]), '\n') > NewlineLimit
    decreases |ws|
  {
    if ws != [] {
      var m := |ws| - 1;
      var ws' := ws[..m];
      assert InRange(ps, ws');
      DroppedAttempts(ps, ws');
      var idx, idx' := KeptIndices(ps, ws), KeptIndices(ps, ws');
      forall k | 0 <= k < |ws| && k !in idx
        ensures Count(Contents(ps, ws[k]), '\n') > NewlineLimit
      {
        if k < m {
          assert k !in idx' && ws'[k] == ws[k];
        }
      }
    }
  }

  /** Under the default thresholds (`--min_length 50`, `--max_length 2000`,
      `--target_passage_length 300`) a paragraph of 298 whitespace characters
      is appended, brings the accumulator to the target, and strips to the
      empty passage, which `math.log2` rejects: nothing of the document is
      written. A text that normalises to such whitespace is one example. */
  lemma DefaultSettingsCrash(id: string, p: string)
    requires |p| == 298 && AllSpace(p)
    ensures DocumentPassages(Config(50, 2000, 300), id, [p]) == [Passage(id, [])]
    ensures Emitted(DocumentPassages(Config(50, 2000, 300), id, [p])) == []
  {
    var cfg := Config(50, 2000, 300);
    var g := Glue([p]);
    assert [p][..0] == [];
    assert g == p + "\n\n";
    assert AllSpace(g);
    StripAllSpace(g);
    assert [p][0..1] == [p];
    assert ScanPrefix(cfg, [p], 1) == Scan(1, [Window(0, 1)]);
    assert Contents([p], Window(0, 1)) == [];
    assert [Window(0, 1)][..0] == [];
  }
}
