/** The output shards of create_passages.py (lines 44-47 and 89-97):
    records are written to `0.jsonl.gz`, `1.jsonl.gz`, ... in turn, a new
    file being opened once the current one holds `paras_per_file` records.
    `R` is the record type; file `i` is `shards[i]`. */
module Shards {
  /** `paras_per_file` of line 44. */
  const ParasPerFile: nat := 100000

  /** The records of all files, in the order of their file indices. */
  function Flatten<R>(ss: seq<seq<R>>): (rs: seq<R>)
  {
    if ss == [] then [] else ss[0] + Flatten(ss[1..])
  }

  /** The shapes the writer can produce: no file is empty or holds more
      than `ParasPerFile` records, and every file but the last is full. */
  predicate WellFormed<R>(ss: seq<seq<R>>) {
    (forall i :: 0 <= i < |ss| ==> 1 <= |ss[i]| <= ParasPerFile) &&
    (forall i :: 0 <= i < |ss| - 1 ==> |ss[i]| == ParasPerFile)
  }

  /** The records `rs` cut into files of `ParasPerFile` records, the last
      one taking the remainder. */
  function Chunks<R>(rs: seq<R>): (ss: seq<seq<R>>)
    decreases |rs|
  {
    if rs == [] then []
    else if |rs| <= ParasPerFile then [rs]
    else [rs[..ParasPerFile]] + Chunks(rs[ParasPerFile..])
  }

  /** The writer's state between records: `out` is open exactly when some
      file has been opened, `file_count` is the number of files opened and
      `file_doc_count` the number of records in the last one. `log` is every
      record written so far, and the files hold it cut into chunks. */
  class ShardWriter<R> {
    var shards: seq<seq<R>>
    var isOpen: bool
    var fileCount: nat
    var fileDocCount: nat
    ghost var log: seq<R>

    ghost predicate Valid()
      reads this
    {
      fileCount == |shards| &&
      (isOpen <==> shards != []) &&
      (if isOpen then fileDocCount == |shards[|shards| - 1]| else fileDocCount == 0) &&
      shards == Chunks(log)
    }

    /** Lines 45-47: no file open yet. */
    constructor ()
      ensures Valid() && log == [] && shards == []
    {
      shards, isOpen, fileCount, fileDocCount, log := [], false, 0, 0, [];
    }

    /** Lines 89-97: close a full file, open the next one if none is open,
        then append the record to the open file. */
    method Write(r: R)
      requires Valid()
      modifies this
      ensures Valid() && log == old(log) + [r]
      ensures old(isOpen) && old(fileDocCount) < ParasPerFile ==> |shards| == old(|shards|)
      ensures !(old(isOpen) && old(fileDocCount) < ParasPerFile) ==> |shards| == old(|shards|) + 1
    {
      ChunksWellFormed(log);
      ChunksSnoc(log, r);
      if fileDocCount >= ParasPerFile {
        isOpen := false;
        fileDocCount := 0;
      }
      if !isOpen {
        shards := shards + [[r]];
        isOpen := true;
        fileCount := fileCount + 1;
      } else {
        var n := |shards|;
        shards := shards[..n - 1] + [shards[n - 1] + [r]];
      }
      fileDocCount := fileDocCount + 1;
      log := log + [r];
    }
  }

  /** Appending one record to the stream either extends the last file or,
      when there is none or it is full, starts a new one. */
  lemma {:induction false} ChunksSnoc<R>(rs: seq<R>, r: R)
    ensures var c := Chunks(rs);
      Chunks(rs + [r]) ==
        if c != [] && |c[|c| - 1]| < ParasPerFile then c[..|c| - 1] + [c[|c| - 1] + [r]]
        else c + [[r]]
    decreases |rs|
  {
    var c := Chunks(rs);
    if rs == [] {
      assert rs + [r] == [r];
    } else if |rs| < ParasPerFile {
      assert c == [rs];
    } else if |rs| == ParasPerFile {
      var t := rs + [r];
      assert t[..ParasPerFile] == rs && t[ParasPerFile..] == [r];
    } else {
      var t := rs + [r];
      assert t[..ParasPerFile] == rs[..ParasPerFile];
      assert t[ParasPerFile..] == rs[ParasPerFile..] + [r];
      ChunksSnoc(rs[ParasPerFile..], r);
      var c' := Chunks(rs[ParasPerFile..]);
      assert c == [rs[..ParasPerFile]] + c';
      assert c' != [];
      assert c[|c| - 1] == c'[|c'| - 1];
      assert c[..|c| - 1] == [rs[..ParasPerFile]] + c'[..|c'| - 1];
    }
  }

  /** The files' contents are determined by the sequence of records written:
      whatever shape the writer reached is the cut of all its records into
      `ParasPerFile`-record files. */
  lemma {:induction false} ChunksOfWellFormed<R>(ss: seq<seq<R>>)
    requires WellFormed(ss)
    ensures Chunks(Flatten(ss)) == ss
    decreases |ss|
  {
    if ss != [] {
      var rs := Flatten(ss);
      assert WellFormed(ss[1..]);
      ChunksOfWellFormed(ss[1..]);
      if |ss| == 1 {
        assert ss[1..] == [] && ss == [ss[0]];
        assert ss[0] + [] == ss[0];
        assert rs == ss[0];
      } else {
        assert ss[1..][0] == ss[1];
        assert |Flatten(ss[1..])| >= |ss[1]|;
        assert rs[..ParasPerFile] == ss[0];
        assert rs[ParasPerFile..] == Flatten(ss[1..]);
        assert ss == [ss[0]] + ss[1..];
      }
    }
  }

  /** Cutting into files loses, duplicates and reorders no record, and
      yields a shape the writer produces. */
  lemma {:induction false} ChunksWellFormed<R>(rs: seq<R>)
    ensures WellFormed(Chunks(rs)) && Flatten(Chunks(rs)) == rs
    decreases |rs|
  {
    if |rs| > ParasPerFile {
      var tail := rs[ParasPerFile..];
      ChunksWellFormed(tail);
      var ss := Chunks(rs);
      assert ss[1..] == Chunks(tail);
      assert rs == rs[..ParasPerFile] + tail;
    } else if rs != [] {
      assert Flatten([rs]) == rs + [];
    }
  }

  /** The number of files opened for `n` records is `n / ParasPerFile`
      rounded up. */
  lemma {:induction false} ChunksCount<R>(rs: seq<R>)
    ensures |Chunks(rs)| == (|rs| + ParasPerFile - 1) / ParasPerFile
    decreases |rs|
  {
    if |rs| > ParasPerFile {
      ChunksCount(rs[ParasPerFile..]);
    }
  }
}
