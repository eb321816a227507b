/** Character-level helpers shared by the splitter and the passage builder:
    whitespace, `str.strip()` and `str.count(c)`. */
module Text {

  /** The whitespace that the separator pattern's `\s` matches and that
      `str.strip()` removes, restricted to ASCII: space, tab, line feed,
      vertical tab, form feed and carriage return. */
  predicate IsSpace(c: char) {
    c == ' ' || ('\t' <= c <= '\r')
  }

  predicate AllSpace(s: string) {
    forall i :: 0 <= i < |s| ==> IsSpace(s[i])
  }

  /** `s` without its leading whitespace: no longer than `s`, ending as it
      does, and not starting with whitespace. */
  function TrimStart(s: string): (r: string)
    ensures |r| <= |s| && (r != [] ==> r[|r| - 1] == s[|s| - 1])
    ensures r == [] || !IsSpace(r[0])
  {
    if s != [] && IsSpace(s[0]) then TrimStart(s[1..]) else s
  }

  /** `s` without its trailing whitespace: no longer than `s`, starting as
      it does, and not ending with whitespace. */
  function TrimEnd(s: string): (r: string)
    ensures |r| <= |s| && (r != [] ==> r[0] == s[0])
    ensures r == [] || !IsSpace(r[|r| - 1])
  {
    if s != [] && IsSpace(s[|s| - 1]) then TrimEnd(s[..|s| - 1]) else s
  }

  /** Python's `str.strip()`: neither end of the result is whitespace. */
  function Strip(s: string): (r: string)
    ensures |r| <= |s|
    ensures r == [] || (!IsSpace(r[0]) && !IsSpace(r[|r| - 1]))
  {
    TrimEnd(TrimStart(s))
  }

  /** `r` is what `str.strip()` leaves of `s`: a slice of `s` with only
      whitespace cut off on either side, and no whitespace left at its ends. */
  ghost predicate IsStripOf(r: string, s: string) {
    exists i, j :: 0 <= i <= j <= |s| && r == s[i..j] &&
      AllSpace(s[..i]) && AllSpace(s[j..]) &&
      (r == [] || (!IsSpace(r[0]) && !IsSpace(r[|r| - 1])))
  }

  /** `TrimStart` cuts off exactly the leading whitespace. */
  lemma {:induction false} TrimStartCut(s: string) returns (i: nat)
    ensures i <= |s| && TrimStart(s) == s[i..] && AllSpace(s[..i])
    ensures i == |s| || !IsSpace(s[i])
    decreases |s|
  {
    if s != [] && IsSpace(s[0]) {
      var i' := TrimStartCut(s[1..]);
      i := i' + 1;
      assert s[1..][i'..] == s[i..];
      assert s[..i] == [s[0]] + s[1..][..i'];
    } else {
      i := 0;
    }
  }

  /** `TrimEnd` cuts off exactly the trailing whitespace. */
  lemma {:induction false} TrimEndCut(s: string) returns (j: nat)
    ensures j <= |s| && TrimEnd(s) == s[..j] && AllSpace(s[j..])
    ensures j == 0 || !IsSpace(s[j - 1])
    decreases |s|
  {
    if s != [] && IsSpace(s[|s| - 1]) {
      var t := s[..|s| - 1];
      j := TrimEndCut(t);
      assert t[..j] == s[..j];
      assert s[j..] == t[j..] + [s[|s| - 1]];
    } else {
      j := |s|;
      assert s[..j] == s;
    }
  }

  /** `Strip` does what `str.strip()` promises. */
  lemma StripIsStripOf(s: string)
    ensures IsStripOf(Strip(s), s)
  {
    var i := TrimStartCut(s);
    var t := s[i..];
    var j := TrimEndCut(t);
    var r := Strip(s);
    assert r == s[i..i + j] by {
      assert r == TrimEnd(t);
    }
    assert AllSpace(s[i + j..]) by {
      assert s[i + j..] == t[j..];
    }
    assert AllSpace(s[..i]);
  }

  /** Text made of whitespace only strips to nothing. */
  lemma {:induction false} StripAllSpace(s: string)
    requires AllSpace(s)
    ensures Strip(s) == []
    decreases |s|
  {
    if s != [] {
      assert AllSpace(s[1..]);
      StripAllSpace(s[1..]);
    }
  }

  /** The characterisation of `Strip` leaves no freedom: any two strips of
      the same text are equal. */
  lemma StripUnique(r1: string, r2: string, s: string)
    requires IsStripOf(r1, s) && IsStripOf(r2, s)
    ensures r1 == r2
  {
  }

  /** Python's `str.count(c)` for a one-character `c`. */
  function Count(s: string, c: char): (n: nat)
    ensures n <= |s|
  {
    if s == [] then 0
    else Count(s[..|s| - 1], c) + (if s[|s| - 1] == c then 1 else 0)
  }

  lemma {:induction false} CountConcat(a: string, b: string, c: char)
    ensures Count(a + b, c) == Count(a, c) + Count(b, c)
    decreases |b|
  {
    if b == [] {
      assert a + b == a;
    } else {
      var b' := b[..|b| - 1];
      assert (a + b)[..|a + b| - 1] == a + b';
      CountConcat(a, b', c);
    }
  }

  /** Two occurrences of `c` at distinct positions make a count of at least two. */
  lemma CountAtLeastTwo(s: string, c: char, x: nat, y: nat)
    requires x < y < |s| && s[x] == c && s[y] == c
    ensures Count(s, c) >= 2
  {
    assert s == s[..y] + s[y..];
    CountConcat(s[..y], s[y..], c);
    CountPositive(s[..y], c, x);
    CountPositive(s[y..], c, 0);
  }

  lemma {:induction false} CountPositive(s: string, c: char, x: nat)
    requires x < |s| && s[x] == c
    ensures Count(s, c) >= 1
    decreases |s|
  {
    if x < |s| - 1 {
      CountPositive(s[..|s| - 1], c, x);
    }
  }

  /** A positive count yields a position of `c`. */
  lemma {:induction false} Occurrence(s: string, c: char) returns (x: nat)
    requires Count(s, c) >= 1
    ensures x < |s| && s[x] == c
    decreases |s|
  {
    if s[|s| - 1] == c {
      x := |s| - 1;
    } else {
      x := Occurrence(s[..|s| - 1], c);
    }
  }

  /** The count is zero exactly when `c` does not occur. */
  lemma CountZero(s: string, c: char)
    ensures Count(s, c) == 0 <==> c !in s
  {
    if Count(s, c) >= 1 {
      var x := Occurrence(s, c);
    }
    if c in s {
      var x :| 0 <= x < |s| && s[x] == c;
      CountPositive(s, c, x);
    }
  }

  /** A count of at least two yields two distinct positions of `c`. */
  lemma {:induction false} TwoOccurrences(s: string, c: char) returns (x: nat, y: nat)
    requires Count(s, c) >= 2
    ensures x < y < |s| && s[x] == c && s[y] == c
    decreases |s|
  {
    var t := s[..|s| - 1];
    if s[|s| - 1] == c {
      x := Occurrence(t, c);
      y := |s| - 1;
    } else {
      x, y := TwoOccurrences(t, c);
    }
  }
}
