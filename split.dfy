/** The paragraph splitter: `re.split(r"\s*\n\s*\n\s*", text)`.

    A match of the pattern consists of whitespace only and holds two line
    feeds with nothing but whitespace between them. Since every `\s*` is
    greedy and the search is leftmost, each match is a whole maximal run of
    whitespace that contains at least two line feeds, and every such run is a
    match. The pattern never matches the empty string. */
module ParagraphSplit {
  import opened Text

  /** Two line feeds at `x < y` with only whitespace between them: the
      smallest text the separator pattern can match inside. */
  ghost predicate BlankLineAt(s: string, x: int, y: int) {
    0 <= x < y < |s| && s[x] == '\n' && s[y] == '\n' && AllSpace(s[x + 1..y])
  }

  ghost predicate BlankLineFree(s: string) {
    forall x, y :: !BlankLineAt(s, x, y)
  }

  /** What one match of the separator pattern looks like. */
  ghost predicate IsSeparator(d: string) {
    AllSpace(d) && Count(d, '\n') >= 2
  }

  /** End of the whitespace run that begins at `i`. */
  function RunEnd(s: string, i: nat): (e: nat)
    requires i <= |s|
    ensures i <= e <= |s| && AllSpace(s[i..e])
    ensures e == |s| || !IsSpace(s[e])
    decreases |s| - i
  {
    if i == |s| || !IsSpace(s[i]) then i
    else
      var e := RunEnd(s, i + 1);
      assert s[i..e] == [s[i]] + s[i + 1..e];
      e
  }

  /** Where the regular-expression search finds the next separator. */
  datatype Boundary = NoBoundary | Boundary(start: nat, end: nat)

  /** `i` does not sit strictly inside a whitespace run. */
  ghost predicate AtRunEdge(s: string, i: nat)
    requires i <= |s|
  {
    i == 0 || i == |s| || !IsSpace(s[i - 1]) || !IsSpace(s[i])
  }

  /** Leftmost match of the separator pattern at or after `i`. */
  function FindBoundary(s: string, i: nat): (r: Boundary)
    requires i <= |s| && AtRunEdge(s, i)
    ensures r.Boundary? ==>
      i <= r.start < r.end <= |s| && IsSeparator(s[r.start..r.end]) &&
      (r.start == 0 || !IsSpace(s[r.start - 1])) &&
      (r.end == |s| || !IsSpace(s[r.end]))
    decreases |s| - i
  {
    if i == |s| then NoBoundary
    else if !IsSpace(s[i]) then FindBoundary(s, i + 1)
    else
      var e := RunEnd(s, i);
      if Count(s[i..e], '\n') >= 2 then Boundary(i, e)
      else FindBoundary(s, e)
  }

  /** A blank line that starts inside a whitespace run with fewer than two
      line feeds cannot exist: it would have to stay inside that run. */
  lemma NoBlankLineFromRun(s: string, i: nat, e: nat, x: int, y: int)
    requires i <= x < e <= |s| && AllSpace(s[i..e]) && (e == |s| || !IsSpace(s[e]))
    requires Count(s[i..e], '\n') < 2
    ensures !BlankLineAt(s, x, y)
  {
    if BlankLineAt(s, x, y) {
      if y < e {
        CountAtLeastTwo(s[i..e], '\n', x - i, y - i);
      }
    }
  }

  /** The search misses nothing: no blank line lies between `i` and the
      boundary it reports, nor anywhere after `i` when it reports none. */
  lemma {:induction false} FindBoundaryIsLeftmost(s: string, i: nat)
    requires i <= |s| && AtRunEdge(s, i)
    ensures var r := FindBoundary(s, i);
      forall x, y :: i <= x && BlankLineAt(s, x, y) ==> r.Boundary? && r.start <= y
    decreases |s| - i
  {
    if i == |s| {
    } else if !IsSpace(s[i]) {
      FindBoundaryIsLeftmost(s, i + 1);
    } else {
      var e := RunEnd(s, i);
      if Count(s[i..e], '\n') < 2 {
        FindBoundaryIsLeftmost(s, e);
        forall x, y | i <= x < e
          ensures !BlankLineAt(s, x, y)
        {
          NoBlankLineFromRun(s, i, e, x, y);
        }
      }
    }
  }

  /** A separator contains a blank line. */
  lemma SeparatorHasBlankLine(s: string, a: nat, b: nat) returns (x: nat, y: nat)
    requires a <= b <= |s| && IsSeparator(s[a..b])
    ensures a <= x < y < b && BlankLineAt(s, x, y)
  {
    var x', y' := TwoOccurrences(s[a..b], '\n');
    x, y := a + x', a + y';
    assert s[x + 1..y] == s[a..b][x' + 1..y'];
  }

  /** Interleaves paragraphs with the separators between them. */
  function Interleave(ps: seq<string>, ds: seq<string>): (s: string)
    requires |ps| == |ds| + 1
  {
    if ds == [] then ps[0] else ps[0] + ds[0] + Interleave(ps[1..], ds[1..])
  }

  /** Independent description of the split: the separators are exactly the
      whitespace runs with two or more line feeds, and the paragraphs are the
      text around them. Only the first paragraph (text opening with a
      separator) and the last one (text closing with one) can be empty. */
  ghost predicate IsParagraphSplit(s: string, ps: seq<string>, ds: seq<string>) {
    && |ps| == |ds| + 1
    && Interleave(ps, ds) == s
    && (forall i :: 0 <= i < |ds| ==> IsSeparator(ds[i]))
    && (forall i :: 0 <= i < |ps| ==> BlankLineFree(ps[i]))
    && (forall i :: 0 <= i < |ps| ==> ParagraphFits(ps, i))
  }

  /** Paragraph `i` neither touches the whitespace of a neighbouring
      separator nor is an empty one between two separators. */
  ghost predicate ParagraphFits(ps: seq<string>, i: nat)
    requires i < |ps|
  {
    && (0 < i < |ps| - 1 ==> ps[i] != [])
    && (i < |ps| - 1 && ps[i] != [] ==> !IsSpace(ps[i][|ps[i]| - 1]))
    && (0 < i && ps[i] != [] ==> !IsSpace(ps[i][0]))
  }

  /** Paragraphs and separators, in text order. */
  function Cut(s: string): (r: (seq<string>, seq<string>))
    ensures |r.0| == |r.1| + 1
    decreases |s|
  {
    match FindBoundary(s, 0)
    case NoBoundary => ([s], [])
    case Boundary(a, b) =>
      var rest := Cut(s[b..]);
      ([s[..a]] + rest.0, [s[a..b]] + rest.1)
  }

  /** `re.split(para_split, text)`: the paragraphs alone. */
  function Split(s: string): (ps: seq<string>)
    ensures |ps| >= 1
  {
    Cut(s).0
  }

  /** Text that ends before the first blank line holds no blank line. */
  lemma PrefixBlankLineFree(s: string, a: nat)
    requires a <= |s| && forall x, y :: BlankLineAt(s, x, y) ==> a <= y
    ensures BlankLineFree(s[..a])
  {
    forall x, y ensures !BlankLineAt(s[..a], x, y) {
      if BlankLineAt(s[..a], x, y) {
        assert s[..a][x + 1..y] == s[x + 1..y];
        assert BlankLineAt(s, x, y);
      }
    }
  }

  /** One paragraph and one separator in front of a split of the rest of
      the text give a split of the whole text. */
  lemma PrependParagraph(s: string, a: nat, b: nat, P: seq<string>, D: seq<string>)
    requires a < b <= |s| && IsSeparator(s[a..b])
    requires a == 0 || !IsSpace(s[a - 1])
    requires b == |s| || !IsSpace(s[b])
    requires forall x, y :: BlankLineAt(s, x, y) ==> a <= y
    requires IsParagraphSplit(s[b..], P, D)
    ensures IsParagraphSplit(s, [s[..a]] + P, [s[a..b]] + D)
  {
    var ps, ds := [s[..a]] + P, [s[a..b]] + D;
    assert Interleave(ps, ds) == s by {
      assert ps[1..] == P && ds[1..] == D;
      assert s == s[..a] + s[a..b] + s[b..];
    }
    PrefixBlankLineFree(s, a);
    NextParagraphFits(s[b..], P, D);
    ConsParagraph(s[..a], s[a..b], P, D);
  }

  /** The conditions on each paragraph and separator carry over when one
      paragraph that fits and one separator are put in front. */
  lemma ConsParagraph(p: string, d: string, P: seq<string>, D: seq<string>)
    requires |P| == |D| + 1 && BlankLineFree(p) && IsSeparator(d)
    requires p != [] ==> !IsSpace(p[|p| - 1])
    requires |P| > 1 ==> P[0] != []
    requires P[0] != [] ==> !IsSpace(P[0][0])
    requires forall i :: 0 <= i < |D| ==> IsSeparator(D[i])
    requires forall i :: 0 <= i < |P| ==> BlankLineFree(P[i]) && ParagraphFits(P, i)
    ensures var ps, ds := [p] + P, [d] + D;
      (forall i :: 0 <= i < |ds| ==> IsSeparator(ds[i])) &&
      (forall i :: 0 <= i < |ps| ==> BlankLineFree(ps[i])) &&
      (forall i :: 0 <= i < |ps| ==> ParagraphFits(ps, i))
  {
    var ps, ds := [p] + P, [d] + D;
    assert ParagraphFits(ps, 0);
    assert ParagraphFits(P, 0);
    forall i | 0 <= i < |ps| ensures BlankLineFree(ps[i]) && ParagraphFits(ps, i) {
      if i > 0 {
        assert ps[i] == P[i - 1];
        assert ParagraphFits(P, i - 1);
      }
    }
    forall i | 0 <= i < |ds| ensures IsSeparator(ds[i]) {
      if i > 0 {
        assert ds[i] == D[i - 1];
      }
    }
  }

  /** The first paragraph of a split of the text that follows a separator
      starts with the text's first character, which is no whitespace. */
  lemma NextParagraphFits(rest: string, P: seq<string>, D: seq<string>)
    requires rest == [] || !IsSpace(rest[0])
    requires IsParagraphSplit(rest, P, D)
    ensures |P| > 1 ==> P[0] != []
    ensures P[0] != [] ==> !IsSpace(P[0][0])
    ensures |P| == 1 || !IsSpace(P[0][|P[0]| - 1])
  {
    assert ParagraphFits(P, 0);
    if |D| > 0 {
      assert rest == P[0] + (D[0] + Interleave(P[1..], D[1..]));
    }
    if P[0] != [] {
      assert rest[0] == P[0][0];
    }
  }

  /** The split reconstructs the text and obeys the description above. */
  lemma {:induction false} CutIsParagraphSplit(s: string)
    ensures IsParagraphSplit(s, Cut(s).0, Cut(s).1)
    decreases |s|
  {
    FindBoundaryIsLeftmost(s, 0);
    match FindBoundary(s, 0)
    case NoBoundary =>
    case Boundary(a, b) =>
      CutIsParagraphSplit(s[b..]);
      PrependParagraph(s, a, b, Cut(s[b..]).0, Cut(s[b..]).1);
  }

  /** In a split with at least one separator, the text is the first
      paragraph, the first separator and the split of what follows. */
  lemma FirstParagraph(s: string, ps: seq<string>, ds: seq<string>)
    requires IsParagraphSplit(s, ps, ds) && ds != []
    ensures var a, b := |ps[0]|, |ps[0]| + |ds[0]|;
      b <= |s| && s[..a] == ps[0] && s[a..b] == ds[0] &&
      IsParagraphSplit(s[b..], ps[1..], ds[1..]) &&
      (b == |s| || !IsSpace(s[b]))
  {
    var rest := Interleave(ps[1..], ds[1..]);
    var a, b := |ps[0]|, |ps[0]| + |ds[0]|;
    assert s == ps[0] + ds[0] + rest;
    assert s[..a] == ps[0] && s[a..b] == ds[0] && s[b..] == rest;
    forall i | 0 <= i < |ps| - 1
      ensures BlankLineFree(ps[1..][i]) && ParagraphFits(ps[1..], i)
    {
      assert ps[1..][i] == ps[i + 1];
      assert ParagraphFits(ps, i + 1);
    }
    if b < |s| {
      assert ParagraphFits(ps, 1);
      if |ds| > 1 {
        assert rest == ps[1] + (ds[1] + Interleave(ps[2..], ds[2..]));
      }
      assert rest[0] == ps[1][0];
    }
  }

  /** The search stops at the first separator of any split that fits the
      description. */
  lemma FirstSeparatorFound(s: string, ps: seq<string>, ds: seq<string>)
    requires IsParagraphSplit(s, ps, ds) && ds != []
    ensures FindBoundary(s, 0) == Boundary(|ps[0]|, |ps[0]| + |ds[0]|)
  {
    FirstParagraph(s, ps, ds);
    FindBoundaryIsLeftmost(s, 0);
    var a, b := |ps[0]|, |ps[0]| + |ds[0]|;
    var x, y := SeparatorHasBlankLine(s, a, b);
    assert ParagraphFits(ps, 0);
    var r := FindBoundary(s, 0);
    var a', b' := r.start, r.end;
    var x', y' := SeparatorHasBlankLine(s, a', b');
    BlankLineInPrefix(s, a, x', y');
    SpacesIn(s, a, b);
    SpacesIn(s, a', b');
  }

  /** Every character of an all-whitespace slice is whitespace. */
  lemma SpacesIn(s: string, lo: nat, hi: nat)
    requires lo <= hi <= |s| && AllSpace(s[lo..hi])
    ensures forall k :: lo <= k < hi ==> IsSpace(s[k])
  {
    forall k | lo <= k < hi
      ensures IsSpace(s[k])
    {
      assert s[lo..hi][k - lo] == s[k];
    }
  }

  /** A blank line that ends before `a` lies in the text's first `a`
      characters. */
  lemma BlankLineInPrefix(s: string, a: nat, x: int, y: int)
    requires BlankLineAt(s, x, y) && a <= |s|
    ensures y < a ==> BlankLineAt(s[..a], x, y)
  {
    if y < a {
      assert s[..a][x + 1..y] == s[x + 1..y];
    }
  }

  /** A text without blank lines is a single paragraph. */
  lemma SingleParagraph(s: string, ps: seq<string>)
    requires IsParagraphSplit(s, ps, [])
    ensures (ps, []) == Cut(s)
  {
    FindBoundaryIsLeftmost(s, 0);
    match FindBoundary(s, 0)
    case NoBoundary =>
      assert ps == [s];
    case Boundary(a, b) =>
      var x, y := SeparatorHasBlankLine(s, a, b);
      assert false;
  }

  /** Conversely, any decomposition that fits the description is the one
      `Cut` computes: the description determines the split. */
  lemma {:induction false} ParagraphSplitUnique(s: string, ps: seq<string>, ds: seq<string>)
    requires IsParagraphSplit(s, ps, ds)
    ensures (ps, ds) == Cut(s)
    decreases |s|
  {
    if ds == [] {
      SingleParagraph(s, ps);
    } else {
      FirstParagraph(s, ps, ds);
      FirstSeparatorFound(s, ps, ds);
      var b := |ps[0]| + |ds[0]|;
      ParagraphSplitUnique(s[b..], ps[1..], ds[1..]);
      assert ps == [ps[0]] + ps[1..] && ds == [ds[0]] + ds[1..];
    }
  }
}
