/**
 * `insert_newlines`, the greedy line breaker with a back-off window, and the
 * rows `show_comparison` builds from the chunks of the two `equalize` outputs.
 */
module Layout {
  import opened Text
  import opened Alignment

  // ------------------------------------------------------------ insert_newlines

  /** The shortest cut the back-off may reach: the cut is never moved below
      `every - window`, and a negative window never moves it at all. */
  function Floor(every: int, window: int): (lo: nat)
    requires 0 < every && window <= every
    ensures lo <= every
  {
    if window < 0 then every else every - window
  }

  /** The inner loop of `insert_newlines`: from `cut`, step left while the
      character before the cut is not a space and the cut is above `low`. */
  function BackOff(f: string, cut: nat, low: nat): (c: nat)
    requires low <= cut <= |f|
    ensures low <= c <= cut
    ensures c == low || f[c - 1] == ' '
    ensures forall j | c <= j < cut :: f[j] != ' '
    decreases cut
  {
    if cut > low && f[cut - 1] != ' ' then BackOff(f, cut - 1, low) else cut
  }

  /** Where one pass of `insert_newlines` cuts the remaining text `f`. */
  function Cut(f: string, every: int, window: int): (c: nat)
    requires 0 < every && window <= every
    ensures c <= |f|
  {
    if |f| > every then BackOff(f, every, Floor(every, window)) else |f|
  }

  /** The chunks `insert_newlines(s, every, window)` returns. */
  function Chunks(s: string, every: int, window: int): seq<string>
    requires 0 < every && window < every
    decreases |s|
  {
    if s == [] then []
    else
      var c := Cut(s, every, window);
      [s[..c]] + Chunks(s[c..], every, window)
  }

  /** `insert_newlines`. */
  method InsertNewlines(s: string, every: int, window: int) returns (result: seq<string>)
    requires 0 < every && window < every
    ensures result == Chunks(s, every, window)
  {
    result := [];
    var rest := s;
    while |rest| > 0
      invariant Chunks(s, every, window) == result + Chunks(rest, every, window)
      decreases |rest|
    {
      var cut := every;
      if |rest| > every {
        while rest[cut - 1] != ' ' && cut > every - window
          invariant Floor(every, window) <= cut <= every
          invariant BackOff(rest, cut, Floor(every, window)) == Cut(rest, every, window)
          decreases cut
        {
          cut := cut - 1;
        }
      } else {
        cut := |rest|;
      }
      result := result + [rest[..cut]];
      rest := rest[cut..];
    }
  }

  /** The concatenation of a list of strings. */
  function Concat(cs: seq<string>): string {
    if cs == [] then [] else cs[0] + Concat(cs[1..])
  }

  /** The chunks put back together are the input. */
  lemma {:induction false} ChunksConcat(s: string, every: int, window: int)
    requires 0 < every && window < every
    ensures Concat(Chunks(s, every, window)) == s
    decreases |s|
  {
    if s != [] {
      var c := Cut(s, every, window);
      ChunksConcat(s[c..], every, window);
      assert Chunks(s, every, window)[1..] == Chunks(s[c..], every, window);
      assert s == s[..c] + s[c..];
    }
  }

  /** A chunk is non-empty and at most `every` long; a chunk other than the
      last is at least `lo` long and ends in a space unless it has exactly that
      length. */
  predicate ChunkOk(ch: string, lo: nat, every: int, last: bool) {
    && 0 < |ch| <= every
    && (!last ==> lo <= |ch| && (|ch| == lo || ch[|ch| - 1] == ' '))
  }

  lemma FirstChunkOk(s: string, every: int, window: int)
    requires 0 < every && window < every && s != []
    ensures ChunkOk(s[..Cut(s, every, window)], Floor(every, window), every, s[Cut(s, every, window)..] == [])
  {
  }

  /** Every chunk is non-empty and at most `every` long; every chunk but the
      last is at least `Floor(every, window)` long and ends in a space unless
      it has exactly that length. */
  lemma {:induction false} ChunksShape(s: string, every: int, window: int)
    requires 0 < every && window < every
    ensures forall k | 0 <= k < |Chunks(s, every, window)| ::
      ChunkOk(Chunks(s, every, window)[k], Floor(every, window), every, k == |Chunks(s, every, window)| - 1)
    decreases |s|
  {
    if s != [] {
      var c := Cut(s, every, window);
      var cs, rest := Chunks(s, every, window), Chunks(s[c..], every, window);
      ChunksShape(s[c..], every, window);
      FirstChunkOk(s, every, window);
      assert cs == [s[..c]] + rest;
      assert (|cs| == 1) == (s[c..] == []);
      var lo := Floor(every, window);
      forall k | 0 <= k < |cs| ensures ChunkOk(cs[k], lo, every, k == |cs| - 1) {
        if k == 0 {
          assert cs[0] == s[..c];
          assert ChunkOk(s[..c], lo, every, s[c..] == []);
        } else {
          assert cs[k] == rest[k - 1];
          assert ChunkOk(rest[k - 1], lo, every, k - 1 == |rest| - 1);
        }
      }
    }
  }

  /** Two texts of the same length with spaces at the same indices. */
  predicate SameShape(a: string, b: string) {
    |a| == |b| && forall i | 0 <= i < |a| :: a[i] == ' ' <==> b[i] == ' '
  }

  lemma {:induction false} BackOffSameShape(f: string, g: string, cut: nat, low: nat)
    requires SameShape(f, g) && low <= cut <= |f|
    ensures BackOff(f, cut, low) == BackOff(g, cut, low)
    decreases cut
  {
    if cut > low {
      BackOffSameShape(f, g, cut - 1, low);
    }
  }

  lemma SameShapeSuffix(f: string, g: string, c: nat)
    requires SameShape(f, g) && c <= |f|
    ensures SameShape(f[c..], g[c..])
  {
    forall i | 0 <= i < |f| - c ensures f[c..][i] == ' ' <==> g[c..][i] == ' ' {
      assert f[c..][i] == f[c + i] && g[c..][i] == g[c + i];
    }
  }

  /** Texts of the same shape break into the same number of chunks, pairwise of
      the same length. */
  lemma {:induction false} ChunksSameShape(f: string, g: string, every: int, window: int)
    requires 0 < every && window < every
    requires SameShape(f, g)
    ensures |Chunks(f, every, window)| == |Chunks(g, every, window)|
    ensures forall k | 0 <= k < |Chunks(f, every, window)| :: |Chunks(f, every, window)[k]| == |Chunks(g, every, window)[k]|
    decreases |f|
  {
    if f != [] {
      var c := Cut(f, every, window);
      if |f| > every {
        BackOffSameShape(f, g, every, Floor(every, window));
      }
      assert Cut(g, every, window) == c;
      SameShapeSuffix(f, g, c);
      ChunksSameShape(f[c..], g[c..], every, window);
      var cf, cg := Chunks(f, every, window), Chunks(g, every, window);
      assert cf[1..] == Chunks(f[c..], every, window);
      assert cg[1..] == Chunks(g[c..], every, window);
      forall k | 0 <= k < |cf| ensures |cf[k]| == |cg[k]| {
        if k > 0 {
          assert cf[k] == cf[1..][k - 1] && cg[k] == cg[1..][k - 1];
        }
      }
    }
  }

  /** With `window == every` a text longer than `every` with no space in its
      first `every` characters is cut at 0: the chunk is empty and the text
      left over is the whole text again, so `insert_newlines` never returns. */
  lemma CutStalls(f: string, every: int)
    requires 0 < every < |f|
    requires forall j | 0 <= j < every :: f[j] != ' '
    ensures Cut(f, every, every) == 0
    ensures f[..Cut(f, every, every)] == [] && f[Cut(f, every, every)..] == f
  {
  }

  // ------------------------------------------------------------ show_comparison

  /** `str.ljust(width)`: pad with spaces on the right up to `width`. */
  function LJust(s: string, width: nat): (r: string)
    ensures |r| == if |s| < width then width else |s|
    ensures r[..|s|] == s
    ensures forall i | |s| <= i < |r| :: r[i] == ' '
  {
    if |s| < width then s + seq(width - |s|, _ => ' ') else s
  }

  /** No space of `s` is followed by another space. */
  predicate SingleSpaced(s: string) {
    forall i | 0 <= i < |s| - 1 :: !(s[i] == ' ' && s[i + 1] == ' ')
  }

  lemma SingleSpacedTail(s: string)
    requires s != [] && SingleSpaced(s)
    ensures SingleSpaced(s[1..])
  {
    forall i | 0 <= i < |s[1..]| - 1
      ensures !(s[1..][i] == ' ' && s[1..][i + 1] == ' ')
    {
      assert s[1..][i] == s[i + 1] && s[1..][i + 1] == s[i + 2];
    }
  }

  lemma SingleSpacedCons(c: char, t: string)
    requires SingleSpaced(t) && (c == ' ' && t != [] ==> t[0] != ' ')
    ensures SingleSpaced([c] + t)
  {
    forall i | 0 <= i < |[c] + t| - 1
      ensures !(([c] + t)[i] == ' ' && ([c] + t)[i + 1] == ' ')
    {
      if i > 0 {
        assert ([c] + t)[i] == t[i - 1] && ([c] + t)[i + 1] == t[i];
      }
    }
  }

  /** `s.replace("_", "")`: exactly the underscores are deleted, every other
      character is kept, in order. */
  function RemoveUnderscores(s: string): (r: string)
    ensures |r| == |s| - multiset(s)['_']
    ensures '_' !in r
    ensures Subsequence(r, s)
    ensures forall c | c != '_' :: multiset(r)[c] == multiset(s)[c]
    ensures '_' !in s ==> r == s
  {
    if s == [] then []
    else
      assert s == [s[0]] + s[1..];
      if s[0] == '_' then RemoveUnderscores(s[1..])
      else
        var r := [s[0]] + RemoveUnderscores(s[1..]);
        assert r[1..] == RemoveUnderscores(s[1..]);
        r
  }

  /** The number of spaces of `s` that directly follow another space. */
  function RepeatedSpaces(s: string): (n: nat)
    ensures n < |s| || s == []
  {
    if |s| < 2 then 0
    else (if s[0] == ' ' && s[1] == ' ' then 1 else 0) + RepeatedSpaces(s[1..])
  }

  /** `re.sub(" +", " ", s)`: every run of spaces becomes one space. Exactly
      the spaces that follow a space are deleted, so every other character is
      kept, in order, and a text without two adjacent spaces is unchanged. */
  function CollapseSpaces(s: string): (r: string)
    ensures |r| == |s| - RepeatedSpaces(s)
    ensures s != [] ==> r != [] && r[0] == s[0]
    ensures SingleSpaced(r)
    ensures Subsequence(r, s)
    ensures forall c | c != ' ' :: multiset(r)[c] == multiset(s)[c]
    ensures SingleSpaced(s) ==> r == s
  {
    if s == [] then []
    else
      assert s == [s[0]] + s[1..];
      if |s| >= 2 && s[0] == ' ' && s[1] == ' ' then CollapseSpaces(s[1..])
      else
        var t := CollapseSpaces(s[1..]);
        var r := [s[0]] + t;
        assert r[1..] == t;
        SingleSpacedCons(s[0], t);
        if SingleSpaced(s) then SingleSpacedTail(s); r else r
  }

  /** What the compact display shows of a chunk: the chunk with its
      underscores deleted and then each run of spaces collapsed to one space
      (so a run of spaces and underscores holding a space leaves one space),
      every other character kept in order; a chunk with neither is shown as
      it is. */
  function Compacted(s: string): (r: string)
    ensures |r| == |s| - multiset(s)['_'] - RepeatedSpaces(RemoveUnderscores(s))
    ensures '_' !in r
    ensures SingleSpaced(r)
    ensures Subsequence(r, s)
    ensures forall c | c != '_' && c != ' ' :: multiset(r)[c] == multiset(s)[c]
    ensures '_' !in s && SingleSpaced(s) ==> r == s
  {
    var u := RemoveUnderscores(s);
    var r := CollapseSpaces(u);
    assert '_' !in r by {
      assert multiset(r)['_'] == multiset(u)['_'] == 0;
    }
    SubsequenceTrans(r, u, s);
    r
  }

  /** A run of two spaces keeps one of them. */
  lemma CollapseSpacesExample()
    ensures CollapseSpaces("a  b") == "a b"
  {
    var s := "a  b";
    assert s[1..] == "  b" && s[2..] == " b" && s[3..] == "b";
    assert |CollapseSpaces(s)| == 3 by {
      assert RepeatedSpaces(s[2..]) == 0;
    }
  }

  /** The text a row shows of a chunk. */
  function Shown(chunk: string, compact: bool): (r: string)
    ensures |r| <= |chunk|
  {
    if compact then Compacted(chunk) else chunk
  }

  /** One displayed row: the two halves padded to `width`, each followed by a bar. */
  function Row(l: string, r: string, width: nat): string {
    LJust(l, width) + " | " + LJust(r, width) + " | "
  }

  /** `row` is the row of `l` and `r`: `2 * width + 6` wide, with `l` at
      column 0 and `r` at column `width + 3`. */
  predicate Shows(row: string, l: string, r: string, width: nat) {
    && |l| <= width && |r| <= width
    && row == Row(l, r, width)
    && |row| == 2 * width + 6
    && row[..|l|] == l
    && row[width + 3..width + 3 + |r|] == r
  }

  /** The rows pairing the `i`-th chunks of two texts of the same shape. */
  function Rows(t1: string, t2: string, width: int, margin: int, compact: bool): seq<string>
    requires 0 < width && margin < width && SameShape(t1, t2)
  {
    var c1, c2 := Chunks(t1, width, margin), Chunks(t2, width, margin);
    ChunksSameShape(t1, t2, width, margin);
    seq(|c1|, i requires 0 <= i < |c1| => Row(Shown(c1[i], compact), Shown(c2[i], compact), width))
  }

  /** There is one row per chunk of either text, and row `i` shows the `i`-th
      chunks of the two texts (compacted in the compact display) side by
      side. */
  lemma RowsShape(t1: string, t2: string, width: int, margin: int, compact: bool)
    requires 0 < width && margin < width && SameShape(t1, t2)
    ensures var rows, c1, c2 := Rows(t1, t2, width, margin, compact), Chunks(t1, width, margin), Chunks(t2, width, margin);
      && |rows| == |c1| == |c2|
      && forall i | 0 <= i < |rows| :: Shows(rows[i], Shown(c1[i], compact), Shown(c2[i], compact), width)
  {
    var c1, c2 := Chunks(t1, width, margin), Chunks(t2, width, margin);
    ChunksSameShape(t1, t2, width, margin);
    ChunksShape(t1, width, margin);
    ChunksShape(t2, width, margin);
    var rows := Rows(t1, t2, width, margin, compact);
    forall i | 0 <= i < |rows|
      ensures Shows(rows[i], Shown(c1[i], compact), Shown(c2[i], compact), width)
    {
      assert ChunkOk(c1[i], Floor(width, margin), width, i == |c1| - 1);
      assert ChunkOk(c2[i], Floor(width, margin), width, i == |c2| - 1);
      RowShows(c1[i], c2[i], width, compact);
    }
  }

  lemma RowShows(a: string, b: string, width: nat, compact: bool)
    requires |a| <= width && |b| <= width
    ensures Shows(Row(Shown(a, compact), Shown(b, compact), width), Shown(a, compact), Shown(b, compact), width)
  {
    RowPlaces(Shown(a, compact), Shown(b, compact), width);
  }

  /** The two equalized texts broken into chunks of at most `width` characters. */
  function SideChunks(s1: string, s2: string, width: int, margin: int): (seq<string>, seq<string>)
    requires 0 < width && margin < width
  {
    var e := Equalized(s1, s2);
    (Chunks(e.0, width, margin), Chunks(e.1, width, margin))
  }

  /** The lines `show_comparison` prints. Side by side, there is one row per
      pair of chunks of the two equalized texts, so that no chunk of either
      side is dropped or read past the end, and row `i` shows the `i`-th
      chunk of each side (compacted in the compact display) at columns 0 and
      `width + 3` of a `2 * width + 6` wide line. Otherwise the lines are the
      two equalized texts. */
  function ComparisonLines(s1: string, s2: string, width: int, margin: int, sideBySide: bool, compact: bool): (lines: seq<string>)
    requires sideBySide ==> 0 < width && margin < width
    ensures sideBySide ==>
      && |lines| == |SideChunks(s1, s2, width, margin).0| == |SideChunks(s1, s2, width, margin).1|
      && forall i | 0 <= i < |lines| ::
           Shows(lines[i], Shown(SideChunks(s1, s2, width, margin).0[i], compact),
                 Shown(SideChunks(s1, s2, width, margin).1[i], compact), width)
    ensures !sideBySide ==> lines == [Equalized(s1, s2).0, Equalized(s1, s2).1]
  {
    var e := Equalized(s1, s2);
    if sideBySide then
      EqualizedAligned(s1, s2);
      RowsShape(e.0, e.1, width, margin, compact);
      Rows(e.0, e.1, width, margin, compact)
    else [e.0, e.1]
  }

  /** A row of two texts no wider than `width` holds them at columns 0 and `width + 3`. */
  lemma RowPlaces(l: string, r: string, width: nat)
    requires |l| <= width && |r| <= width
    ensures |Row(l, r, width)| == 2 * width + 6
    ensures Row(l, r, width)[..|l|] == l
    ensures Row(l, r, width)[width + 3..width + 3 + |r|] == r
  {
    var a, b := LJust(l, width), LJust(r, width);
    assert Row(l, r, width) == a + " | " + b + " | ";
    assert (a + " | " + b + " | ")[..|l|] == a[..|l|];
    assert (a + " | " + b + " | ")[width + 3..width + 3 + |r|] == b[..|r|];
  }
}
