/** Line segments as the probabilistic Hough detector reports them, and their
    decomposition into four parallel coordinate lists (decompose_lines). */
module Segments {

  /** One detected segment: the endpoints (x1, y1) and (x2, y2), in pixels. */
  datatype Segment = Segment(x1: int, y1: int, x2: int, y2: int)

  /** The four components of a segment, in the order entry[0] .. entry[3]. */
  datatype Coordinate = X1 | Y1 | X2 | Y2

  function Component(s: Segment, c: Coordinate): int
  {
    match c
    case X1 => s.x1
    case Y1 => s.y1
    case X2 => s.x2
    case Y2 => s.y2
  }

  /** The detector yields a list of lines, each holding a list of entries;
      these are all the entries, in the order a nested `for` visits them. */
  function Entries(lines: seq<seq<Segment>>): seq<Segment>
  {
    if lines == [] then [] else Entries(lines[..|lines| - 1]) + lines[|lines| - 1]
  }

  /** The number of entries over all lines. */
  function Count(lines: seq<seq<Segment>>): nat
  {
    if lines == [] then 0 else |lines[0]| + Count(lines[1..])
  }

  /** One coordinate of every segment, in order. */
  function Column(segs: seq<Segment>, c: Coordinate): seq<int>
  {
    seq(|segs|, k requires 0 <= k < |segs| => Component(segs[k], c))
  }

  lemma {:induction false} CountSplit(lines: seq<seq<Segment>>, i: nat)
    requires i <= |lines|
    ensures Count(lines) == Count(lines[..i]) + Count(lines[i..])
    decreases i
  {
    if i > 0 {
      assert lines[..i][1..] == lines[1..][..i - 1];
      assert lines[i..] == lines[1..][i - 1..];
      CountSplit(lines[1..], i - 1);
    }
  }

  /** Every entry of every line is kept: the flattening is as long as all
      lines together. */
  lemma {:induction false} EntriesLength(lines: seq<seq<Segment>>)
    ensures |Entries(lines)| == Count(lines)
    decreases |lines|
  {
    if lines != [] {
      var n := |lines| - 1;
      EntriesLength(lines[..n]);
      CountSplit(lines, n);
      assert lines[n..] == [lines[n]];
      assert lines[n..][1..] == [];
    }
  }

  /** Entry j of line i sits right after all the entries of the lines before
      it: the flattening keeps the input order. */
  lemma {:induction false} EntriesAt(lines: seq<seq<Segment>>, i: nat, j: nat)
    requires i < |lines| && j < |lines[i]|
    ensures |Entries(lines[..i])| + j < |Entries(lines)|
    ensures Entries(lines)[|Entries(lines[..i])| + j] == lines[i][j]
    decreases |lines|
  {
    var n := |lines| - 1;
    if i < n {
      assert lines[..n][..i] == lines[..i];
      EntriesAt(lines[..n], i, j);
    } else {
      assert lines[..n] == lines[..i];
    }
  }

  /** Flattening two runs of lines one after the other is flattening each. */
  lemma {:induction false} EntriesConcat(u: seq<seq<Segment>>, v: seq<seq<Segment>>)
    ensures Entries(u + v) == Entries(u) + Entries(v)
    decreases |v|
  {
    if v == [] {
      assert u + v == u;
    } else {
      var n := |v| - 1;
      assert (u + v)[..|u + v| - 1] == u + v[..n];
      EntriesConcat(u, v[..n]);
    }
  }

  /** Reordering the lines reorders the entries: the flattened lists hold the
      same entries, each as often. */
  lemma {:induction false} EntriesPermutation(a: seq<seq<Segment>>, b: seq<seq<Segment>>)
    requires multiset(a) == multiset(b)
    ensures multiset(Entries(a)) == multiset(Entries(b))
    decreases |a|
  {
    if a == [] {
      assert |multiset(b)| == 0;
      assert b == [];
    } else {
      var n := |a| - 1;
      var line := a[n];
      assert a == a[..n] + [line];
      assert line in multiset(b);
      var p :| 0 <= p < |b| && b[p] == line;
      var rest := b[..p] + b[p + 1..];
      assert b == b[..p] + [line] + b[p + 1..];
      assert multiset(b) == multiset(rest) + multiset{line};
      assert multiset(a) == multiset(a[..n]) + multiset{line};
      assert multiset(rest) == multiset(b) - multiset{line};
      assert multiset(a[..n]) == multiset(a) - multiset{line};
      EntriesPermutation(a[..n], rest);
      EntriesConcat(b[..p] + [line], b[p + 1..]);
      EntriesConcat(b[..p], [line]);
      EntriesConcat(b[..p], b[p + 1..]);
      assert Entries([line]) == line by {
        assert [line][..0] == [];
      }
    }
  }

  /** decompose_lines: splits the nested list of entries into the lists of
      x1, y1, x2 and y2 values, one element per entry, in entry order. */
  method DecomposeLines(lines: seq<seq<Segment>>)
    returns (x1s: seq<int>, y1s: seq<int>, x2s: seq<int>, y2s: seq<int>)
    ensures x1s == Column(Entries(lines), X1) && y1s == Column(Entries(lines), Y1)
    ensures x2s == Column(Entries(lines), X2) && y2s == Column(Entries(lines), Y2)
  {
    x1s, y1s, x2s, y2s := [], [], [], [];
    for i := 0 to |lines|
      invariant |x1s| == |y1s| == |x2s| == |y2s| == |Entries(lines[..i])|
      invariant forall k :: 0 <= k < |x1s| ==>
        x1s[k] == Entries(lines[..i])[k].x1 && y1s[k] == Entries(lines[..i])[k].y1 &&
        x2s[k] == Entries(lines[..i])[k].x2 && y2s[k] == Entries(lines[..i])[k].y2
    {
      ghost var seen := Entries(lines[..i]);
      for j := 0 to |lines[i]|
        invariant |x1s| == |y1s| == |x2s| == |y2s| == |seen + lines[i][..j]|
        invariant forall k :: 0 <= k < |x1s| ==>
          x1s[k] == (seen + lines[i][..j])[k].x1 && y1s[k] == (seen + lines[i][..j])[k].y1 &&
          x2s[k] == (seen + lines[i][..j])[k].x2 && y2s[k] == (seen + lines[i][..j])[k].y2
      {
        var entry := lines[i][j];
        assert seen + lines[i][..j + 1] == (seen + lines[i][..j]) + [entry];
        x1s := x1s + [entry.x1];
        y1s := y1s + [entry.y1];
        x2s := x2s + [entry.x2];
        y2s := y2s + [entry.y2];
      }
      assert lines[..i + 1][..i] == lines[..i];
      assert lines[i][..|lines[i]|] == lines[i];
      assert Entries(lines[..i + 1]) == seen + lines[i];
    }
    assert lines[..|lines|] == lines;
    assert x1s == Column(Entries(lines), X1) && y1s == Column(Entries(lines), Y1);
    assert x2s == Column(Entries(lines), X2) && y2s == Column(Entries(lines), Y2);
  }
}
