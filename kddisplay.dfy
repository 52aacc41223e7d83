/** `_display_helper`: the text drawing of a k-d tree, each node's label
    centred above its subtrees and joined to them by underscores and bars. */
module KdDisplay {
  import opened Records
  import opened KdNodes

  /** `n` copies of `c`, as Python's `n * c`: none when `n` is not
      positive. */
  function Repeat(c: char, n: int): (s: string)
    ensures |s| == if n > 0 then n else 0
    ensures forall i | 0 <= i < |s| :: s[i] == c
  {
    if n <= 0 then [] else [c] + Repeat(c, n - 1)
  }

  /** The label of a record: its latitude and longitude, each rendered by
      `fmt`, separated by a comma. */
  function Label(t: MunicipalTree, fmt: real -> string): (s: string)
    ensures |s| == |fmt(t.lat)| + 1 + |fmt(t.lon)|
    ensures s[|fmt(t.lat)|] == ','
  {
    fmt(t.lat) + "," + fmt(t.lon)
  }

  /** The four results of `_display_helper`: the lines, their common width,
      their number, and the column of the root label's centre. */
  datatype Layout = Layout(lines: seq<string>, width: int, height: int, middle: int)

  /** The total length of the labels of a tree. */
  function LabelWidth(t: KDTNode, fmt: real -> string): nat
  {
    match t
    case Empty => 0
    case Node(x, _, l, r) => LabelWidth(l, fmt) + |Label(x, fmt)| + LabelWidth(r, fmt)
  }

  /** Each line followed by `k` spaces. */
  function AppendSpaces(lines: seq<string>, k: int): (r: seq<string>)
    ensures |r| == |lines|
    ensures forall i | 0 <= i < |r| :: r[i] == lines[i] + Repeat(' ', k)
  {
    seq(|lines|, i requires 0 <= i < |lines| => lines[i] + Repeat(' ', k))
  }

  /** Each line preceded by `k` spaces. */
  function PrependSpaces(lines: seq<string>, k: int): (r: seq<string>)
    ensures |r| == |lines|
    ensures forall i | 0 <= i < |r| :: r[i] == Repeat(' ', k) + lines[i]
  {
    seq(|lines|, i requires 0 <= i < |lines| => Repeat(' ', k) + lines[i])
  }

  /** `count` blank lines of width `n`, as `[n * ' '] * count`. */
  function BlankLines(count: int, n: int): (r: seq<string>)
    ensures |r| == if count > 0 then count else 0
    ensures forall i | 0 <= i < |r| :: r[i] == Repeat(' ', n)
  {
    seq(if count > 0 then count else 0, _ => Repeat(' ', n))
  }

  /** Pairs the lines of the two sides as `zip` does, stopping at the shorter
      list, and joins each pair with `gap` between them. */
  function ZipJoin(left: seq<string>, right: seq<string>, gap: string): (r: seq<string>)
    ensures |r| == if |left| < |right| then |left| else |right|
    ensures forall i | 0 <= i < |r| :: r[i] == left[i] + gap + right[i]
  {
    var k := if |left| < |right| then |left| else |right|;
    seq(k, i requires 0 <= i < k => left[i] + gap + right[i])
  }

  /** A layout as `_display_helper` returns it: as many lines as its
      height, all of its width, and a centre column within that width. */
  ghost predicate WellFormed(r: Layout)
  {
    && |r.lines| == r.height
    && (forall i | 0 <= i < |r.lines| :: |r.lines[i]| == r.width)
    && 0 <= r.middle < r.width
  }

  /** A node without children: its label alone. */
  function LeafLayout(s: string): (r: Layout)
    requires |s| >= 1
    ensures WellFormed(r) && r.width == |s| && r.height == 1
  {
    Layout([s], |s|, 1, |s| / 2)
  }

  /** A node with only a left child: the label to the right of the child's
      drawing, with underscores leading to it from above the child's centre
      and a bar under the start of the underscores. */
  function LeftOnlyLayout(c: Layout, s: string): (r: Layout)
    requires WellFormed(c) && |s| >= 1
    ensures WellFormed(r) && r.width == c.width + |s| && r.height == c.height + 2
  {
    var Layout(lines, n, p, x) := c;
    var u := |s|;
    var first := Repeat(' ', x + 1) + Repeat('_', n - x - 1) + s;
    var second := Repeat(' ', x) + "|" + Repeat(' ', n - x - 1 + u);
    Layout([first, second] + AppendSpaces(lines, u), n + u, p + 2, n + u / 2)
  }

  /** A node with only a right child: the label to the left of the child's
      drawing, underscores from it to above the child's centre, and a bar
      there. */
  function RightOnlyLayout(c: Layout, s: string): (r: Layout)
    requires WellFormed(c) && |s| >= 1
    ensures WellFormed(r) && r.width == c.width + |s| && r.height == c.height + 2
  {
    var Layout(lines, n, p, x) := c;
    var u := |s|;
    var first := s + Repeat('_', x) + Repeat(' ', n - x);
    var second := Repeat(' ', u + x) + "|" + Repeat(' ', n - x - 1);
    Layout([first, second] + PrependSpaces(lines, u), n + u, p + 2, u / 2)
  }

  /** The lines of one side, padded with blank lines of its width up to the
      other side's height. */
  function PadTo(lines: seq<string>, width: int, height: int, other: int): (r: seq<string>)
    ensures |r| == if height < other then |lines| + other - height else |lines|
    ensures forall i | 0 <= i < |lines| :: r[i] == lines[i]
    ensures forall i | |lines| <= i < |r| :: r[i] == Repeat(' ', width)
    ensures width >= 0 && (forall i | 0 <= i < |lines| :: |lines[i]| == width) ==>
      forall i | 0 <= i < |r| :: |r[i]| == width
  {
    if height < other then lines + BlankLines(other - height, width) else lines
  }

  /** A node with two children: the label between the two drawings, joined
      to both centres by underscores and bars; the lower side is padded
      with blank lines before the sides are zipped together. */
  function TwoChildLayout(a: Layout, b: Layout, s: string): (r: Layout)
    requires WellFormed(a) && WellFormed(b) && |s| >= 1
    ensures WellFormed(r)
    ensures r.width == a.width + |s| + b.width
    ensures r.height == (if a.height < b.height then b.height else a.height) + 2
  {
    var Layout(left, n, p, x) := a;
    var Layout(right, m, q, y) := b;
    var u := |s|;
    var first := Repeat(' ', x + 1) + Repeat('_', n - x - 1) + s + Repeat('_', y) + Repeat(' ', m - y);
    var second := Repeat(' ', x) + "|" + Repeat(' ', n - x - 1 + u + y) + "|" + Repeat(' ', m - y - 1);
    var left' := PadTo(left, n, p, q);
    var right' := PadTo(right, m, q, p);
    Layout([first, second] + ZipJoin(left', right', Repeat(' ', u)),
           n + m + u, (if p < q then q else p) + 2, n + u / 2)
  }

  /** The layout of a non-empty tree, by the four cases of the source. Every
      line has the same width, the sum of the label lengths; there are two
      lines per level but the last; the centre column lies within the
      width. */
  function Display(node: KDTNode, fmt: real -> string): (r: Layout)
    requires node.Node?
    ensures WellFormed(r)
    ensures r.height == 2 * Height(node) - 1
    ensures r.width == LabelWidth(node, fmt)
  {
    var s := Label(node.tree, fmt);
    if node.right == Empty && node.left == Empty then LeafLayout(s)
    else if node.right == Empty then LeftOnlyLayout(Display(node.left, fmt), s)
    else if node.left == Empty then RightOnlyLayout(Display(node.right, fmt), s)
    else TwoChildLayout(Display(node.left, fmt), Display(node.right, fmt), s)
  }

  /** The label `s` is on the first line, centred on the middle column. */
  ghost predicate LabelAtMiddle(r: Layout, s: string)
  {
    && |r.lines| >= 1
    && |s| / 2 <= r.middle
    && r.middle - |s| / 2 + |s| <= |r.lines[0]|
    && r.lines[0][r.middle - |s| / 2..r.middle - |s| / 2 + |s|] == s
  }

  /** The second line has a bar in column `col`. */
  ghost predicate BarAt(r: Layout, col: int)
  {
    |r.lines| >= 2 && 0 <= col < |r.lines[1]| && r.lines[1][col] == '|'
  }

  /** The lines of `c` appear from the third line on, starting in column
      `offset`. */
  ghost predicate DrawnAt(r: Layout, c: Layout, offset: int)
  {
    && 0 <= offset
    && |r.lines| >= |c.lines| + 2
    && forall i | 0 <= i < |c.lines| ::
      offset + |c.lines[i]| <= |r.lines[2 + i]| && r.lines[2 + i][offset..offset + |c.lines[i]|] == c.lines[i]
  }

  lemma LeafFacts(s: string)
    requires |s| >= 1
    ensures LabelAtMiddle(LeafLayout(s), s)
  {
  }

  lemma LeftOnlyRow(c: Layout, s: string, i: int)
    requires WellFormed(c) && |s| >= 1
    requires 0 <= i < |c.lines|
    ensures var r := LeftOnlyLayout(c, s);
      2 + i < |r.lines| && |c.lines[i]| <= |r.lines[2 + i]| && r.lines[2 + i][0..|c.lines[i]|] == c.lines[i]
  {
    var r := LeftOnlyLayout(c, s);
    assert r.lines[2 + i] == c.lines[i] + Repeat(' ', |s|);
  }

  lemma LeftOnlyFacts(c: Layout, s: string)
    requires WellFormed(c) && |s| >= 1
    ensures var r := LeftOnlyLayout(c, s);
      LabelAtMiddle(r, s) && BarAt(r, c.middle) && DrawnAt(r, c, 0)
  {
    var first := Repeat(' ', c.middle + 1) + Repeat('_', c.width - c.middle - 1) + s;
    assert first[c.width..c.width + |s|] == s;
    var second := Repeat(' ', c.middle) + "|" + Repeat(' ', c.width - c.middle - 1 + |s|);
    assert second[c.middle] == '|';
    forall i | 0 <= i < |c.lines|
      ensures var r := LeftOnlyLayout(c, s);
        2 + i < |r.lines| && |c.lines[i]| <= |r.lines[2 + i]| && r.lines[2 + i][0..|c.lines[i]|] == c.lines[i]
    {
      LeftOnlyRow(c, s, i);
    }
  }

  lemma RightOnlyRow(c: Layout, s: string, i: int)
    requires WellFormed(c) && |s| >= 1
    requires 0 <= i < |c.lines|
    ensures var r := RightOnlyLayout(c, s);
      2 + i < |r.lines| && |s| + |c.lines[i]| <= |r.lines[2 + i]| && r.lines[2 + i][|s|..|s| + |c.lines[i]|] == c.lines[i]
  {
    var r := RightOnlyLayout(c, s);
    assert r.lines[2 + i] == Repeat(' ', |s|) + c.lines[i];
  }

  lemma RightOnlyFacts(c: Layout, s: string)
    requires WellFormed(c) && |s| >= 1
    ensures var r := RightOnlyLayout(c, s);
      LabelAtMiddle(r, s) && BarAt(r, |s| + c.middle) && DrawnAt(r, c, |s|)
  {
    var first := s + Repeat('_', c.middle) + Repeat(' ', c.width - c.middle);
    assert first[0..|s|] == s;
    var second := Repeat(' ', |s| + c.middle) + "|" + Repeat(' ', c.width - c.middle - 1);
    assert second[|s| + c.middle] == '|';
    forall i | 0 <= i < |c.lines|
      ensures var r := RightOnlyLayout(c, s);
        2 + i < |r.lines| && |s| + |c.lines[i]| <= |r.lines[2 + i]| && r.lines[2 + i][|s|..|s| + |c.lines[i]|] == c.lines[i]
    {
      RightOnlyRow(c, s, i);
    }
  }

  lemma TwoChildFirstLines(a: Layout, b: Layout, s: string)
    requires WellFormed(a) && WellFormed(b) && |s| >= 1
    ensures var r := TwoChildLayout(a, b, s);
      LabelAtMiddle(r, s) && BarAt(r, a.middle) && BarAt(r, a.width + |s| + b.middle)
  {
    var r := TwoChildLayout(a, b, s);
    var u := |s|;
    var pre := Repeat(' ', a.middle + 1) + Repeat('_', a.width - a.middle - 1);
    var post := Repeat('_', b.middle) + Repeat(' ', b.width - b.middle);
    assert r.lines[0] == pre + s + post;
    assert (pre + s + post)[a.width..a.width + u] == s;
    var gapBar := Repeat(' ', a.width - a.middle - 1 + u + b.middle);
    var second := Repeat(' ', a.middle) + "|" + gapBar + "|" + Repeat(' ', b.width - b.middle - 1);
    assert r.lines[1] == second;
    assert second[a.middle] == '|';
    assert second[a.width + u + b.middle] == '|';
  }

  /** The three parts of a concatenation, recovered by slicing. */
  lemma SliceConcat(x: string, y: string, z: string)
    ensures (x + y + z)[0..|x|] == x
    ensures (x + y + z)[|x| + |y|..|x| + |y| + |z|] == z
  {
    assert (x + y + z)[0..|x|] == x;
    assert (x + y + z)[|x| + |y|..] == z;
  }

  /** Below its first two lines, a two-children layout is the zip of the
      two padded sides. */
  lemma TwoChildRows(a: Layout, b: Layout, s: string)
    requires WellFormed(a) && WellFormed(b) && |s| >= 1
    ensures |TwoChildLayout(a, b, s).lines| >= 2
    ensures TwoChildLayout(a, b, s).lines[2..]
         == ZipJoin(PadTo(a.lines, a.width, a.height, b.height), PadTo(b.lines, b.width, b.height, a.height), Repeat(' ', |s|))
  {
  }

  /** Row `2 + i` of a two-children layout: the padded rows of the two
      sides with the label's width of spaces between them. */
  lemma TwoChildRow(a: Layout, b: Layout, s: string, i: int)
    requires WellFormed(a) && WellFormed(b) && |s| >= 1
    requires 0 <= i < |a.lines| || 0 <= i < |b.lines|
    ensures var r := TwoChildLayout(a, b, s);
      var left', right' := PadTo(a.lines, a.width, a.height, b.height), PadTo(b.lines, b.width, b.height, a.height);
      && 2 + i < |r.lines| && i < |left'| && i < |right'|
      && |left'[i]| == a.width
      && r.lines[2 + i] == left'[i] + Repeat(' ', |s|) + right'[i]
  {
    var r := TwoChildLayout(a, b, s);
    var left', right' := PadTo(a.lines, a.width, a.height, b.height), PadTo(b.lines, b.width, b.height, a.height);
    TwoChildRows(a, b, s);
    var z := ZipJoin(left', right', Repeat(' ', |s|));
    assert i < |z|;
    assert r.lines[2 + i] == r.lines[2..][i] == z[i];
  }

  lemma TwoChildLeftRow(a: Layout, b: Layout, s: string, i: int)
    requires WellFormed(a) && WellFormed(b) && |s| >= 1
    requires 0 <= i < |a.lines|
    ensures var r := TwoChildLayout(a, b, s);
      2 + i < |r.lines| && |a.lines[i]| <= |r.lines[2 + i]| && r.lines[2 + i][0..|a.lines[i]|] == a.lines[i]
  {
    var left', right' := PadTo(a.lines, a.width, a.height, b.height), PadTo(b.lines, b.width, b.height, a.height);
    TwoChildRow(a, b, s, i);
    SliceConcat(left'[i], Repeat(' ', |s|), right'[i]);
  }

  lemma TwoChildRightRow(a: Layout, b: Layout, s: string, i: int)
    requires WellFormed(a) && WellFormed(b) && |s| >= 1
    requires 0 <= i < |b.lines|
    ensures var r := TwoChildLayout(a, b, s);
      var k := a.width + |s|;
      2 + i < |r.lines| && k + |b.lines[i]| <= |r.lines[2 + i]| && r.lines[2 + i][k..k + |b.lines[i]|] == b.lines[i]
  {
    var left', right' := PadTo(a.lines, a.width, a.height, b.height), PadTo(b.lines, b.width, b.height, a.height);
    TwoChildRow(a, b, s, i);
    SliceConcat(left'[i], Repeat(' ', |s|), right'[i]);
  }

  lemma TwoChildDrawnLeft(a: Layout, b: Layout, s: string)
    requires WellFormed(a) && WellFormed(b) && |s| >= 1
    ensures DrawnAt(TwoChildLayout(a, b, s), a, 0)
  {
    forall i | 0 <= i < |a.lines|
      ensures var r := TwoChildLayout(a, b, s);
        2 + i < |r.lines| && |a.lines[i]| <= |r.lines[2 + i]| && r.lines[2 + i][0..|a.lines[i]|] == a.lines[i]
    {
      TwoChildLeftRow(a, b, s, i);
    }
  }

  lemma TwoChildDrawnRight(a: Layout, b: Layout, s: string)
    requires WellFormed(a) && WellFormed(b) && |s| >= 1
    ensures DrawnAt(TwoChildLayout(a, b, s), b, a.width + |s|)
  {
    forall i | 0 <= i < |b.lines|
      ensures var r := TwoChildLayout(a, b, s);
        var k := a.width + |s|;
        2 + i < |r.lines| && k + |b.lines[i]| <= |r.lines[2 + i]| && r.lines[2 + i][k..k + |b.lines[i]|] == b.lines[i]
    {
      TwoChildRightRow(a, b, s, i);
    }
  }

  /** The node's label is centred on the middle column of the first line. */
  lemma DisplayLabel(node: KDTNode, fmt: real -> string)
    requires node.Node?
    ensures LabelAtMiddle(Display(node, fmt), Label(node.tree, fmt))
  {
    var s := Label(node.tree, fmt);
    if node.right == Empty && node.left == Empty {
      LeafFacts(s);
    } else if node.right == Empty {
      LeftOnlyFacts(Display(node.left, fmt), s);
    } else if node.left == Empty {
      RightOnlyFacts(Display(node.right, fmt), s);
    } else {
      TwoChildFirstLines(Display(node.left, fmt), Display(node.right, fmt), s);
    }
  }

  /** The first two lines drawn over two sides of width 7 whose centres
      are in column 3, under a label of width 7. */
  lemma FirstLinesExample()
    ensures Repeat(' ', 4) + Repeat('_', 3) + "2.0,2.0" + Repeat('_', 3) + Repeat(' ', 4) == "    ___2.0,2.0___    "
    ensures Repeat(' ', 3) + "|" + Repeat(' ', 13) + "|" + Repeat(' ', 3) == "   |             |   "
  {
    assert Repeat(' ', 3) == "   " && Repeat(' ', 4) == "    ";
    assert Repeat('_', 3) == "___";
    assert Repeat(' ', 13) == "             ";
    assert "    " + "___" + "2.0,2.0" + "___" + "    " == "    ___2.0,2.0___    ";
    assert "   " + "|" + "             " + "|" + "   " == "   |             |   ";
  }

  /** The joining step for two one-label sides of width 7 under a label of
      width 7. */
  lemma TwoLeavesExample()
    ensures TwoChildLayout(LeafLayout("1.0,1.0"), LeafLayout("3.0,3.0"), "2.0,2.0").lines
         == ["    ___2.0,2.0___    ", "   |             |   ", "1.0,1.0       3.0,3.0"]
  {
    var a, b := LeafLayout("1.0,1.0"), LeafLayout("3.0,3.0");
    assert a == Layout(["1.0,1.0"], 7, 1, 3) && b == Layout(["3.0,3.0"], 7, 1, 3);
    var r := TwoChildLayout(a, b, "2.0,2.0");
    assert r.lines == [Repeat(' ', 4) + Repeat('_', 3) + "2.0,2.0" + Repeat('_', 3) + Repeat(' ', 4),
                       Repeat(' ', 3) + "|" + Repeat(' ', 13) + "|" + Repeat(' ', 3)]
                      + ZipJoin(PadTo(a.lines, 7, 1, 1), PadTo(b.lines, 7, 1, 1), Repeat(' ', 7));
    FirstLinesExample();
    ZipExample();
  }

  lemma ZipExample()
    ensures ZipJoin(PadTo(["1.0,1.0"], 7, 1, 1), PadTo(["3.0,3.0"], 7, 1, 1), Repeat(' ', 7)) == ["1.0,1.0       3.0,3.0"]
  {
    assert PadTo(["1.0,1.0"], 7, 1, 1) == ["1.0,1.0"] && PadTo(["3.0,3.0"], 7, 1, 1) == ["3.0,3.0"];
    assert Repeat(' ', 7) == "       ";
    assert "1.0,1.0" + "       " + "3.0,3.0" == "1.0,1.0       3.0,3.0";
  }

  /** The drawing of the three-record tree of the source's documentation
      and tests, labels rendered with one decimal. */
  lemma DisplayExample(fmt: real -> string)
    requires fmt(1.0) == "1.0" && fmt(2.0) == "2.0" && fmt(3.0) == "3.0"
    ensures Display(Node(Cherry, 2.0, Node(Oak, 1.0, Empty, Empty), Node(Maple, 3.0, Empty, Empty)), fmt).lines
         == ["    ___2.0,2.0___    ", "   |             |   ", "1.0,1.0       3.0,3.0"]
  {
    var oak, cherry, maple := Oak, Cherry, Maple;
    var t := Node(cherry, 2.0, Node(oak, 1.0, Empty, Empty), Node(maple, 3.0, Empty, Empty));
    assert Label(oak, fmt) == "1.0,1.0" by {
      assert fmt(oak.lat) + "," + fmt(oak.lon) == "1.0" + "," + "1.0" == "1.0,1.0";
    }
    assert Label(cherry, fmt) == "2.0,2.0" by {
      assert fmt(cherry.lat) + "," + fmt(cherry.lon) == "2.0" + "," + "2.0" == "2.0,2.0";
    }
    assert Label(maple, fmt) == "3.0,3.0" by {
      assert fmt(maple.lat) + "," + fmt(maple.lon) == "3.0" + "," + "3.0" == "3.0,3.0";
    }
    assert Display(t.left, fmt) == LeafLayout("1.0,1.0");
    assert Display(t.right, fmt) == LeafLayout("3.0,3.0");
    TwoLeavesExample();
  }
}
