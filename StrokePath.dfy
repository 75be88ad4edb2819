/**
 * The path text one signature stroke produces: a moveto for the first
 * touch point followed by one lineto per move, with each coordinate
 * written by `toFixed(2)`. Coordinates are held in hundredths of a pixel,
 * the value `toFixed(2)` prints; `ParseStroke` reads a stroke text back
 * into its points.
 */
module StrokePath {
  import opened Wrappers

  /** A touch location, each coordinate in hundredths of a pixel. */
  datatype Point = Point(x: int, y: int)

  predicate IsDigit(c: char) {
    '0' <= c <= '9'
  }

  /** The characters `toFixed(2)` writes. */
  predicate IsNumberChar(c: char) {
    IsDigit(c) || c == '-' || c == '.'
  }

  function DigitChar(d: nat): (c: char)
    requires d < 10
    ensures IsDigit(c)
  {
    ('0' as int + d) as char
  }

  function DigitValue(c: char): (d: nat)
    requires IsDigit(c)
    ensures d < 10
  {
    c as int - '0' as int
  }

  /** The decimal digits of `n`, without leading zeros. */
  function NatText(n: nat): (s: string)
    ensures |s| >= 1
    ensures forall i :: 0 <= i < |s| ==> IsDigit(s[i])
    ensures |s| > 1 ==> s[0] != '0'
    decreases n
  {
    if n < 10 then [DigitChar(n)] else NatText(n / 10) + [DigitChar(n % 10)]
  }

  /** The value of a string of decimal digits. */
  function DigitsValue(s: string): nat
    requires forall i :: 0 <= i < |s| ==> IsDigit(s[i])
    decreases |s|
  {
    if s == [] then 0 else DigitsValue(s[..|s| - 1]) * 10 + DigitValue(s[|s| - 1])
  }

  function Abs(n: int): nat {
    if n < 0 then -n else n
  }

  /**
   * `(n / 100).toFixed(2)`: an optional minus sign, the integer part, a
   * point and exactly two fraction digits.
   */
  function FixedText(n: int): (r: string)
    ensures |r| >= 4 && r[|r| - 3] == '.' && IsDigit(r[|r| - 2]) && IsDigit(r[|r| - 1])
    ensures r[0] == '-' <==> n < 0
  {
    (if n < 0 then "-" else "") + UnsignedFixedText(Abs(n))
  }

  /** `(m / 100).toFixed(2)` for `m >= 0`. */
  function UnsignedFixedText(m: nat): string {
    NatText(m / 100) + "." + [DigitChar(m % 100 / 10), DigitChar(m % 10)]
  }

  /** `${x.toFixed(2)},${y.toFixed(2)}`: the comma follows the text of `x`. */
  function PointText(p: Point): (r: string)
    ensures |r| > |FixedText(p.x)| + 4 && r[|FixedText(p.x)|] == ','
  {
    FixedText(p.x) + "," + FixedText(p.y)
  }

  /** A number ends in a point and two digits and holds no separator. */
  lemma FixedTextShape(n: int)
    ensures |FixedText(n)| >= 4 && FixedText(n)[|FixedText(n)| - 3] == '.'
    ensures forall i :: 0 <= i < |FixedText(n)| ==> IsNumberChar(FixedText(n)[i])
  {
  }

  /** A point text has no space and exactly one comma, between the two numbers. */
  lemma PointTextShape(p: Point)
    ensures ' ' !in PointText(p)
    ensures |PointText(p)| > |FixedText(p.x)| && PointText(p)[|FixedText(p.x)|] == ','
    ensures PointText(p)[..|FixedText(p.x)|] == FixedText(p.x)
    ensures PointText(p)[|FixedText(p.x)| + 1..] == FixedText(p.y)
    ensures ',' !in FixedText(p.x) && ',' !in FixedText(p.y)
  {
    FixedTextShape(p.x);
    FixedTextShape(p.y);
    var s := PointText(p);
    assert s[..|FixedText(p.x)|] == FixedText(p.x);
    assert s[|FixedText(p.x)| + 1..] == FixedText(p.y);
  }

  /** The path a gesture start begins: `M${x},${y}`. */
  function MoveTo(p: Point): (r: string)
    ensures |r| > 0 && r[0] == 'M'
  {
    "M" + PointText(p)
  }

  /** The segment a gesture move appends: ` L${x},${y}`. */
  function LineTo(p: Point): (r: string)
    ensures |r| > 2 && r[0] == ' ' && r[1] == 'L'
  {
    " L" + PointText(p)
  }

  /**
   * The path text of a stroke through `points`, built as the gestures build
   * it; it always starts with the `M` of its moveto.
   */
  function StrokeText(points: seq<Point>): (r: string)
    requires |points| >= 1
    ensures |r| > 0 && r[0] == 'M'
    decreases |points|
  {
    if |points| == 1 then MoveTo(points[0])
    else StrokeText(points[..|points| - 1]) + LineTo(points[|points| - 1])
  }

  /** The stroke through (10, 10), (20, 20) and (30, 10) pixels. */
  lemma ExampleStrokeText()
    ensures MoveTo(Point(1000, 1000)) + LineTo(Point(2000, 2000)) + LineTo(Point(3000, 1000))
      == "M10.00,10.00 L20.00,20.00 L30.00,10.00"
  {
    ExampleSegments();
  }

  lemma ExampleSegments()
    ensures MoveTo(Point(1000, 1000)) == "M10.00,10.00"
    ensures LineTo(Point(2000, 2000)) == " L20.00,20.00"
    ensures LineTo(Point(3000, 1000)) == " L30.00,10.00"
  {
    ExampleCoordinates();
  }

  lemma ExampleCoordinates()
    ensures FixedText(1000) == "10.00" && FixedText(2000) == "20.00" && FixedText(3000) == "30.00"
  {
    FixedTextWholePixels(10);
    FixedTextWholePixels(20);
    FixedTextWholePixels(30);
    assert NatText(10) == "10" && NatText(20) == "20" && NatText(30) == "30";
  }

  // ---------------------------------------------------------------------
  // Reading a stroke text back

  /** The position of the first `c` in `s` at or after position `from`. */
  function IndexFrom(s: string, c: char, from: nat): (r: Option<nat>)
    requires from <= |s|
    ensures r.Some? ==> from <= r.value < |s|
    decreases |s| - from
  {
    if from == |s| then None
    else if s[from] == c then Some(from)
    else IndexFrom(s, c, from + 1)
  }

  /** The position of the last `c` in `s` before position `below`. */
  function LastIndexBelow(s: string, c: char, below: nat): (r: Option<nat>)
    requires below <= |s|
    ensures r.Some? ==> r.value < below
    decreases below
  {
    if below == 0 then None
    else if s[below - 1] == c then Some(below - 1)
    else LastIndexBelow(s, c, below - 1)
  }

  /** `IndexFrom` finds the first `c` from `from` on, or reports that there is none. */
  lemma {:induction false} IndexFromFindsFirst(s: string, c: char, from: nat)
    requires from <= |s|
    ensures IndexFrom(s, c, from).None? ==> forall i :: from <= i < |s| ==> s[i] != c
    ensures IndexFrom(s, c, from).Some? ==> var k := IndexFrom(s, c, from).value;
      from <= k < |s| && s[k] == c && forall i :: from <= i < k ==> s[i] != c
    decreases |s| - from
  {
    if from < |s| && s[from] != c {
      IndexFromFindsFirst(s, c, from + 1);
    }
  }

  /** `LastIndexBelow` finds the last `c` before `below`, or reports that there is none. */
  lemma {:induction false} LastIndexBelowFindsLast(s: string, c: char, below: nat)
    requires below <= |s|
    ensures LastIndexBelow(s, c, below).None? ==> forall i :: 0 <= i < below ==> s[i] != c
    ensures LastIndexBelow(s, c, below).Some? ==> var k := LastIndexBelow(s, c, below).value;
      k < below && s[k] == c && forall i :: k < i < below ==> s[i] != c
    decreases below
  {
    if below > 0 && s[below - 1] != c {
      LastIndexBelowFindsLast(s, c, below - 1);
    }
  }

  /** The first `c` in `s`, or `None`; used only by `ParsePoint`. */
  function IndexOf(s: string, c: char): (r: Option<nat>)
    ensures r.Some? ==> r.value < |s|
  {
    IndexFrom(s, c, 0)
  }

  /** The last `c` in `s`, or `None`; used only by `ParseStroke`. */
  function LastIndexOf(s: string, c: char): (r: Option<nat>)
    ensures r.Some? ==> r.value < |s|
  {
    LastIndexBelow(s, c, |s|)
  }

  /** A whole number of pixels is written with ".00". */
  lemma FixedTextWholePixels(n: nat)
    ensures FixedText(100 * n) == NatText(n) + ".00"
  {
    var m := 100 * n;
    assert Abs(m) == m;
    assert m / 100 == n && m % 100 / 10 == 0 && m % 10 == 0;
    assert DigitChar(0) == '0';
    assert UnsignedFixedText(m) == NatText(n) + "." + ['0', '0'];
    assert FixedText(m) == "" + NatText(n) + "." + ['0', '0'];
  }

  /** Reads a number written by `FixedText`. */
  function ParseFixed(s: string): Option<int> {
    if |s| > 0 && s[0] == '-' then
      match ParseUnsignedFixed(s[1..])
      case Some(v) => Some(-v)
      case None => None
    else ParseUnsignedFixed(s)
  }

  function ParseUnsignedFixed(s: string): Option<int> {
    if |s| >= 4 && s[|s| - 3] == '.' && IsDigit(s[|s| - 2]) && IsDigit(s[|s| - 1])
      && forall i :: 0 <= i < |s| - 3 ==> IsDigit(s[i])
    then Some(DigitsValue(s[..|s| - 3]) * 100 + DigitValue(s[|s| - 2]) * 10 + DigitValue(s[|s| - 1]))
    else None
  }

  /** Reads `x,y` back into a point. */
  function ParsePoint(s: string): Option<Point> {
    match IndexOf(s, ',')
    case None => None
    case Some(i) =>
      match (ParseFixed(s[..i]), ParseFixed(s[i + 1..]))
      case (Some(x), Some(y)) => Some(Point(x, y))
      case _ => None
  }

  /** Reads a stroke text back into its points; `None` when it is not one. */
  function ParseStroke(s: string): Option<seq<Point>>
    decreases |s|
  {
    match LastIndexOf(s, ' ')
    case None =>
      if |s| >= 1 && s[0] == 'M' then
        match ParsePoint(s[1..])
        case Some(p) => Some([p])
        case None => None
      else None
    case Some(i) =>
      if i + 1 < |s| && s[i + 1] == 'L' then
        match (ParseStroke(s[..i]), ParsePoint(s[i + 2..]))
        case (Some(init), Some(p)) => Some(init + [p])
        case _ => None
      else None
  }

  // ---------------------------------------------------------------------
  // Round trips

  lemma {:induction false} DigitsValueOfNatText(n: nat)
    ensures DigitsValue(NatText(n)) == n
    decreases n
  {
    if n >= 10 {
      var s := NatText(n);
      assert s[..|s| - 1] == NatText(n / 10);
      DigitsValueOfNatText(n / 10);
    }
  }

  lemma ParseUnsignedFixedText(m: nat)
    ensures ParseUnsignedFixed(UnsignedFixedText(m)) == Some(m)
  {
    var digits := NatText(m / 100);
    var body := UnsignedFixedText(m);
    assert body[..|body| - 3] == digits;
    DigitsValueOfNatText(m / 100);
    assert DigitValue(body[|body| - 2]) == m % 100 / 10;
    assert DigitValue(body[|body| - 1]) == m % 10;
    assert (m / 100) * 100 + (m % 100 / 10) * 10 + m % 10 == m;
  }

  lemma ParseFixedText(n: int)
    ensures ParseFixed(FixedText(n)) == Some(n)
  {
    var body := UnsignedFixedText(Abs(n));
    ParseUnsignedFixedText(Abs(n));
    if n < 0 {
      assert FixedText(n)[1..] == body;
    } else {
      assert FixedText(n) == body;
      assert IsDigit(body[0]);
    }
  }

  lemma ParsePointText(p: Point)
    ensures ParsePoint(PointText(p)) == Some(p)
  {
    var s := PointText(p);
    var k := |FixedText(p.x)|;
    PointTextShape(p);
    IndexFromFindsFirst(s, ',', 0);
    assert forall i :: 0 <= i < k ==> s[i] == FixedText(p.x)[i];
    assert IndexOf(s, ',') == Some(k);
    ParseFixedText(p.x);
    ParseFixedText(p.y);
  }

  /** A `c` followed by no other `c` is the last `c`. */
  lemma LastIndexOfBefore(a: string, c: char, b: string)
    requires c !in b
    ensures LastIndexOf(a + [c] + b, c) == Some(|a|)
  {
    var s := a + [c] + b;
    LastIndexBelowFindsLast(s, c, |s|);
    assert s[|a|] == c;
    assert forall i :: |a| < i < |s| ==> s[i] == b[i - |a| - 1];
  }

  /** A lineto is a space followed by the rest of the segment. */
  lemma LineToSplit(p: Point)
    ensures LineTo(p) == [' '] + ("L" + PointText(p))
  {
    assert " L" == [' '] + "L";
  }

  /** The space a lineto starts with is the last space of the text. */
  lemma LastSpaceBeforeLineTo(prefix: string, p: Point)
    ensures LastIndexOf(prefix + LineTo(p), ' ') == Some(|prefix|)
  {
    var tail := "L" + PointText(p);
    PointTextShape(p);
    assert ' ' !in tail;
    LineToSplit(p);
    assert prefix + LineTo(p) == prefix + [' '] + tail;
    LastIndexOfBefore(prefix, ' ', tail);
  }

  lemma ParseMoveTo(p: Point)
    ensures ParseStroke(MoveTo(p)) == Some([p])
  {
    MoveToPieces(p);
    ParsePointText(p);
  }

  /** A moveto has no space, and after its `M` comes the point text. */
  lemma MoveToPieces(p: Point)
    ensures LastIndexOf(MoveTo(p), ' ') == None
    ensures MoveTo(p)[1..] == PointText(p)
  {
    var s := MoveTo(p);
    LastIndexBelowFindsLast(s, ' ', |s|);
  }

  lemma ParseAfterLineTo(prefix: string, init: seq<Point>, p: Point)
    requires ParseStroke(prefix) == Some(init)
    ensures ParseStroke(prefix + LineTo(p)) == Some(init + [p])
  {
    LastSpaceBeforeLineTo(prefix, p);
    LineToPieces(prefix, p);
    ParsePointText(p);
  }

  /** The pieces `ParseStroke` cuts a text ending in a lineto into. */
  lemma LineToPieces(prefix: string, p: Point)
    ensures |prefix| + 1 < |prefix + LineTo(p)| && (prefix + LineTo(p))[|prefix| + 1] == 'L'
    ensures (prefix + LineTo(p))[..|prefix|] == prefix
    ensures (prefix + LineTo(p))[|prefix| + 2..] == PointText(p)
  {
    var s := prefix + LineTo(p);
    assert s[|prefix|..] == LineTo(p);
  }

  /**
   * Appending a lineto to a path extends it; if the path is the text of a
   * stroke, the result is the text of the stroke extended by that point,
   * and it reads back as that stroke.
   */
  lemma ExtendPath(path: string, points: seq<Point>, p: Point)
    requires points != [] ==> path == StrokeText(points)
    ensures |path| < |path + LineTo(p)| && (path + LineTo(p))[..|path|] == path
    ensures points != [] ==> path + LineTo(p) == StrokeText(points + [p])
    ensures points != [] ==> ParseStroke(path + LineTo(p)) == Some(points + [p])
  {
    var extended := points + [p];
    assert (path + LineTo(p))[..|path|] == path;
    if points != [] {
      assert extended[..|extended| - 1] == points;
      ParseStrokeText(extended);
    }
  }

  /** Every stroke text reads back as the points it was built from. */
  lemma {:induction false} ParseStrokeText(points: seq<Point>)
    requires |points| >= 1
    ensures ParseStroke(StrokeText(points)) == Some(points)
    decreases |points|
  {
    if |points| == 1 {
      ParseMoveTo(points[0]);
      assert points == [points[0]];
    } else {
      var init, last := points[..|points| - 1], points[|points| - 1];
      assert points == init + [last];
      ParseStrokeText(init);
      ParseAfterLineTo(StrokeText(init), init, last);
    }
  }
}
