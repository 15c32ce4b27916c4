/**
 * The layout arithmetic of the Text as Image node: the text is split into
 * lines, the first longest line sizes the font, the font size is the
 * largest that fits the requested canvas, and a table gives the point on
 * which the text block's middle is anchored.  Font metrics come from the
 * font library and enter as the `measure` parameter: measure(s, size) is
 * the (width, height) in pixels of `s` drawn at font size `size`.
 */
module TextLayout {
  import opened Wrappers
  import opened Numeric

  datatype TextPosition =
    | TopLeft | TopCentered | TopRight
    | CenteredLeft | Centered | CenteredRight
    | BottomLeft | BottomCentered | BottomRight

  datatype Column = LeftColumn | CentreColumn | RightColumn
  datatype Row = TopRow | MiddleRow | BottomRow

  function ColumnOf(p: TextPosition): Column {
    match p
    case TopLeft | CenteredLeft | BottomLeft => LeftColumn
    case TopCentered | Centered | BottomCentered => CentreColumn
    case TopRight | CenteredRight | BottomRight => RightColumn
  }

  function RowOf(p: TextPosition): Row {
    match p
    case TopLeft | TopCentered | TopRight => TopRow
    case CenteredLeft | Centered | CenteredRight => MiddleRow
    case BottomLeft | BottomCentered | BottomRight => BottomRow
  }

  /** One axis of a table row, both factors counted in halves: the
      reference coordinate is round((canvas * dim + text * textDim) / 2). */
  datatype AxisFactors = AxisFactors(canvas: int, text: int)

  /** The 'x' factors of the reference-point table. */
  function XRefFactors(p: TextPosition): AxisFactors {
    match p
    case TopLeft => AxisFactors(0, 1)
    case TopCentered => AxisFactors(1, 0)
    case TopRight => AxisFactors(2, -1)
    case CenteredLeft => AxisFactors(0, 1)
    case Centered => AxisFactors(1, 0)
    case CenteredRight => AxisFactors(2, -1)
    case BottomLeft => AxisFactors(0, 1)
    case BottomCentered => AxisFactors(1, 0)
    case BottomRight => AxisFactors(2, -1)
  }

  /** The 'y' factors of the reference-point table. */
  function YRefFactors(p: TextPosition): AxisFactors {
    match p
    case TopLeft => AxisFactors(0, 1)
    case TopCentered => AxisFactors(0, 1)
    case TopRight => AxisFactors(0, 1)
    case CenteredLeft => AxisFactors(1, 0)
    case Centered => AxisFactors(1, 0)
    case CenteredRight => AxisFactors(1, 0)
    case BottomLeft => AxisFactors(2, -1)
    case BottomCentered => AxisFactors(2, -1)
    case BottomRight => AxisFactors(2, -1)
  }

  /** The table is separable: positions in one column share their x
      factors and positions in one row share their y factors. */
  lemma RefFactorsSeparable(p: TextPosition, q: TextPosition)
    ensures ColumnOf(p) == ColumnOf(q) ==> XRefFactors(p) == XRefFactors(q)
    ensures RowOf(p) == RowOf(q) ==> YRefFactors(p) == YRefFactors(q)
  {
  }

  /** round(sum([dim, textDim] * factors)) for one axis. */
  function RefCoordinate(f: AxisFactors, dim: int, textDim: int): int {
    RoundHalf(f.canvas * dim + f.text * textDim)
  }

  /** The point (x_ref, y_ref) on which the middle of the text block is
      drawn: by column round(w_text / 2), round(width / 2) or
      round(width - w_text / 2), and likewise by row with the heights. */
  function RefPoint(p: TextPosition, width: int, height: int, wText: int, hText: int): (r: (int, int))
    ensures r.0 == match ColumnOf(p)
                   case LeftColumn => RoundHalf(wText)
                   case CentreColumn => RoundHalf(width)
                   case RightColumn => RoundHalf(2 * width - wText)
    ensures r.1 == match RowOf(p)
                   case TopRow => RoundHalf(hText)
                   case MiddleRow => RoundHalf(height)
                   case BottomRow => RoundHalf(2 * height - hText)
  {
    RefCoordinateByColumn(p, width, wText);
    RefCoordinateByRow(p, height, hText);
    (RefCoordinate(XRefFactors(p), width, wText), RefCoordinate(YRefFactors(p), height, hText))
  }

  /** The x coordinate of the table, by column. */
  lemma RefCoordinateByColumn(p: TextPosition, dim: int, textDim: int)
    ensures RefCoordinate(XRefFactors(p), dim, textDim) ==
      match ColumnOf(p)
      case LeftColumn => RoundHalf(textDim)
      case CentreColumn => RoundHalf(dim)
      case RightColumn => RoundHalf(2 * dim - textDim)
  {
    var f := XRefFactors(p);
    match ColumnOf(p)
    case LeftColumn => assert f == AxisFactors(0, 1);
    case CentreColumn => assert f == AxisFactors(1, 0);
    case RightColumn => assert f == AxisFactors(2, -1);
  }

  /** The y coordinate of the table, by row. */
  lemma RefCoordinateByRow(p: TextPosition, dim: int, textDim: int)
    ensures RefCoordinate(YRefFactors(p), dim, textDim) ==
      match RowOf(p)
      case TopRow => RoundHalf(textDim)
      case MiddleRow => RoundHalf(dim)
      case BottomRow => RoundHalf(2 * dim - textDim)
  {
    var f := YRefFactors(p);
    match RowOf(p)
    case TopRow => assert f == AxisFactors(0, 1);
    case MiddleRow => assert f == AxisFactors(1, 0);
    case BottomRow => assert f == AxisFactors(2, -1);
  }

  /** A text block no larger than the canvas is anchored on a point of the
      canvas, for every position. */
  lemma RefPointInsideCanvas(p: TextPosition, width: int, height: int, wText: int, hText: int)
    ensures 0 <= wText <= width ==> 0 <= RefPoint(p, width, height, wText, hText).0 <= width
    ensures 0 <= hText <= height ==> 0 <= RefPoint(p, width, height, wText, hText).1 <= height
  {
    var r := RefPoint(p, width, height, wText, hText);
    if 0 <= wText <= width {
      match ColumnOf(p)
      case LeftColumn => RoundHalfBetween(wText, 0, width);
      case CentreColumn => RoundHalfBetween(width, 0, width);
      case RightColumn => RoundHalfBetween(2 * width - wText, 0, width);
    }
    if 0 <= hText <= height {
      match RowOf(p)
      case TopRow => RoundHalfBetween(hText, 0, height);
      case MiddleRow => RoundHalfBetween(height, 0, height);
      case BottomRow => RoundHalfBetween(2 * height - hText, 0, height);
    }
  }

  /** A block drawn with its middle on the reference point spans
      [x_ref - w_text / 2, x_ref + w_text / 2]; its edge lies within half a
      pixel of the edge the column names (left: 0, right: width), and for
      the centre column its middle within half a pixel of width / 2.  The
      same holds by row on the y axis. */
  lemma RefPointAlignsBlock(p: TextPosition, width: int, height: int, wText: int, hText: int)
    ensures var x := RefPoint(p, width, height, wText, hText).0;
      match ColumnOf(p)
      case LeftColumn => -1 <= 2 * x - wText <= 1
      case CentreColumn => -1 <= 2 * x - width <= 1
      case RightColumn => -1 <= 2 * x + wText - 2 * width <= 1
    ensures var y := RefPoint(p, width, height, wText, hText).1;
      match RowOf(p)
      case TopRow => -1 <= 2 * y - hText <= 1
      case MiddleRow => -1 <= 2 * y - height <= 1
      case BottomRow => -1 <= 2 * y + hText - 2 * height <= 1
  {
    RoundHalfNear(wText);
    RoundHalfNear(width);
    RoundHalfNear(2 * width - wText);
    RoundHalfNear(hText);
    RoundHalfNear(height);
    RoundHalfNear(2 * height - hText);
  }

  /** text.split("\n"): the pieces between newlines, empty ones included. */
  function Split(s: string): (lines: seq<string>)
    ensures |lines| >= 1
    ensures forall i :: 0 <= i < |lines| ==> '\n' !in lines[i]
  {
    if s == [] then [[]]
    else
      var rest := Split(s[1..]);
      if s[0] == '\n' then [[]] + rest
      else [[s[0]] + rest[0]] + rest[1..]
  }

  /** There is one more line than there are newlines in the text. */
  lemma {:induction false} SplitLineCount(s: string)
    ensures |Split(s)| == multiset(s)['\n'] + 1
  {
    if s != [] {
      SplitLineCount(s[1..]);
      assert s == [s[0]] + s[1..];
      assert multiset(s) == multiset{s[0]} + multiset(s[1..]);
    }
  }

  /** "\n".join(lines), the inverse of Split. */
  function Join(lines: seq<string>): string
    requires |lines| >= 1
  {
    if |lines| == 1 then lines[0] else lines[0] + "\n" + Join(lines[1..])
  }

  /** Joining the pieces with newlines gives back the text. */
  lemma {:induction false} JoinSplit(s: string)
    ensures Join(Split(s)) == s
  {
    if s != [] {
      var rest := Split(s[1..]);
      JoinSplit(s[1..]);
      if s[0] == '\n' {
        assert ([[]] + rest)[1..] == rest;
      } else if |rest| > 1 {
        assert ([[s[0]] + rest[0]] + rest[1..])[1..] == rest[1..];
      }
    }
  }

  /** Splitting text that starts with a newline-free piece `l` extends the
      first line of the rest by `l`. */
  lemma {:induction false} SplitAfterPiece(l: string, t: string)
    requires '\n' !in l
    ensures Split(l + t) == [l + Split(t)[0]] + Split(t)[1..]
  {
    var st := Split(t);
    if l != [] {
      var lt := l + t;
      assert l[0] in l;
      assert forall c :: c in l[1..] ==> c in l;
      SplitAfterPiece(l[1..], t);
      assert lt[1..] == l[1..] + t;
      assert lt != [] && lt[0] == l[0] && l[0] != '\n';
      var rest := Split(lt[1..]);
      assert Split(lt) == [[lt[0]] + rest[0]] + rest[1..];
      assert rest == [l[1..] + st[0]] + st[1..];
      assert [l[0]] + (l[1..] + st[0]) == l + st[0];
    } else {
      assert l + t == t;
      assert l + st[0] == st[0];
      assert st == [st[0]] + st[1..];
    }
  }

  /** Splitting joined newline-free lines gives back the lines. */
  lemma {:induction false} SplitJoin(lines: seq<string>)
    requires |lines| >= 1
    requires forall i :: 0 <= i < |lines| ==> '\n' !in lines[i]
    ensures Split(Join(lines)) == lines
  {
    if |lines| == 1 {
      SplitAfterPiece(lines[0], []);
      assert lines[0] + [] == lines[0];
    } else {
      var tail := lines[1..];
      var j := Join(tail);
      assert Join(lines) == lines[0] + ("\n" + j);
      SplitJoin(tail);
      var nj := "\n" + j;
      assert nj[0] == '\n' && nj[1..] == j;
      assert Split(nj) == [[]] + tail;
      SplitAfterPiece(lines[0], nj);
      assert Split(nj)[0] == [] && Split(nj)[1..] == tail;
      assert lines[0] + [] == lines[0];
      assert [lines[0]] + tail == lines;
    }
  }

  /** No line of `lines` is longer than `s`. */
  predicate NoLineLonger(lines: seq<string>, s: string) {
    forall j :: 0 <= j < |lines| ==> |lines[j]| <= |s|
  }

  /** max(lines, key=len): the index of the first line of maximal length. */
  function FirstLongest(lines: seq<string>): (k: nat)
    requires |lines| >= 1
    ensures k < |lines|
    ensures NoLineLonger(lines, lines[k])
    ensures forall j :: 0 <= j < k ==> |lines[j]| < |lines[k]|
  {
    if |lines| == 1 then 0
    else
      var k := FirstLongest(lines[..|lines| - 1]);
      if |lines[|lines| - 1]| > |lines[k]| then |lines| - 1 else k
  }

  datatype TextError = ZeroDivisionError

  /** min(int(width * 100 / w_ref), int(height * 100 / (h_ref * line_count))),
      or the division by zero when a reference measure is 0. */
  function FontSize(width: int, height: int, wRef: nat, hRef: nat, lineCount: nat): (r: Result<int, TextError>)
    ensures r.Failure? <==> wRef == 0 || hRef * lineCount == 0
  {
    if wRef == 0 || hRef * lineCount == 0 then Failure(ZeroDivisionError)
    else Success(Min(TruncDiv(100 * width, wRef), TruncDiv(100 * height, hRef * lineCount)))
  }

  /** s is the largest size at which a line measuring wRef by hRef at
      size 100, scaled by s / 100, fits `width` and, with lineCount lines,
      `height`. */
  predicate LargestFit(s: int, width: int, height: int, wRef: nat, hRef: nat, lineCount: nat) {
    && s >= 0
    && s * wRef <= 100 * width
    && s * (hRef * lineCount) <= 100 * height
    && ((s + 1) * wRef > 100 * width || (s + 1) * (hRef * lineCount) > 100 * height)
  }

  /** The font size is the largest size at which the reference line, scaled
      from its size-100 measures, fits both the width and the height of the
      canvas for all lines. */
  lemma FontSizeIsLargestFit(width: int, height: int, wRef: nat, hRef: nat, lineCount: nat)
    requires width >= 0 && height >= 0
    requires FontSize(width, height, wRef, hRef, lineCount).Success?
    ensures LargestFit(FontSize(width, height, wRef, hRef, lineCount).value, width, height, wRef, hRef, lineCount)
  {
    var d := hRef * lineCount;
    var a := TruncDiv(100 * width, wRef);
    var b := TruncDiv(100 * height, d);
    var s := Min(a, b);
    assert FontSize(width, height, wRef, hRef, lineCount).value == s;
    assert 0 <= s <= a && s <= b && (s == a || s == b);
    MulLeqRight(s, a, wRef);
    MulLeqRight(s, b, d);
    StepProduct(s, wRef);
    StepProduct(s, d);
  }

  /** The text whose height at size 100 gives the line height. */
  const ReferenceGlyphs: string := "[§]"

  /** The outcome of the layout: the lines, the measured line, the font
      size, the text block size, the anchor point and the canvas. */
  datatype TextImage = TextImage(lines: seq<string>, maxLine: string, fontSize: int,
                                 textW: nat, textH: nat, anchor: (int, int),
                                 width: int, height: int, channels: nat)

  /** text_as_image_node without the drawing: the layout of the text on a
      width x height RGBA canvas. */
  function TextAsImageNode(text: string, width: int, height: int, position: TextPosition,
                           measure: (string, int) -> (nat, nat)): (r: Result<TextImage, TextError>)
    ensures var lines := Split(text);
      var maxLine := lines[FirstLongest(lines)];
      r.Failure? <==> measure(maxLine, 100).0 == 0 || measure(ReferenceGlyphs, 100).1 == 0
    ensures r.Success? ==>
      var t := r.value;
      && t.width == width && t.height == height && t.channels == 4
      && t.lines == Split(text) && |t.lines| == multiset(text)['\n'] + 1
      && t.maxLine == t.lines[FirstLongest(t.lines)]
      && NoLineLonger(t.lines, t.maxLine)
      && FontSize(width, height, measure(t.maxLine, 100).0, measure(ReferenceGlyphs, 100).1, |t.lines|)
         == Success(t.fontSize)
      && t.textW == measure(t.maxLine, t.fontSize).0
      && t.textH == measure(t.maxLine, t.fontSize).1 * |t.lines|
      && t.anchor == RefPoint(position, width, height, t.textW, t.textH)
      && (t.textW <= width ==> 0 <= t.anchor.0 <= width)
      && (t.textH <= height ==> 0 <= t.anchor.1 <= height)
  {
    var lines := Split(text);
    SplitLineCount(text);
    var maxLine := lines[FirstLongest(lines)];
    var wRef := measure(maxLine, 100).0;
    var hRef := measure(ReferenceGlyphs, 100).1;
    assert hRef * |lines| == 0 <==> hRef == 0 by {
      if hRef > 0 { MulLeqMono(1, |lines|, hRef); }
    }
    var fit := FontSize(width, height, wRef, hRef, |lines|);
    if fit.Failure? then Failure(fit.error)
    else
      var fontSize := fit.value;
      var wText := measure(maxLine, fontSize).0;
      var hText := measure(maxLine, fontSize).1 * |lines|;
      RefPointInsideCanvas(position, width, height, wText, hText);
      Success(TextImage(lines, maxLine, fontSize, wText, hText,
                        RefPoint(position, width, height, wText, hText), width, height, 4))
  }

  /** On a canvas of non-negative size the node's font size is the largest
      one at which the longest line fits the width and all lines the
      height. */
  lemma TextAsImageNodeFontFits(text: string, width: int, height: int, position: TextPosition,
                                measure: (string, int) -> (nat, nat))
    requires width >= 0 && height >= 0
    requires TextAsImageNode(text, width, height, position, measure).Success?
    ensures var t := TextAsImageNode(text, width, height, position, measure).value;
      LargestFit(t.fontSize, width, height, measure(t.maxLine, 100).0,
                 measure(ReferenceGlyphs, 100).1, |t.lines|)
  {
    var t := TextAsImageNode(text, width, height, position, measure).value;
    FontSizeIsLargestFit(width, height, measure(t.maxLine, 100).0,
                         measure(ReferenceGlyphs, 100).1, |t.lines|);
  }
}
