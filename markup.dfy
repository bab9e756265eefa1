/**
 * The text the packer appends for each rectangle (app.py:113):
 * `<rect x="X" y="Y" width="W" height="H" fill="black"/>` and a newline,
 * with the four numbers in Python's decimal notation. The parser below is
 * the element's inverse: the rectangles can be read back from the text.
 */
module Markup {
  import opened Wrappers
  import opened Packing

  predicate IsDigit(c: char)
  {
    '0' <= c <= '9'
  }

  function DigitChar(d: nat): (c: char)
    requires d < 10
    ensures IsDigit(c) && DigitValue(c) == d
  {
    ('0' as int + d) as char
  }

  function DigitValue(c: char): (d: nat)
    requires IsDigit(c)
    ensures d < 10
  {
    c as int - '0' as int
  }

  /** `str(n)` for a non-negative integer. */
  function Decimal(n: nat): (s: string)
    ensures |s| >= 1
    ensures forall i :: 0 <= i < |s| ==> IsDigit(s[i])
    ensures |s| > 1 ==> s[0] != '0'
  {
    if n < 10 then [DigitChar(n)] else Decimal(n / 10) + [DigitChar(n % 10)]
  }

  /** The value of a string of decimal digits. */
  function DecimalValue(s: string): nat
    requires forall i :: 0 <= i < |s| ==> IsDigit(s[i])
  {
    if s == [] then 0 else DecimalValue(s[..|s| - 1]) * 10 + DigitValue(s[|s| - 1])
  }

  lemma {:induction false} DecimalRoundTrip(n: nat)
    ensures DecimalValue(Decimal(n)) == n
  {
    if n >= 10 {
      DecimalRoundTrip(n / 10);
      var s := Decimal(n);
      assert s[..|s| - 1] == Decimal(n / 10);
    }
  }

  /** The number of leading digits of `s`. */
  function DigitRun(s: string): (k: nat)
    ensures k <= |s|
    ensures forall i :: 0 <= i < k ==> IsDigit(s[i])
    ensures k < |s| ==> !IsDigit(s[k])
  {
    if s == [] || !IsDigit(s[0]) then 0 else 1 + DigitRun(s[1..])
  }

  const XAttr := "<rect x=\""
  const YAttr := "\" y=\""
  const WidthAttr := "\" width=\""
  const HeightAttr := "\" height=\""
  const ElementEnd := "\" fill=\"black\"/>\n"

  /** The number of line breaks in `s`. */
  function Newlines(s: string): nat
  {
    if s == [] then 0 else Newlines(s[..|s| - 1]) + (if s[|s| - 1] == '\n' then 1 else 0)
  }

  lemma {:induction false} NewlinesAppend(a: string, b: string)
    ensures Newlines(a + b) == Newlines(a) + Newlines(b)
    decreases |b|
  {
    if b != [] {
      var b' := b[..|b| - 1];
      assert (a + b)[..|a + b| - 1] == a + b';
      assert (a + b)[|a + b| - 1] == b[|b| - 1];
      NewlinesAppend(a, b');
    } else {
      assert a + b == a;
    }
  }

  lemma {:induction false} NoNewlines(s: string)
    requires forall i :: 0 <= i < |s| ==> s[i] != '\n'
    ensures Newlines(s) == 0
  {
    if s != [] {
      NoNewlines(s[..|s| - 1]);
    }
  }

  /**
   * The element the loop writes for one rectangle: a single line, ended by
   * its line break.
   */
  function RectElement(r: Rect): (e: string)
    ensures e != [] && e[|e| - 1] == '\n'
    ensures Newlines(e) == 1
  {
    NoNewlines(Decimal(r.x));
    NoNewlines(Decimal(r.y));
    NoNewlines(Decimal(r.width));
    NoNewlines(Decimal(r.height));
    ElementLine(Decimal(r.x), Decimal(r.y), Decimal(r.width), Decimal(r.height));
    XAttr + Decimal(r.x) + YAttr + Decimal(r.y) + WidthAttr + Decimal(r.width)
      + HeightAttr + Decimal(r.height) + ElementEnd
  }

  /** With line-free numbers, the element text holds exactly one line break. */
  lemma ElementLine(dx: string, dy: string, dw: string, dh: string)
    requires Newlines(dx) == 0
    requires Newlines(dy) == 0
    requires Newlines(dw) == 0
    requires Newlines(dh) == 0
    ensures Newlines(XAttr + dx + YAttr + dy + WidthAttr + dw + HeightAttr + dh + ElementEnd) == 1
  {
    AttributeNewlines();
    var s1 := XAttr + dx;
    NewlinesAppend(XAttr, dx);
    var s2 := s1 + YAttr;
    NewlinesAppend(s1, YAttr);
    var s3 := s2 + dy;
    NewlinesAppend(s2, dy);
    var s4 := s3 + WidthAttr;
    NewlinesAppend(s3, WidthAttr);
    var s5 := s4 + dw;
    NewlinesAppend(s4, dw);
    var s6 := s5 + HeightAttr;
    NewlinesAppend(s5, HeightAttr);
    var s7 := s6 + dh;
    NewlinesAppend(s6, dh);
    NewlinesAppend(s7, ElementEnd);
  }

  /** Only the closing text of an element holds a line break. */
  lemma AttributeNewlines()
    ensures Newlines(XAttr) == 0 && Newlines(YAttr) == 0
    ensures Newlines(WidthAttr) == 0 && Newlines(HeightAttr) == 0
    ensures Newlines(ElementEnd) == 1
  {
    NoNewlines(XAttr);
    NoNewlines(YAttr);
    NoNewlines(WidthAttr);
    NoNewlines(HeightAttr);
    var n := |ElementEnd| - 1;
    assert ElementEnd[..n] + "\n" == ElementEnd;
    NoNewlines(ElementEnd[..n]);
    NewlinesAppend(ElementEnd[..n], "\n");
  }

  /**
   * The elements of `rects`, in order, as the loop accumulates them: one
   * line per rectangle.
   */
  function RectElements(rects: seq<Rect>): (text: string)
    ensures Newlines(text) == |rects|
  {
    if rects == [] then ""
    else
      var init, last := RectElements(rects[..|rects| - 1]), RectElement(rects[|rects| - 1]);
      NewlinesAppend(init, last);
      init + last
  }

  lemma RectElementsAppend(rects: seq<Rect>, r: Rect)
    ensures RectElements(rects + [r]) == RectElements(rects) + RectElement(r)
  {
    assert (rects + [r])[..|rects|] == rects;
  }

  /** Reads a decimal number followed by the text `follow`, returning the number and what comes after. */
  function ReadNumber(s: string, follow: string): (r: Option<(nat, string)>)
    ensures r.Some? ==> |r.value.1| < |s|
  {
    var k := DigitRun(s);
    if k == 0 || !(follow <= s[k..]) then None
    else Some((DecimalValue(s[..k]), s[k + |follow|..]))
  }

  lemma ReadNumberOfDecimal(n: nat, follow: string, rest: string)
    requires follow != [] && follow[0] == '"'
    ensures ReadNumber(Decimal(n) + (follow + rest), follow) == Some((n, rest))
  {
    var d := Decimal(n);
    var s := d + (follow + rest);
    assert s[..|d|] == d;
    assert s[|d|..] == follow + rest;
    assert s[|d|] == '"';
    assert DigitRun(s) == |d| by {
      DigitRunOf(s, |d|);
    }
    DecimalRoundTrip(n);
    assert s[|d| + |follow|..] == rest;
  }

  lemma DigitRunOf(s: string, k: nat)
    requires k <= |s|
    requires forall i :: 0 <= i < k ==> IsDigit(s[i])
    requires k < |s| ==> !IsDigit(s[k])
    ensures DigitRun(s) == k
  {
    if k > 0 {
      DigitRunOf(s[1..], k - 1);
    }
  }

  /** Reads one element off the front of `s`, returning its rectangle and the text after it. */
  function ReadRectElement(s: string): (r: Option<(Rect, string)>)
    ensures r.Some? ==> |r.value.1| < |s|
  {
    if !(XAttr <= s) then None else
    match ReadNumber(s[|XAttr|..], YAttr)
    case None => None
    case Some((x, s1)) =>
      match ReadNumber(s1, WidthAttr)
      case None => None
      case Some((y, s2)) =>
        match ReadNumber(s2, HeightAttr)
        case None => None
        case Some((w, s3)) =>
          match ReadNumber(s3, ElementEnd)
          case None => None
          case Some((h, s4)) => Some((Rect(x, y, w, h), s4))
  }

  lemma AppendAssoc(a: string, b: string, c: string)
    ensures (a + b) + c == a + (b + c)
  {
  }

  /** The element followed by any text, regrouped from the right. */
  lemma RectElementRegrouped(r: Rect, rest: string)
    ensures RectElement(r) + rest ==
      XAttr + (Decimal(r.x) + (YAttr + (Decimal(r.y) + (WidthAttr + (Decimal(r.width)
        + (HeightAttr + (Decimal(r.height) + (ElementEnd + rest))))))))
  {
  }

  lemma ReadRectElementOf(r: Rect, rest: string)
    ensures ReadRectElement(RectElement(r) + rest) == Some((r, rest))
  {
    var s3 := Decimal(r.height) + (ElementEnd + rest);
    var s2 := Decimal(r.width) + (HeightAttr + s3);
    var s1 := Decimal(r.y) + (WidthAttr + s2);
    var s0 := Decimal(r.x) + (YAttr + s1);
    RectElementRegrouped(r, rest);
    assert (XAttr + s0)[|XAttr|..] == s0;
    ReadNumberOfDecimal(r.x, YAttr, s1);
    ReadNumberOfDecimal(r.y, WidthAttr, s2);
    ReadNumberOfDecimal(r.width, HeightAttr, s3);
    ReadNumberOfDecimal(r.height, ElementEnd, rest);
  }

  /** Reads a whole run of elements; the text must end after the last one. */
  function ReadRectElements(s: string): (r: Option<seq<Rect>>)
    decreases |s|
  {
    if s == [] then Some([]) else
    match ReadRectElement(s)
    case None => None
    case Some((r, rest)) =>
      match ReadRectElements(rest)
      case None => None
      case Some(rs) => Some([r] + rs)
  }

  lemma {:induction false} RectElementsCons(rects: seq<Rect>)
    requires rects != []
    ensures RectElements(rects) == RectElement(rects[0]) + RectElements(rects[1..])
    decreases |rects|
  {
    if |rects| > 1 {
      var n := |rects| - 1;
      var init, first, last := rects[..n], RectElement(rects[0]), RectElement(rects[n]);
      var middle := RectElements(init[1..]);
      calc {
        RectElements(rects);
        RectElements(init) + last;
        { RectElementsCons(init); }
        (first + middle) + last;
        { AppendAssoc(first, middle, last); }
        first + (middle + last);
        { assert init[1..] + [rects[n]] == rects[1..];
          RectElementsAppend(init[1..], rects[n]); }
        first + RectElements(rects[1..]);
      }
    } else {
      assert rects[..0] == [] && rects[1..] == [];
    }
  }

  /** One element in front of text that reads back as `rs` reads back as `[r] + rs`. */
  lemma ReadRectElementsStep(r: Rect, tail: string, rs: seq<Rect>)
    requires ReadRectElements(tail) == Some(rs)
    ensures ReadRectElements(RectElement(r) + tail) == Some([r] + rs)
  {
    ReadRectElementOf(r, tail);
    assert |RectElement(r) + tail| > 0 by {
      assert |RectElement(r)| > 0;
    }
  }

  /** The text written for a sequence of rectangles reads back as exactly that sequence. */
  lemma {:induction false} RectElementsRoundTrip(rects: seq<Rect>)
    ensures ReadRectElements(RectElements(rects)) == Some(rects)
    decreases |rects|
  {
    if rects != [] {
      var tail := RectElements(rects[1..]);
      calc {
        ReadRectElements(RectElements(rects));
        == { RectElementsCons(rects); }
        ReadRectElements(RectElement(rects[0]) + tail);
        == { RectElementsRoundTrip(rects[1..]); ReadRectElementsStep(rects[0], tail, rects[1..]); }
        Some([rects[0]] + rects[1..]);
        == { assert [rects[0]] + rects[1..] == rects; }
        Some(rects);
      }
    }
  }
}
