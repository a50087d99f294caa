/** Grid points and their one-line text form (`X(10,05)`), as printed by the simulator. */
module Points {

  /** A lattice point of the road grid; `isIntersection` is fixed when the grid is generated. */
  datatype Point = Point(x: int, y: int, isIntersection: bool)

  /** The leading symbol: `X` marks an intersection, `O` any other point. */
  function Symbol(p: Point): (c: char)
    ensures c == 'X' <==> p.isIntersection
    ensures c == 'O' <==> !p.isIntersection
  {
    if p.isIntersection then 'X' else 'O'
  }

  function DigitChar(d: nat): (c: char)
    requires d < 10
  {
    "0123456789"[d]
  }

  /** Value of a decimal digit character; the inverse of DigitChar. */
  function DigitValue(c: char): (d: nat)
    ensures d < 10
  {
    if '0' <= c <= '9' then (c as int) - ('0' as int) else 0
  }

  /** Decimal text of a natural number, most significant digit first, no leading zeros. */
  function NatToString(n: nat): (s: string)
    ensures 1 <= |s|
    ensures n < 10 <==> |s| == 1
    ensures forall k :: 0 <= k < |s| ==> '0' <= s[k] <= '9'
  {
    if n < 10 then [DigitChar(n)] else NatToString(n / 10) + [DigitChar(n % 10)]
  }

  /** Decimal text of a signed integer, as Rust's `Display` writes an `i32`. */
  function IntToString(i: int): (s: string)
    ensures 1 <= |s|
    ensures i > 9 ==> 2 <= |s|
    ensures s[0] == '-' <==> i < 0
  {
    if i < 0 then "-" + NatToString(-i) else NatToString(i)
  }

  /** The text `Display for Point` writes: symbol, then `(x,y)` with each coordinate below 10 given a leading `0`. */
  function Format(p: Point): (s: string)
    ensures 8 <= |s|
    ensures s[0] == Symbol(p) && s[1] == '(' && s[|s| - 1] == ')'
  {
    var symbol := [Symbol(p)];
    if p.x > 9 && p.y > 9 then
      symbol + "(" + IntToString(p.x) + "," + IntToString(p.y) + ")"
    else if p.x > 9 && p.y < 10 then
      symbol + "(" + IntToString(p.x) + ",0" + IntToString(p.y) + ")"
    else if p.y > 9 && p.x < 10 then
      symbol + "(0" + IntToString(p.x) + "," + IntToString(p.y) + ")"
    else
      symbol + "(0" + IntToString(p.x) + ",0" + IntToString(p.y) + ")"
  }

  /** One coordinate as it appears in the text: padded with a `0` unless above 9. */
  function Padded(n: int): (s: string)
    ensures n > 9 ==> s == IntToString(n)
    ensures n <= 9 ==> s == "0" + IntToString(n)
  {
    if n > 9 then IntToString(n) else "0" + IntToString(n)
  }

  /** The four branches of Format amount to one shape: symbol, `(`, padded x, `,`, padded y, `)`. */
  lemma FormatShape(p: Point)
    ensures Format(p) == [Symbol(p)] + "(" + Padded(p.x) + "," + Padded(p.y) + ")"
  {
    var sx, sy := IntToString(p.x), IntToString(p.y);
    var head := [Symbol(p)];
    if p.x > 9 && p.y > 9 {
    } else if p.x > 9 {
      RegroupPadding(head + "(" + sx, ',', sy);
    } else if p.y > 9 {
      RegroupPadding(head, '(', sx);
    } else {
      RegroupPadding(head, '(', sx);
      RegroupPadding(head + "(" + Padded(p.x), ',', sy);
    }
  }

  /** Moving a padding `0` from a separator onto the number that follows it. */
  lemma RegroupPadding(prefix: string, separator: char, digits: string)
    ensures prefix + [separator, '0'] + digits == prefix + [separator] + ("0" + digits)
  {
  }

  /** A coordinate in 0..=99 is printed as exactly two digits, tens then units. */
  lemma {:induction false} PaddedTwoDigits(n: int)
    requires 0 <= n <= 99
    ensures Padded(n) == [DigitChar(n / 10), DigitChar(n % 10)]
  {
    if n < 10 {
      assert IntToString(n) == [DigitChar(n)];
    } else {
      assert NatToString(n / 10) == [DigitChar(n / 10)];
    }
  }

  /** Two decimal digits read back as a number. */
  function ParseTwoDigits(s: string): (n: nat)
    requires |s| == 2
    ensures n <= 99
  {
    10 * DigitValue(s[0]) + DigitValue(s[1])
  }

  /**
   * For coordinates in 0..=99 every point prints as exactly 8 characters
   * ("same String size"), and both coordinates can be read back from it.
   */
  lemma {:induction false} FormatFixedWidth(p: Point)
    requires 0 <= p.x <= 99 && 0 <= p.y <= 99
    ensures |Format(p)| == 8
    ensures Format(p)[0] == Symbol(p) && Format(p)[1] == '('
    ensures Format(p)[4] == ',' && Format(p)[7] == ')'
    ensures ParseTwoDigits(Format(p)[2..4]) == p.x
    ensures ParseTwoDigits(Format(p)[5..7]) == p.y
  {
    FormatTwoDigitPoint(p);
    var s := Format(p);
    assert s[2..4] == [DigitChar(p.x / 10), DigitChar(p.x % 10)];
    assert s[5..7] == [DigitChar(p.y / 10), DigitChar(p.y % 10)];
    DigitRoundTrip(p.x / 10);
    DigitRoundTrip(p.x % 10);
    DigitRoundTrip(p.y / 10);
    DigitRoundTrip(p.y % 10);
  }

  lemma DigitRoundTrip(d: nat)
    requires d < 10
    ensures DigitValue(DigitChar(d)) == d
  {
  }

  /** The two concrete shapes named by the formatting comment: `X(10,05)` and `O(00,20)`. */
  lemma FormatExamples()
    ensures Format(Point(10, 5, true)) == "X(10,05)"
    ensures Format(Point(0, 20, false)) == "O(00,20)"
  {
    FormatTwoDigitPoint(Point(10, 5, true));
    FormatTwoDigitPoint(Point(0, 20, false));
  }

  /** With both coordinates in 0..=99 the text is the symbol and four digits between fixed separators. */
  lemma FormatTwoDigitPoint(p: Point)
    requires 0 <= p.x <= 99 && 0 <= p.y <= 99
    ensures Format(p) == [Symbol(p), '(', DigitChar(p.x / 10), DigitChar(p.x % 10), ',',
                          DigitChar(p.y / 10), DigitChar(p.y % 10), ')']
  {
    FormatShape(p);
    PaddedTwoDigits(p.x);
    PaddedTwoDigits(p.y);
  }
}
