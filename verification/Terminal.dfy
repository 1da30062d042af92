/** A terminal that forgets nothing: every line ever written, a cursor, and a view. The console of
    src/console.c is meant to look like it through the last 537 lines. */
module Terminal {

  const WIDTH: nat := 80
  const HEIGHT: nat := 25
  const TOTAL_LINES: nat := 537

  type Line = seq<int>

  datatype Term = Term(lines: seq<Line>, cursor: nat, x: nat, color: nat, off: nat)

  /** `make_vga_entry`; the upper half of the characters is negative and covers the colour. */
  function Cell(c: nat, color: nat): int {
    if c < 128 then c + 256 * color else 0xFF00 + c
  }

  function Blank(color: nat): (l: Line)
    ensures |l| == WIDTH
  {
    seq(WIDTH, _ => Cell(32, color))
  }

  /** The oldest of the last 537 lines. */
  function First(t: Term): nat {
    if |t.lines| > TOTAL_LINES then |t.lines| - TOTAL_LINES else 0
  }

  /** The line at the top of the screen when the view follows the output. */
  function Newest(t: Term): nat {
    var n := if t.cursor + 1 > HEIGHT then t.cursor + 1 - HEIGHT else 0;
    if n < First(t) then First(t) else n
  }

  function Clamp(t: Term): Term {
    if t.off > Newest(t) - First(t) then t.(off := Newest(t) - First(t)) else t
  }

  /** The view shows 25 lines that exist and are retained. */
  predicate Sane(t: Term) {
    && HEIGHT <= |t.lines| && t.cursor < |t.lines| && (|t.lines| > HEIGHT ==> t.cursor == |t.lines| - 1)
    && t.x < WIDTH && t.off <= Newest(t) - First(t)
    && forall i :: 0 <= i < |t.lines| ==> |t.lines[i]| == WIDTH
  }

  function Start(color: nat): Term {
    Term(seq(HEIGHT, _ => Blank(color)), 0, 0, color, 0)
  }

  function NewLine(t: Term): Term {
    t.(x := 0, cursor := t.cursor + 1,
       lines := if t.cursor + 1 >= |t.lines| then t.lines + [Blank(t.color)] else t.lines)
  }

  function WriteAt(t: Term, c: nat): Term
    requires t.cursor < |t.lines| && t.x < |t.lines[t.cursor]|
  {
    t.(lines := t.lines[t.cursor := t.lines[t.cursor][t.x := Cell(c, t.color)]])
  }

  /** One character, the view not yet adjusted. */
  function Typed(t: Term, c: nat): Term
    requires Sane(t)
  {
    if c == 10 then NewLine(t)
    else if c == 13 then t.(x := 0)
    else if c == 9 then
      var u := t.(x := (t.x + 4) / 4 * 4);
      if u.x >= WIDTH then NewLine(u) else u
    else
      var u := WriteAt(t, c).(x := t.x + 1);
      if u.x >= WIDTH then NewLine(u) else u
  }

  function Put(t: Term, c: nat): Term
    requires Sane(t)
  {
    Clamp(Typed(t, c))
  }

  function Scroll(t: Term, n: int): Term
    requires Sane(t)
  {
    var max := Newest(t) - First(t);
    if n >= 0 then t.(off := if t.off + n > max then max else t.off + n)
    else t.(off := if -n > t.off then 0 else t.off + n)
  }

  /** The 25 lines in view. */
  function Screen(t: Term): (s: seq<Line>)
    requires Sane(t)
    ensures |s| == HEIGHT
  {
    var top := Newest(t) - t.off;
    t.lines[top..top + HEIGHT]
  }

  lemma PutSane(t: Term, c: nat)
    requires Sane(t)
    ensures Sane(Put(t, c))
  {
  }

  lemma ScrollSane(t: Term, n: int)
    requires Sane(t)
    ensures Sane(Scroll(t, n))
  {
  }

  /** What is in view never lies outside the last 537 lines. */
  lemma ViewRetained(t: Term)
    requires Sane(t)
    ensures var top := Newest(t) - t.off; First(t) <= top && top + HEIGHT <= |t.lines|
  {
  }

  datatype Event = Key(c: nat) | Wheel(n: int) | Paint(color: nat)

  function Handle(t: Term, e: Event): Term
    requires Sane(t)
  {
    match e
    case Key(c) => Put(t, c)
    case Wheel(n) => Scroll(t, n)
    case Paint(color) => t.(color := color)
  }

  lemma HandleSane(t: Term, e: Event)
    requires Sane(t)
    ensures Sane(Handle(t, e))
  {
    match e {
      case Key(c) => PutSane(t, c);
      case Wheel(n) => ScrollSane(t, n);
      case Paint(color) =>
    }
  }

  function Session(t: Term, es: seq<Event>): (u: Term)
    requires Sane(t)
    ensures Sane(u)
    decreases |es|
  {
    if es == [] then t else HandleSane(t, es[0]); Session(Handle(t, es[0]), es[1..])
  }

  /** Over every session the terminal only grows, the cursor only goes down, and a line above the
      cursor is never written again. */
  lemma {:induction false} HistoryKept(t: Term, es: seq<Event>)
    requires Sane(t)
    ensures var u := Session(t, es);
            t.cursor <= u.cursor && |t.lines| <= |u.lines| && u.lines[..t.cursor] == t.lines[..t.cursor]
    decreases |es|
  {
    if es != [] {
      HandleSane(t, es[0]);
      var v := Handle(t, es[0]);
      HistoryKept(v, es[1..]);
      var u := Session(t, es);
      OneKept(t, es[0]);
      assert u.lines[..t.cursor] == u.lines[..v.cursor][..t.cursor] == v.lines[..v.cursor][..t.cursor] == v.lines[..t.cursor];
    }
  }

  lemma OneKept(t: Term, e: Event)
    requires Sane(t)
    ensures var v := Handle(t, e);
            t.cursor <= v.cursor && |t.lines| <= |v.lines| && v.cursor <= |v.lines| && v.lines[..t.cursor] == t.lines[..t.cursor]
  {
  }

  // ---------------------------------------------------------------------------------------
  // What a character does
  // ---------------------------------------------------------------------------------------

  /** All lines that were there are as they were, line `k` apart. */
  predicate OnlyLine(t: Term, u: Term, k: nat) {
    |u.lines| >= |t.lines| && forall i :: 0 <= i < |t.lines| && i != k ==> u.lines[i] == t.lines[i]
  }

  /** The cursor stands at the beginning of the line behind that of `t`, which is there, and empty if it is new. */
  predicate Below(t: Term, u: Term) {
    && u.x == 0 && u.cursor == t.cursor + 1 && u.cursor < |u.lines|
    && |u.lines| == (if t.cursor + 1 < |t.lines| then |t.lines| else |t.lines| + 1)
    && (|u.lines| > |t.lines| ==> |u.lines[u.cursor]| == 80 && forall j :: 0 <= j < 80 ==> u.lines[u.cursor][j] == 32 + 256 * t.color)
  }

  /** A printable character stands where the cursor was, in the colour in force, and nothing else has changed;
      the cursor is one place to the right, or at the beginning of the next line if that was the last place. */
  lemma PrintableExact(t: Term, c: nat)
    requires Sane(t) && c < 256 && c != 9 && c != 10 && c != 13
    ensures var u := Put(t, c);
            && OnlyLine(t, u, t.cursor) && u.color == t.color && |u.lines[t.cursor]| == 80
            && u.lines[t.cursor][t.x] % 256 == c && (c < 128 ==> u.lines[t.cursor][t.x] / 256 == t.color)
            && (forall j :: 0 <= j < 80 && j != t.x ==> u.lines[t.cursor][j] == t.lines[t.cursor][j])
            && if t.x < 79 then u.x == t.x + 1 && u.cursor == t.cursor && |u.lines| == |t.lines| else Below(t, u)
  {
    var u := WriteAt(t, c).(x := t.x + 1);
    assert u.lines[t.cursor] == t.lines[t.cursor][t.x := Cell(c, t.color)];
  }

  /** A new line, a carriage return and a tab write nothing: they move the cursor to the beginning of the next
      line, to that of its own, and to the next multiple of four or to the next line. */
  lemma ControlExact(t: Term, c: nat)
    requires Sane(t) && (c == 9 || c == 10 || c == 13)
    ensures var u := Put(t, c);
            && OnlyLine(t, u, |t.lines|) && u.color == t.color
            && (c == 10 ==> Below(t, u))
            && (c == 13 ==> u.x == 0 && u.cursor == t.cursor && |u.lines| == |t.lines|)
            && (c == 9 ==> if t.x < 76 then && t.x < u.x <= t.x + 4 && u.x % 4 == 0
                                            && u.cursor == t.cursor && |u.lines| == |t.lines|
                           else Below(t, u))
  {
  }

  /** What is in view after a character: as far up as before, as long as that is retained; a view that is not
      scrolled up ends with the line of the cursor, or begins with the first line there is. */
  lemma TypedInView(t: Term, c: nat)
    requires Sane(t)
    ensures var u := Put(t, c);
            && Sane(u) && u.off <= t.off && (u.off < t.off ==> u.off == Newest(u) - First(u))
            && (u.off == 0 ==> Screen(u) == if u.cursor >= 24 then u.lines[u.cursor - 24..u.cursor + 1] else u.lines[..25])
  {
    PutSane(t, c);
  }

  /** Scrolling moves the view up or down by as many lines as asked for, or as far as there are lines among
      the last 537 - down as far as the output; it changes nothing else. */
  lemma ScrollExact(t: Term, n: int)
    requires Sane(t)
    ensures var u, max := Scroll(t, n), Newest(t) - First(t);
            && Sane(u) && u == t.(off := u.off)
            && u.off == (if t.off + n < 0 then 0 else if t.off + n > max then max else t.off + n)
            && First(t) == (if |t.lines| <= 537 then 0 else |t.lines| - 537)
            && var top := Newest(t) - u.off; First(t) <= top && Screen(u) == t.lines[top..top + 25]
  {
    ScrollSane(t, n);
  }
}
