/** src/console.c as it runs: lines in a ring of 537 slots, redrawn after every character. */
module Console {
  import opened Terminal

  lemma SlotOfLine(first: nat, i: nat)
    requires first <= i
    ensures (first % TOTAL_LINES + (i - first) % TOTAL_LINES) % TOTAL_LINES == i % TOTAL_LINES
  {
  }

  lemma SlotsDiffer(i: nat, j: nat)
    requires i < j < i + TOTAL_LINES
    ensures i % TOTAL_LINES != j % TOTAL_LINES
  {
  }

  /** The ring holds the lines from `first` on, line `i` in slot i mod 537. */
  ghost predicate Retains(ring: seq<Line>, lines: seq<Line>, first: nat)
    requires |ring| == TOTAL_LINES
  {
    forall i :: first <= i < |lines| ==> ring[i % TOTAL_LINES] == lines[i]
  }

  /** A new line takes the slot of one that is not retained any more. */
  lemma RetainsPush(ring: seq<Line>, lines: seq<Line>, first: nat, l: Line, first': nat)
    requires |ring| == TOTAL_LINES && Retains(ring, lines, first)
    requires first <= first' <= |lines| && |lines| < first' + TOTAL_LINES
    ensures Retains(ring[|lines| % TOTAL_LINES := l], lines + [l], first')
  {
    var n := |lines|;
    forall i | first' <= i < n + 1 ensures ring[n % TOTAL_LINES := l][i % TOTAL_LINES] == (lines + [l])[i] {
      if i < n { SlotsDiffer(i, n); }
    }
  }

  lemma RetainsWrite(ring: seq<Line>, lines: seq<Line>, first: nat, k: nat, l: Line)
    requires |ring| == TOTAL_LINES && Retains(ring, lines, first) && first <= k < |lines| <= first + TOTAL_LINES
    ensures Retains(ring[k % TOTAL_LINES := l], lines[k := l], first)
  {
    forall i | first <= i < |lines| ensures ring[k % TOTAL_LINES := l][i % TOTAL_LINES] == lines[k := l][i] {
      if i < k { SlotsDiffer(i, k); } else if k < i { SlotsDiffer(k, i); }
    }
  }

  class Console {
    const buf: array<Line>
    const screen: array<Line>
    var firstLine: nat
    var firstSlot: nat
    var lineCount: nat
    var cursorLine: nat
    var viewOffset: nat
    var x: nat
    var y: int
    var color: nat
    ghost var term: Term

    /** The console holds the retained lines of the terminal, its cursor and its view. */
    ghost predicate Holds(t: Term)
      reads this, buf
    {
      && buf.Length == TOTAL_LINES && screen.Length == HEIGHT && buf != screen
      && firstLine == First(t) && firstSlot == firstLine % TOTAL_LINES && firstLine + lineCount == |t.lines|
      && cursorLine == t.cursor && x == t.x && color == t.color && viewOffset == t.off
      && Retains(buf[..], t.lines, firstLine)
    }

    ghost predicate Valid()
      reads this, buf
    {
      Sane(term) && Holds(term)
    }

    ghost predicate Shown()
      reads this, buf, screen
    {
      Valid() && screen[..] == Screen(term)
    }

    method LineSlot(i: nat) returns (s: nat)
      requires Holds(term) && firstLine <= i
      ensures s == i % TOTAL_LINES
    {
      var delta := (i - firstLine) % TOTAL_LINES;
      SlotOfLine(firstLine, i);
      return (firstSlot + delta) % TOTAL_LINES;
    }

    method NewestStart() returns (n: nat)
      requires Holds(term)
      ensures n == Newest(term)
    {
      n := 0;
      if cursorLine + 1 > HEIGHT { n := cursorLine + 1 - HEIGHT; }
      if n < firstLine { n := firstLine; }
    }

    method ClampView()
      requires Holds(term)
      modifies `viewOffset, `term
      ensures Holds(term) && term == Clamp(old(term))
    {
      var n := NewestStart();
      if viewOffset > n - firstLine { viewOffset := n - firstLine; }
      term := Clamp(term);
    }

    method DrawLines(top: nat)
      requires Holds(term) && firstLine <= top && top + HEIGHT <= |term.lines|
      modifies screen
      ensures screen[..] == term.lines[top..top + HEIGHT]
    {
      for k := 0 to HEIGHT
        invariant Holds(term)
        invariant forall j :: 0 <= j < k ==> screen[j] == term.lines[top + j]
      {
        var s := LineSlot(top + k);
        screen[k] := buf[s];
      }
    }

    /** `render_view` */
    method Render()
      requires Holds(term) && Sane(Clamp(term))
      modifies `viewOffset, `y, `term, screen
      ensures Shown() && term == Clamp(old(term))
    {
      var n := NewestStart();
      ClampView();
      var top := n - viewOffset;
      ViewRetained(term);
      DrawLines(top);
      y := if cursorLine >= top then (if cursorLine - top < HEIGHT then cursorLine - top else HEIGHT - 1) else 0;
    }

    /** One round of `ensure_line_available`, with `drop_oldest_line_if_needed`: a blank line, in the
        slot of the oldest one once the ring is full. */
    method PushLine()
      requires Holds(term) && HEIGHT <= |term.lines| && term.cursor == |term.lines|
      modifies buf, `firstLine, `firstSlot, `lineCount, `viewOffset, `term
      ensures var u := old(term).(lines := old(term).lines + [Blank(old(term).color)]);
              Holds(term) && (term == u || term == Clamp(u))
    {
      var s := LineSlot(firstLine + lineCount);
      ghost var u := term.(lines := term.lines + [Blank(color)]);
      RetainsPush(buf[..], term.lines, firstLine, Blank(color), First(u));
      buf[s] := Blank(color);
      lineCount := lineCount + 1;
      term := u;
      if lineCount > TOTAL_LINES {
        firstSlot := (firstSlot + 1) % TOTAL_LINES;
        firstLine := firstLine + 1;
        lineCount := lineCount - 1;
        ClampView();
      }
    }

    /** `ensure_line_available` for the cursor's line */
    method EnsureLine()
      requires Holds(term) && HEIGHT <= |term.lines| && term.cursor <= |term.lines|
      modifies buf, `firstLine, `firstSlot, `lineCount, `viewOffset, `term
      ensures var t := old(term);
              var u := t.(lines := if t.cursor == |t.lines| then t.lines + [Blank(t.color)] else t.lines);
              Holds(term) && (term == u || term == Clamp(u))
    {
      ghost var t := term;
      ghost var u := t.(lines := t.lines + [Blank(t.color)]);
      while cursorLine >= firstLine + lineCount
        invariant Holds(term)
        invariant term == t || (t.cursor == |t.lines| && (term == u || term == Clamp(u)))
        decreases cursorLine + 1 - (firstLine + lineCount)
      {
        PushLine();
      }
    }

    method StartNewLine()
      requires Holds(term) && HEIGHT <= |term.lines| && term.cursor < |term.lines|
      modifies this, buf
      ensures Holds(term) && (term == NewLine(old(term)) || term == Clamp(NewLine(old(term))))
    {
      x := 0;
      cursorLine := cursorLine + 1;
      term := term.(x := 0, cursor := term.cursor + 1);
      EnsureLine();
    }

    method WriteChar(c: nat)
      requires Valid()
      modifies this, buf
      ensures Holds(term) && term == WriteAt(old(term), c)
    {
      EnsureLine();
      var s := LineSlot(cursorLine);
      RetainsWrite(buf[..], term.lines, firstLine, term.cursor, term.lines[term.cursor][x := Cell(c, color)]);
      buf[s] := buf[s][x := Cell(c, color)];
      term := WriteAt(term, c);
    }

    /** A printable character or a tab has moved the cursor, perhaps over the edge. */
    method WrapAt(nx: nat)
      requires Holds(term) && HEIGHT <= |term.lines| && term.cursor < |term.lines|
      modifies this, buf
      ensures var u := old(term).(x := nx);
              var v := if nx >= WIDTH then NewLine(u) else u;
              Holds(term) && (term == v || term == Clamp(v))
    {
      x := nx;
      term := term.(x := nx);
      if x >= WIDTH { StartNewLine(); }
    }

    method TypeChar(c: nat)
      requires Valid()
      modifies this, buf
      ensures Holds(term) && (term == Typed(old(term), c) || term == Clamp(Typed(old(term), c)))
    {
      if c == 10 {
        StartNewLine();
      } else if c == 13 {
        x := 0;
        term := term.(x := 0);
      } else if c == 9 {
        WrapAt((x + 4) / 4 * 4);
      } else {
        WriteChar(c);
        WrapAt(x + 1);
      }
    }

    /** `console_putc_vga`: the ring follows the unbounded terminal, and the screen shows its view. */
    method Putc(c: nat)
      requires Valid()
      modifies this, buf, screen
      ensures Shown() && term == Put(old(term), c)
    {
      PutSane(term, c);
      TypeChar(c);
      Render();
    }

    /** `console_scroll_view`; nothing is redrawn for no lines. */
    method ScrollView(n: int)
      requires Shown()
      modifies this, screen
      ensures Shown() && term == Scroll(old(term), n)
    {
      if n == 0 { return; }
      ScrollSane(term, n);
      var newest := NewestStart();
      var max := newest - firstLine;
      if n > 0 {
        viewOffset := if viewOffset + n > max then max else viewOffset + n;
      } else {
        viewOffset := if -n > viewOffset then 0 else viewOffset + n;
      }
      term := Scroll(term, n);
      Render();
    }

    /** `console_init` up to its first message */
    constructor (color: nat)
      ensures Shown() && term == Start(color) && fresh(buf) && fresh(screen)
    {
      buf := new Line[TOTAL_LINES](_ => Blank(color));
      screen := new Line[HEIGHT](_ => Blank(color));
      firstLine, firstSlot, lineCount, cursorLine, viewOffset, x, y := 0, 0, HEIGHT, 0, 0, 0, 0;
      this.color := color;
      term := Start(color);
      new;
      Render();
    }
  }
}
