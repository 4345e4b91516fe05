/** The text console of syscall.c:124-173: a cursor that moves over an 8 by 16 grid, wraps, and clears the screen
    when it runs off the bottom. */
module Console {
  import opened Bits

  function Add32(a: nat, b: nat): nat { (a + b) % DWORD }

  function Sub32(a: nat, b: nat): nat
    requires b < DWORD
  {
    (a + DWORD - b) % DWORD
  }

  datatype Glyph = Glyph(x: nat, y: nat, c: char) {
    predicate Inside(width: nat, height: nat) { x + 8 <= width && y + 16 <= height }

    predicate Overlaps(g: Glyph) { x < g.x + 8 && g.x < x + 8 && y < g.y + 16 && g.y < y + 16 }
  }

  /** The cursor, the glyphs on the screen since it was last cleared, all glyphs ever drawn, and the right end of
      what has been drawn on the cursor's line. */
  datatype Screen = Screen(x: nat, y: nat, drawn: seq<Glyph>, ever: seq<Glyph>, reach: nat)

  function Initial(): Screen {
    Screen(10, 10, [], [], 10)
  }

  /** SYSCALL_CLEAR */
  function Clear(s: Screen): Screen {
    Screen(10, 10, [], s.ever, 10)
  }

  /** The size the code works with: a dimension of 0 is replaced. */
  function Effective(size: nat, fallback: nat): nat {
    if size == 0 then fallback else size
  }

  function NewLine(s: Screen): Screen {
    s.(x := 10, y := Add32(s.y, 16), reach := 10)
  }

  function Draw(s: Screen, c: char, width: nat): Screen {
    var g := Glyph(s.x, s.y, c);
    var x := Add32(s.x, 8);
    var after := s.(x := x, drawn := s.drawn + [g], ever := s.ever + [g], reach := if x > s.reach then x else s.reach);
    if x >= Sub32(width, 8) then NewLine(after) else after
  }

  function Move(s: Screen, c: char, width: nat): Screen {
    if c == '\n' then NewLine(s) else if c == '\r' then s.(x := 10) else Draw(s, c, width)
  }

  /** One round of the loop of SYSCALL_PRINT. */
  function Put(s: Screen, c: char, width: nat, height: nat): Screen {
    var m := Move(s, c, width);
    if m.y >= Sub32(height, 16) then m.(y := 10, drawn := [], reach := m.x) else m
  }

  function Print(s: Screen, text: seq<char>, width: nat, height: nat): Screen
    decreases |text|
  {
    if text == [] then s else Print(Put(s, text[0], width, height), text[1..], width, height)
  }

  datatype Event = PrintEvent(text: seq<char>) | ClearEvent

  function Run(s: Screen, es: seq<Event>, width: nat, height: nat): Screen
    decreases |es|
  {
    if es == [] then s
    else
      var s' := match es[0] case PrintEvent(t) => Print(s, t, width, height) case ClearEvent => Clear(s);
      Run(s', es[1..], width, height)
  }

  // ---------------------------------------------------------------- laws

  /** Printing one text and then another is printing both at once. */
  lemma {:induction false} PrintAppend(s: Screen, a: seq<char>, b: seq<char>, width: nat, height: nat)
    ensures Print(s, a + b, width, height) == Print(Print(s, a, width, height), b, width, height)
    decreases |a|
  {
    if a == [] {
      assert a + b == b;
    } else {
      assert (a + b)[1..] == a[1..] + b;
      PrintAppend(Put(s, a[0], width, height), a[1..], b, width, height);
    }
  }

  ghost predicate AllInside(gs: seq<Glyph>, width: nat, height: nat) {
    forall g :: g in gs ==> g.Inside(width, height)
  }

  /** The cursor is on a cell of the grid; what has been drawn since the last clear lies on higher lines or left of
      `reach`. With room for one line only the screen is cleared after every character; otherwise the line under the
      cursor holds a glyph in every cell from the margin to `reach`. */
  ghost predicate Ok(s: Screen, width: nat, height: nat) {
    && s.x + 8 <= width && 10 <= s.y && s.y + 16 <= height && AllInside(s.ever, width, height)
    && 10 <= s.x <= s.reach && s.x % 8 == 2 && s.reach % 8 == 2 && s.reach <= width
    && (forall g :: g in s.drawn ==> g.y + 16 <= s.y || (g.y == s.y && g.x + 8 <= s.reach))
    && (if height == 26 then s.drawn == [] && s.x == s.reach
        else s.y + 16 < height && forall x: nat :: 10 <= x < s.reach && x % 8 == 2 ==> CellDrawn(s, x))
  }

  ghost predicate CellDrawn(s: Screen, x: nat) {
    exists g :: g in s.drawn && g.x == x && g.y == s.y
  }

  predicate Fits(width: nat, height: nat) {
    18 <= width < DWORD && 26 <= height < DWORD
  }

  lemma NewLineOk(s: Screen, width: nat, height: nat)
    requires Fits(width, height) && 10 <= s.y && s.y + 16 <= height && AllInside(s.ever, width, height)
    requires forall g :: g in s.drawn ==> g.y <= s.y
    ensures var m := NewLine(s);
      Ok(if m.y >= Sub32(height, 16) then m.(y := 10, drawn := [], reach := m.x) else m, width, height)
  {
  }

  lemma DrawOk(s: Screen, c: char, width: nat, height: nat)
    requires Fits(width, height) && Ok(s, width, height) && c != '\n' && c != '\r'
    ensures Ok(Put(s, c, width, height), width, height)
  {
    var g, x := Glyph(s.x, s.y, c), s.x + 8;
    var drawn := s.(x := x, drawn := s.drawn + [g], ever := s.ever + [g], reach := if x > s.reach then x else s.reach);
    assert Add32(s.x, 8) == x && Sub32(width, 8) == width - 8 && Sub32(height, 16) == height - 16;
    if x >= width - 8 {
      NewLineOk(drawn, width, height);
    } else if height > 26 {
      forall a: nat | 10 <= a < drawn.reach && a % 8 == 2 ensures CellDrawn(drawn, a) {
        if a == s.x {
          assert g in drawn.drawn;
        } else {
          assert CellDrawn(s, a);
          var h :| h in s.drawn && h.x == a && h.y == s.y;
          assert h in drawn.drawn;
        }
      }
    }
  }

  lemma PutOk(s: Screen, c: char, width: nat, height: nat)
    requires Fits(width, height) && Ok(s, width, height)
    ensures Ok(Put(s, c, width, height), width, height)
  {
    if c == '\n' {
      NewLineOk(s, width, height);
    } else if c == '\r' {
      var m := s.(x := 10);
      forall a: nat | height > 26 && 10 <= a < m.reach && a % 8 == 2 ensures CellDrawn(m, a) {
        assert CellDrawn(s, a);
      }
    } else {
      DrawOk(s, c, width, height);
    }
  }

  lemma {:induction false} PrintOk(s: Screen, text: seq<char>, width: nat, height: nat)
    requires Fits(width, height) && Ok(s, width, height)
    ensures Ok(Print(s, text, width, height), width, height)
    decreases |text|
  {
    if text != [] {
      PutOk(s, text[0], width, height);
      PrintOk(Put(s, text[0], width, height), text[1..], width, height);
    }
  }

  lemma {:induction false} RunOk(s: Screen, es: seq<Event>, width: nat, height: nat)
    requires Fits(width, height) && Ok(s, width, height)
    ensures Ok(Run(s, es, width, height), width, height)
    decreases |es|
  {
    if es != [] {
      match es[0] {
        case PrintEvent(t) =>
          PrintOk(s, t, width, height);
          RunOk(Print(s, t, width, height), es[1..], width, height);
        case ClearEvent =>
          RunOk(Clear(s), es[1..], width, height);
      }
    }
  }

  /** Every glyph the run draws, from the initial screen on, lies inside. */
  ghost predicate InsideRun(es: seq<Event>, width: nat, height: nat)
    requires width < DWORD && height < DWORD
  {
    AllInside(Run(Initial(), es, width, height).ever, width, height)
  }

  /** Every glyph of every run lies inside the screen exactly if the screen is at least 18 by 26 pixels. */
  lemma InsideIff(width: nat, height: nat)
    requires 0 < width < DWORD && 0 < height < DWORD
    ensures (forall es :: InsideRun(es, width, height)) <==> width >= 18 && height >= 26
  {
    if width >= 18 && height >= 26 {
      forall es ensures InsideRun(es, width, height) {
        RunOk(Initial(), es, width, height);
      }
    } else {
      var one := [PrintEvent("A")];
      assert one[1..] == [] && "A"[1..] == "";
      var r := Run(Initial(), one, width, height);
      assert r == Print(Initial(), "A", width, height) == Put(Initial(), 'A', width, height);
      assert Glyph(10, 10, 'A') in r.ever;
      assert !InsideRun(one, width, height);
    }
  }

  /** A drawn character covers an earlier one exactly if the cursor stands left of what its line already holds. */
  lemma OverdrawIff(s: Screen, c: char, width: nat, height: nat)
    requires Fits(width, height) && Ok(s, width, height)
    ensures (exists g :: g in s.drawn && g.Overlaps(Glyph(s.x, s.y, c))) <==> s.x < s.reach
  {
    if s.x < s.reach {
      assert CellDrawn(s, s.x);
      var g :| g in s.drawn && g.x == s.x && g.y == s.y;
      assert g.Overlaps(Glyph(s.x, s.y, c));
    }
  }

  ghost predicate Disjoint(gs: seq<Glyph>) {
    forall i, j :: 0 <= i < j < |gs| ==> !gs[i].Overlaps(gs[j])
  }

  /** Text without carriage returns never draws over what is on the screen. */
  lemma {:induction false} NoOverdraw(s: Screen, text: seq<char>, width: nat, height: nat)
    requires Fits(width, height) && Ok(s, width, height) && s.x == s.reach && Disjoint(s.drawn) && '\r' !in text
    ensures var r := Print(s, text, width, height); Ok(r, width, height) && r.x == r.reach && Disjoint(r.drawn)
    decreases |text|
  {
    if text != [] {
      var c, p := text[0], Put(s, text[0], width, height);
      PutOk(s, c, width, height);
      assert c in text;
      assert p.drawn == [] || p.drawn == s.drawn || p.drawn == s.drawn + [Glyph(s.x, s.y, c)];
      NoOverdraw(p, text[1..], width, height);
    }
  }

  lemma {:induction false} RunNoOverdraw(s: Screen, es: seq<Event>, width: nat, height: nat)
    requires Fits(width, height) && Ok(s, width, height) && s.x == s.reach && Disjoint(s.drawn)
    requires forall e :: e in es && e.PrintEvent? ==> '\r' !in e.text
    ensures Disjoint(Run(s, es, width, height).drawn)
    decreases |es|
  {
    if es != [] {
      assert es[0] in es;
      match es[0] {
        case PrintEvent(t) =>
          NoOverdraw(s, t, width, height);
          RunNoOverdraw(Print(s, t, width, height), es[1..], width, height);
        case ClearEvent =>
          RunNoOverdraw(Clear(s), es[1..], width, height);
      }
    }
  }

  // ---------------------------------------------------------------- overdrawing, read off the text

  /** One character printed, or one CLEAR. */
  datatype Key = Char(c: char) | Cls

  predicate IsGlyph(k: Key) {
    k.Char? && k.c != '\n' && k.c != '\r'
  }

  function Keys(es: seq<Event>): seq<Key>
    decreases |es|
  {
    if es == [] then []
    else (match es[0] case PrintEvent(t) => Chars(t) case ClearEvent => [Cls]) + Keys(es[1..])
  }

  function Chars(text: seq<char>): seq<Key> {
    seq(|text|, i requires 0 <= i < |text| => Char(text[i]))
  }

  function PlayOne(s: Screen, k: Key, width: nat, height: nat): Screen {
    match k case Char(c) => Put(s, c, width, height) case Cls => Clear(s)
  }

  function Play(s: Screen, ks: seq<Key>, width: nat, height: nat): Screen
    decreases |ks|
  {
    if ks == [] then s else PlayOne(Play(s, ks[..|ks| - 1], width, height), ks[|ks| - 1], width, height)
  }

  lemma {:induction false} PlayAppend(s: Screen, a: seq<Key>, b: seq<Key>, width: nat, height: nat)
    ensures Play(s, a + b, width, height) == Play(Play(s, a, width, height), b, width, height)
    decreases |b|
  {
    if b == [] {
      assert a + b == a;
    } else {
      assert (a + b)[..|a + b| - 1] == a + b[..|b| - 1];
      PlayAppend(s, a, b[..|b| - 1], width, height);
    }
  }

  lemma {:induction false} PrintIsPlay(s: Screen, text: seq<char>, width: nat, height: nat)
    ensures Print(s, text, width, height) == Play(s, Chars(text), width, height)
    decreases |text|
  {
    if text != [] {
      PrintIsPlay(Put(s, text[0], width, height), text[1..], width, height);
      assert Chars(text) == [Char(text[0])] + Chars(text[1..]);
      PlayAppend(s, [Char(text[0])], Chars(text[1..]), width, height);
      assert Play(s, [Char(text[0])], width, height) ==
        PlayOne(Play(s, [], width, height), Char(text[0]), width, height);
    }
  }

  /** A run of system calls is its characters and clears one by one. */
  lemma {:induction false} RunIsPlay(s: Screen, es: seq<Event>, width: nat, height: nat)
    ensures Run(s, es, width, height) == Play(s, Keys(es), width, height)
    decreases |es|
  {
    if es != [] {
      match es[0] {
        case PrintEvent(t) =>
          PrintIsPlay(s, t, width, height);
          RunIsPlay(Print(s, t, width, height), es[1..], width, height);
          PlayAppend(s, Chars(t), Keys(es[1..]), width, height);
        case ClearEvent =>
          RunIsPlay(Clear(s), es[1..], width, height);
          PlayAppend(s, [Cls], Keys(es[1..]), width, height);
          assert Play(s, [Cls], width, height) == PlayOne(Play(s, [], width, height), Cls, width, height);
      }
    }
  }

  /** The key draws over a glyph that is on the screen. */
  ghost predicate Covers(s: Screen, k: Key) {
    IsGlyph(k) && exists g :: g in s.drawn && g.Overlaps(Glyph(s.x, s.y, k.c))
  }

  /** At some point of the run from the initial screen a character is drawn over an earlier one. */
  ghost predicate Overdraws(ks: seq<Key>, width: nat, height: nat) {
    exists j: nat :: j < |ks| && Covers(Play(Initial(), ks[..j], width, height), ks[j])
  }

  /** How many characters fit on a line before the cursor wraps. */
  function Columns(width: nat): (n: nat)
    ensures n > 0
  {
    if width <= 19 then 1 else (width - 11) / 8
  }

  /** How many characters the text has put on its last line, counting from the last line break, clear or wrap. */
  function Filled(ks: seq<Key>, width: nat): (n: nat)
    ensures n < Columns(width)
    decreases |ks|
  {
    if ks == [] then 0
    else
      var n, k := Filled(ks[..|ks| - 1], width), ks[|ks| - 1];
      if k == Char('\r') then n
      else if !IsGlyph(k) || n + 1 == Columns(width) then 0
      else n + 1
  }

  /** Key `j` is a character right after a carriage return on a line that is not empty. */
  predicate Returns(ks: seq<Key>, j: nat, width: nat) {
    0 < j < |ks| && IsGlyph(ks[j]) && ks[j - 1] == Char('\r') && Filled(ks[..j], width) > 0
  }

  /** As long as nothing was overdrawn the cursor stands at the end of its line or, after a carriage return, at its
      start, and the line is as full as the text says. */
  ghost predicate Tracks(s: Screen, ks: seq<Key>, width: nat, height: nat) {
    && Ok(s, width, height)
    && (height > 26 ==>
          && s.reach == 10 + 8 * Filled(ks, width)
          && s.x == if ks != [] && ks[|ks| - 1] == Char('\r') then 10 else s.reach)
  }

  lemma CoversIff(s: Screen, ks: seq<Key>, j: nat, width: nat, height: nat)
    requires Fits(width, height) && j < |ks| && Tracks(s, ks[..j], width, height)
    ensures Covers(s, ks[j]) <==> height > 26 && Returns(ks, j, width)
  {
    if IsGlyph(ks[j]) { OverdrawIff(s, ks[j].c, width, height); }
    if j > 0 { assert ks[..j][|ks[..j]| - 1] == ks[j - 1]; }
  }

  lemma TracksOn(s: Screen, ks: seq<Key>, j: nat, width: nat, height: nat)
    requires Fits(width, height) && j < |ks| && Tracks(s, ks[..j], width, height) && !Returns(ks, j, width)
    ensures Tracks(PlayOne(s, ks[j], width, height), ks[..j + 1], width, height)
  {
    hide CellDrawn, AllInside;
    var k := ks[j];
    assert ks[..j + 1][..|ks[..j + 1]| - 1] == ks[..j];
    if j > 0 { assert ks[..j][|ks[..j]| - 1] == ks[j - 1]; }
    if k.Char? {
      PutOk(s, k.c, width, height);
      assert Sub32(width, 8) == width - 8 && Sub32(height, 16) == height - 16;
      if IsGlyph(k) && height > 26 { LineEnds(Filled(ks[..j], width), width); }
    }
  }

  lemma LineEnds(n: nat, width: nat)
    requires width >= 18 && n < Columns(width)
    ensures 10 + 8 * (n + 1) >= width - 8 <==> n + 1 == Columns(width)
  {
  }

  lemma {:induction false} TracksTo(ks: seq<Key>, n: nat, width: nat, height: nat)
    requires Fits(width, height) && n <= |ks| && forall j: nat :: j < n ==> !Returns(ks, j, width)
    ensures Tracks(Play(Initial(), ks[..n], width, height), ks[..n], width, height)
    decreases n
  {
    if n > 0 {
      TracksTo(ks, n - 1, width, height);
      TracksOn(Play(Initial(), ks[..n - 1], width, height), ks, n - 1, width, height);
      assert ks[..n][..n - 1] == ks[..n - 1];
    }
  }

  lemma {:induction false} FirstReturn(ks: seq<Key>, j: nat, width: nat) returns (i: nat)
    requires Returns(ks, j, width)
    ensures Returns(ks, i, width) && forall h: nat :: h < i ==> !Returns(ks, h, width)
    decreases j
  {
    if h: nat :| h < j && Returns(ks, h, width) {
      i := FirstReturn(ks, h, width);
    } else {
      i := j;
    }
  }

  /** Over a whole run of PRINT and CLEAR calls some character is drawn over an earlier one exactly if, on a screen with
      room for more than one line, some character directly follows a carriage return on a line that is not empty. */
  lemma RunOverdrawsIff(es: seq<Event>, width: nat, height: nat)
    requires Fits(width, height)
    ensures Overdraws(Keys(es), width, height) <==> height > 26 && exists j: nat :: Returns(Keys(es), j, width)
  {
    var ks := Keys(es);
    if height > 26 && exists j: nat :: Returns(ks, j, width) {
      var j: nat :| Returns(ks, j, width);
      var i := FirstReturn(ks, j, width);
      TracksTo(ks, i, width, height);
      CoversIff(Play(Initial(), ks[..i], width, height), ks, i, width, height);
    } else if height > 26 {
      forall j: nat | j < |ks| ensures !Covers(Play(Initial(), ks[..j], width, height), ks[j]) {
        TracksTo(ks, j, width, height);
        CoversIff(Play(Initial(), ks[..j], width, height), ks, j, width, height);
      }
    } else {
      forall j: nat | j < |ks| ensures !Covers(Play(Initial(), ks[..j], width, height), ks[j]) {
        PlayOk(ks[..j], width, height);
      }
    }
  }

  lemma {:induction false} PlayOk(ks: seq<Key>, width: nat, height: nat)
    requires Fits(width, height)
    ensures Ok(Play(Initial(), ks, width, height), width, height)
    decreases |ks|
  {
    if ks != [] {
      PlayOk(ks[..|ks| - 1], width, height);
      if ks[|ks| - 1].Char? { PutOk(Play(Initial(), ks[..|ks| - 1], width, height), ks[|ks| - 1].c, width, height); }
    }
  }

  // ---------------------------------------------------------------- what is drawn

  /** The characters drawn, in order. */
  function Letters(gs: seq<Glyph>): (t: seq<char>)
    ensures |t| == |gs| && forall i :: 0 <= i < |gs| ==> t[i] == gs[i].c
  {
    seq(|gs|, i requires 0 <= i < |gs| => gs[i].c)
  }

  /** The characters of a text that leave a mark: all but line feeds and carriage returns. */
  function Visible(text: seq<char>): (t: seq<char>)
    ensures '\n' !in t && '\r' !in t
    ensures forall c :: c != '\n' && c != '\r' ==> multiset(t)[c] == multiset(text)[c]
  {
    if text == [] then []
    else
      assert text == [text[0]] + text[1..];
      (if text[0] == '\n' || text[0] == '\r' then [] else [text[0]]) + Visible(text[1..])
  }

  /** What a run of calls prints, clears left out. */
  function Printed(es: seq<Event>): seq<char> {
    if es == [] then [] else (if es[0].PrintEvent? then es[0].text else []) + Printed(es[1..])
  }

  lemma {:induction false} VisibleAppend(a: seq<char>, b: seq<char>)
    ensures Visible(a + b) == Visible(a) + Visible(b)
    decreases |a|
  {
    if a == [] {
      assert a + b == b;
    } else {
      assert (a + b)[1..] == a[1..] + b;
      VisibleAppend(a[1..], b);
    }
  }

  /** Printing a text draws its visible characters, each once and in order, after whatever was drawn before. */
  lemma {:induction false} PrintShows(s: Screen, text: seq<char>, width: nat, height: nat)
    ensures Letters(Print(s, text, width, height).ever) == Letters(s.ever) + Visible(text)
    decreases |text|
  {
    if text != [] {
      var p := Put(s, text[0], width, height);
      assert Letters(p.ever) == Letters(s.ever) + Visible([text[0]]);
      PrintShows(p, text[1..], width, height);
      assert text == [text[0]] + text[1..];
      VisibleAppend([text[0]], text[1..]);
    }
  }

  /** Over a whole run the characters drawn are the visible ones of all texts printed, in order. */
  lemma {:induction false} RunShows(s: Screen, es: seq<Event>, width: nat, height: nat)
    ensures Letters(Run(s, es, width, height).ever) == Letters(s.ever) + Visible(Printed(es))
    decreases |es|
  {
    if es != [] {
      match es[0] {
        case PrintEvent(t) =>
          PrintShows(s, t, width, height);
          RunShows(Print(s, t, width, height), es[1..], width, height);
          VisibleAppend(t, Printed(es[1..]));
        case ClearEvent =>
          RunShows(Clear(s), es[1..], width, height);
          assert Printed(es) == Printed(es[1..]);
      }
    }
  }

  // ---------------------------------------------------------------- the loop

  /** A C string: the characters before the first NUL. */
  ghost function Text(mem: seq<char>): (t: seq<char>)
    requires '\0' in mem
    ensures |t| < |mem| && t == mem[..|t|] && mem[|t|] == '\0' && '\0' !in t
    decreases |mem|
  {
    if mem[0] == '\0' then [] else [mem[0]] + Text(mem[1..])
  }

  class Terminal {
    /** The dimensions Graphics_GetDimensions reports. */
    const screenWidth: nat
    const screenHeight: nat
    var consoleX: nat
    var consoleY: nat
    /** What Graphics_PutChar and Graphics_Clear have been asked to do. */
    ghost var drawn: seq<Glyph>
    ghost var ever: seq<Glyph>
    ghost var reach: nat

    ghost function Abs(): Screen
      reads this
    {
      Screen(consoleX, consoleY, drawn, ever, reach)
    }

    constructor (width: nat, height: nat)
      ensures screenWidth == width && screenHeight == height && Abs() == Initial()
    {
      screenWidth, screenHeight := width, height;
      consoleX, consoleY := 10, 10;
      drawn, ever, reach := [], [], 10;
    }

    method PutChar(c: char)
      modifies this`drawn, this`ever
      ensures drawn == old(drawn) + [Glyph(consoleX, consoleY, c)] && ever == old(ever) + [Glyph(consoleX, consoleY, c)]
    {
      drawn := drawn + [Glyph(consoleX, consoleY, c)];
      ever := ever + [Glyph(consoleX, consoleY, c)];
    }

    /** SYSCALL_CLEAR */
    method ClearCall()
      modifies this
      ensures Abs() == Clear(old(Abs()))
      ensures consoleX == 10 && consoleY == 10 && drawn == [] && ever == old(ever)
    {
      drawn, reach := [], 10;
      consoleX := 10;
      consoleY := 10;
    }

    /** syscall.c:151-164 */
    method MoveCall(c: char, width: nat)
      modifies this
      ensures Abs() == Move(old(Abs()), c, width)
    {
      if c == '\n' {
        consoleX := 10;
        consoleY := Add32(consoleY, 16);
        reach := 10;
      } else if c == '\r' {
        consoleX := 10;
      } else {
        PutChar(c);
        consoleX := Add32(consoleX, 8);
        reach := if consoleX > reach then consoleX else reach;
        if consoleX >= Sub32(width, 8) {
          consoleX := 10;
          consoleY := Add32(consoleY, 16);
          reach := 10;
        }
      }
    }

    /** One round of the loop, syscall.c:150-170. */
    method PutCall(c: char, width: nat, height: nat)
      modifies this
      ensures Abs() == Put(old(Abs()), c, width, height)
    {
      MoveCall(c, width);
      if consoleY >= Sub32(height, 16) {
        consoleY := 10;
        drawn, reach := [], consoleX;
      }
    }

    /** SYSCALL_PRINT of the string at the start of `mem`. */
    method PrintCall(mem: seq<char>)
      requires '\0' in mem
      modifies this
      ensures Abs() == Print(old(Abs()), Text(mem), Effective(screenWidth, 800), Effective(screenHeight, 600))
      ensures screenWidth == 0 && screenHeight == 0 ==> Abs() == Print(old(Abs()), Text(mem), 800, 600)
      ensures screenWidth > 0 && screenHeight > 0 ==> Abs() == Print(old(Abs()), Text(mem), screenWidth, screenHeight)
      ensures Letters(ever) == old(Letters(ever)) + Visible(Text(mem))
    {
      var width, height := screenWidth, screenHeight;
      if width == 0 {
        width := 800;
      }
      if height == 0 {
        height := 600;
      }
      PrintShows(Abs(), Text(mem), width, height);
      var i := 0;
      while mem[i] != '\0'
        invariant i < |mem| && '\0' in mem[i..]
        invariant Print(Abs(), Text(mem[i..]), width, height) == Print(old(Abs()), Text(mem), width, height)
        decreases |mem| - i
      {
        assert mem[i..][0] == mem[i] && mem[i..][1..] == mem[i + 1..];
        PutCall(mem[i], width, height);
        i := i + 1;
      }
    }
  }
}
