/** The console as a page of character cells: the pixel arithmetic of syscall.c:143-171 refines a cursor that moves over
    columns and rows. */
module ConsoleGrid {
  import opened Bits
  import opened Console

  /** A character in a cell. */
  datatype Mark = Mark(col: nat, row: nat, c: char)

  /** The cursor's cell, what is on the page since it was last cleared, and all that was ever put on it. */
  datatype Page = Page(col: nat, row: nat, shown: seq<Mark>, all: seq<Mark>)

  /** How many rows are filled before the page is cleared. */
  function Rows(height: nat): (n: nat)
    ensures n > 0
  {
    if height <= 27 then 1 else (height - 11) / 16
  }

  /** The start of the next row; after the last one the page is cleared and the first row begins. */
  function NextRow(p: Page, rows: nat): Page {
    if p.row + 1 >= rows then Page(0, 0, [], p.all) else p.(col := 0, row := p.row + 1)
  }

  function PutOn(p: Page, c: char, columns: nat, rows: nat): Page {
    if c == '\n' then NextRow(p, rows)
    else if c == '\r' then p.(col := 0)
    else
      var m := Mark(p.col, p.row, c);
      var after := p.(shown := p.shown + [m], all := p.all + [m]);
      if p.col + 1 == columns then NextRow(after, rows) else after.(col := p.col + 1)
  }

  function PlayOn(ks: seq<Key>, columns: nat, rows: nat): Page
    decreases |ks|
  {
    if ks == [] then Page(0, 0, [], [])
    else
      var p, k := PlayOn(ks[..|ks| - 1], columns, rows), ks[|ks| - 1];
      if k == Cls then Page(0, 0, [], p.all) else PutOn(p, k.c, columns, rows)
  }

  /** Cell (col, row) is the 8 by 16 rectangle whose corner is that many cells right of and below (10, 10). */
  function Place(ms: seq<Mark>): seq<Glyph> {
    seq(|ms|, i requires 0 <= i < |ms| => Glyph(10 + 8 * ms[i].col, 10 + 16 * ms[i].row, ms[i].c))
  }

  /** The screen shows the page. A screen with room for one row only is blank after every character. */
  ghost predicate Shows(s: Screen, p: Page, width: nat, height: nat) {
    && p.col < Columns(width) && p.row < Rows(height)
    && s.x == 10 + 8 * p.col && s.y == 10 + 16 * p.row
    && s.ever == Place(p.all) && s.drawn == if height == 26 then [] else Place(p.shown)
  }

  lemma PlaceOne(ms: seq<Mark>, m: Mark)
    ensures Place(ms + [m]) == Place(ms) + [Glyph(10 + 8 * m.col, 10 + 16 * m.row, m.c)]
  {
  }

  lemma RowEnds(n: nat, height: nat)
    requires 26 <= height < DWORD && n < Rows(height)
    ensures 10 + 16 * (n + 1) >= Sub32(height, 16) <==> n + 1 == Rows(height)
    ensures height > 26 ==> 10 + 16 * n < Sub32(height, 16)
    ensures Add32(10 + 16 * n, 16) == 10 + 16 * (n + 1)
  {
    assert Sub32(height, 16) == height - 16;
  }

  lemma ColumnEnds(n: nat, width: nat)
    requires 18 <= width < DWORD && n < Columns(width)
    ensures Add32(10 + 8 * n, 8) == 10 + 8 * (n + 1)
    ensures 10 + 8 * (n + 1) >= Sub32(width, 8) <==> n + 1 == Columns(width)
  {
    assert Sub32(width, 8) == width - 8;
  }

  lemma PutShows(s: Screen, p: Page, c: char, width: nat, height: nat)
    requires Fits(width, height) && Shows(s, p, width, height)
    ensures Shows(Put(s, c, width, height), PutOn(p, c, Columns(width), Rows(height)), width, height)
  {
    hide Place, Columns, Rows, Add32, Sub32;
    RowEnds(p.row, height);
    ColumnEnds(p.col, width);
    PlaceOne(p.shown, Mark(p.col, p.row, c));
    PlaceOne(p.all, Mark(p.col, p.row, c));
    NothingPlaced();
    SmallHeight();
  }

  lemma NothingPlaced()
    ensures Place([]) == []
  {
  }

  lemma SmallHeight()
    ensures Sub32(26, 16) == 10 && Rows(26) == 1
  {
  }

  /** After every run of PRINT and CLEAR calls cursor, screen and history are those of the page: each visible character
      stands in the next cell, rows end after `Columns` cells, and the page is cleared after `Rows` rows. */
  lemma {:induction false} ScreenIsPage(ks: seq<Key>, width: nat, height: nat)
    requires Fits(width, height)
    ensures Shows(Play(Initial(), ks, width, height), PlayOn(ks, Columns(width), Rows(height)), width, height)
    decreases |ks|
  {
    if ks != [] {
      var init, k := ks[..|ks| - 1], ks[|ks| - 1];
      ScreenIsPage(init, width, height);
      if k.Char? {
        PutShows(Play(Initial(), init, width, height), PlayOn(init, Columns(width), Rows(height)), k.c, width, height);
      }
    }
  }

  lemma RunIsPage(es: seq<Event>, width: nat, height: nat)
    requires Fits(width, height)
    ensures Shows(Run(Initial(), es, width, height), PlayOn(Keys(es), Columns(width), Rows(height)), width, height)
  {
    RunIsPlay(Initial(), es, width, height);
    ScreenIsPage(Keys(es), width, height);
  }
}
