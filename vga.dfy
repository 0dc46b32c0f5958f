/** The 80x25 VGA text buffer: the cell array written in place, the
    software cursor `CURSOR`, the attribute byte `VGA_COLOR`, and the
    hardware cursor, which is moved by writes to the CRT controller's
    index and data ports (recorded here as a log).

    `VgaText` holds the statics; each of its methods is tied to a function
    on the value `Screen`.  There is no scrolling, so a character written
    once the cursor has left row 24 would land outside the buffer; callers
    must not do that, and the functions below require it. */
module Vga {
  import opened Base

  const WIDTH: nat := 80
  const HEIGHT: nat := 25
  const CELLS: nat := 2000

  /** CRT controller index and data ports, and the two cursor-location
      registers. */
  const CRTC_INDEX: u16 := 0x3D4
  const CRTC_DATA: u16 := 0x3D5
  const CURSOR_LOW: byte := 0x0F
  const CURSOR_HIGH: byte := 0x0E

  /** The sixteen text-mode colours, in `#[repr(u8)]` order. */
  datatype Color =
    | Black | Blue | Green | Cyan | Red | Magenta | Brown | LightGray
    | DarkGray | LightBlue | LightGreen | LightCyan | LightRed | Pink | Yellow | White

  /** `color as u8`. */
  function ColorCode(c: Color): (b: bv8)
    ensures b < 16
  {
    match c
    case Black => 0 case Blue => 1 case Green => 2 case Cyan => 3
    case Red => 4 case Magenta => 5 case Brown => 6 case LightGray => 7
    case DarkGray => 8 case LightBlue => 9 case LightGreen => 10 case LightCyan => 11
    case LightRed => 12 case Pink => 13 case Yellow => 14 case White => 15
  }

  /** The colour a 4-bit attribute field denotes. */
  function ColorOf(b: bv8): Color
    requires b < 16
  {
    if b == 0 then Black else if b == 1 then Blue else if b == 2 then Green
    else if b == 3 then Cyan else if b == 4 then Red else if b == 5 then Magenta
    else if b == 6 then Brown else if b == 7 then LightGray else if b == 8 then DarkGray
    else if b == 9 then LightBlue else if b == 10 then LightGreen
    else if b == 11 then LightCyan else if b == 12 then LightRed
    else if b == 13 then Pink else if b == 14 then Yellow else White
  }

  /** The colour codes are exactly the sixteen 4-bit values, one each. */
  lemma ColorCodeRoundTrip(c: Color, b: bv8)
    requires b < 16
    ensures ColorOf(ColorCode(c)) == c
    ensures ColorCode(ColorOf(b)) == b
  {
  }

  /** The attribute `print_color(fg, bg)` stores: background in the high
      nibble, foreground in the low one, i.e. `bg * 16 + fg`. */
  function Attr(fg: Color, bg: Color): (a: bv8)
    ensures a >> 4 == ColorCode(bg) && a & 0xF == ColorCode(fg)
    ensures a as int == 16 * ColorCode(bg) as int + ColorCode(fg) as int
  {
    (ColorCode(bg) << 4) | ColorCode(fg)
  }

  /** Different colour pairs give different attributes. */
  lemma AttrDecodes(fg: Color, bg: Color)
    ensures ColorOf(Attr(fg, bg) & 0xF) == fg
    ensures ColorOf(Attr(fg, bg) >> 4) == bg
  {
    ColorCodeRoundTrip(fg, 0);
    ColorCodeRoundTrip(bg, 0);
  }

  /** `c as u16`: the character's code truncated to 16 bits; a character
      below 256 keeps its code and has a zero high byte. */
  function CharUnit(c: char): (u: bv16)
    ensures (c as int) < 256 ==> u as int == c as int && u < 256
  {
    (c as int % 0x1_0000) as bv16
  }

  /** `make_entry`: the attribute in the high byte, OR-ed with the
      character truncated to 16 bits.  The low byte is always the
      character's low byte; when the character fits a byte the cell is
      exactly (attribute, character). */
  function MakeEntry(attr: bv8, c: char): (e: bv16)
    ensures e & 0xFF == CharUnit(c) & 0xFF
    ensures CharUnit(c) < 256 ==> e >> 8 == attr as bv16 && e & 0xFF == CharUnit(c)
  {
    ((attr as bv16) << 8) | CharUnit(c)
  }

  /** The display and the port log at one moment. */
  datatype Screen = Screen(cells: seq<bv16>, x: nat, y: nat, attr: bv8, ports: seq<PortWrite>)

  predicate WellFormed(s: Screen)
  {
    |s.cells| == CELLS && s.x < WIDTH
  }

  /** The linear cell index of a cursor position. */
  function Pos(x: nat, y: nat): nat
  {
    y * WIDTH + x
  }

  /** `update_cursor`'s four port writes for a cursor at `(x, y)`. */
  function CursorWrites(x: nat, y: nat): (w: seq<PortWrite>)
    ensures |w| == 4
    ensures w[0] == PortWrite(CRTC_INDEX, CURSOR_LOW) && w[2] == PortWrite(CRTC_INDEX, CURSOR_HIGH)
    ensures w[1].port == CRTC_DATA && w[3].port == CRTC_DATA
    ensures Pos(x, y) < U16_LIMIT ==> w[3].value * 256 + w[1].value == Pos(x, y)
  {
    [PortWrite(CRTC_INDEX, CURSOR_LOW), PortWrite(CRTC_DATA, LowByte(Pos(x, y))),
     PortWrite(CRTC_INDEX, CURSOR_HIGH), PortWrite(CRTC_DATA, HighByte(Pos(x, y)))]
  }

  /** A reference model of the CRT controller: a write to the index port
      selects a register, a write to the data port stores into the selected
      one. */
  datatype Crtc = Crtc(index: Option<byte>, regs: map<byte, byte>)

  function CrtcRun(d: Crtc, ws: seq<PortWrite>): Crtc
    decreases |ws|
  {
    if ws == [] then d
    else
      var w := ws[0];
      var d1 :=
        if w.port == CRTC_INDEX then d.(index := Some(w.value))
        else if w.port == CRTC_DATA && d.index.Some? then d.(regs := d.regs[d.index.value := w.value])
        else d;
      CrtcRun(d1, ws[1..])
  }

  /** After `update_cursor` the controller's cursor-location registers
      hold the cursor's cell index, high byte in 0x0E and low byte in 0x0F
      (the position always fits in 16 bits while the cursor is on the
      screen). */
  lemma CursorRegistersHoldPosition(d: Crtc, x: nat, y: nat)
    requires Pos(x, y) < U16_LIMIT
    ensures var r := CrtcRun(d, CursorWrites(x, y)).regs;
      && CURSOR_LOW in r && CURSOR_HIGH in r
      && (r[CURSOR_HIGH] as int) * 256 + (r[CURSOR_LOW] as int) == Pos(x, y)
  {
    var ws := CursorWrites(x, y);
    var d1 := d.(index := Some(CURSOR_LOW));
    var d2 := d1.(regs := d1.regs[CURSOR_LOW := LowByte(Pos(x, y))]);
    var d3 := d2.(index := Some(CURSOR_HIGH));
    var d4 := d3.(regs := d3.regs[CURSOR_HIGH := HighByte(Pos(x, y))]);
    assert ws[1..][1..] == ws[2..] && ws[2..][1..] == ws[3..] && ws[3..][1..] == [];
    assert CrtcRun(d, ws) == CrtcRun(d1, ws[1..]);
    assert CrtcRun(d1, ws[1..]) == CrtcRun(d2, ws[2..]);
    assert CrtcRun(d2, ws[2..]) == CrtcRun(d3, ws[3..]);
    assert CrtcRun(d3, ws[3..]) == d4;
    ByteSplitRoundTrip(Pos(x, y));
  }

  /** A character can be put: a newline always, anything else only while
      the cursor is on the screen. */
  predicate CanPut(s: Screen, c: char)
  {
    c == '\n' || s.y < HEIGHT
  }

  /** `put_char`.  A newline moves to the start of the next row and writes
      no cell; any other character fills the cell under the cursor, and the
      cursor advances one cell in reading order (wrapping at column 80).
      Either way the hardware cursor is then moved to the new position. */
  function PutCharSpec(s: Screen, c: char): (r: Screen)
    requires WellFormed(s) && CanPut(s, c)
    ensures WellFormed(r) && r.attr == s.attr
    ensures c == '\n' ==> r.cells == s.cells && r.x == 0 && r.y == s.y + 1
    ensures c != '\n' ==>
      && Pos(r.x, r.y) == Pos(s.x, s.y) + 1
      && Pos(s.x, s.y) < CELLS
      && r.cells == s.cells[Pos(s.x, s.y) := MakeEntry(s.attr, c)]
    ensures r.ports == s.ports + CursorWrites(r.x, r.y)
  {
    if c == '\n' then
      s.(x := 0, y := s.y + 1, ports := s.ports + CursorWrites(0, s.y + 1))
    else
      var i := Pos(s.x, s.y);
      var cells := s.cells[i := MakeEntry(s.attr, c)];
      if s.x + 1 >= WIDTH then
        s.(cells := cells, x := 0, y := s.y + 1, ports := s.ports + CursorWrites(0, s.y + 1))
      else
        s.(cells := cells, x := s.x + 1, ports := s.ports + CursorWrites(s.x + 1, s.y))
  }

  /** `print`: the characters put one after the other; `None` when one of
      them would be written below the last row. */
  function PrintSpec(s: Screen, str: string): (r: Option<Screen>)
    requires WellFormed(s)
    ensures r.Some? ==> WellFormed(r.value) && r.value.attr == s.attr
    decreases |str|
  {
    if str == [] then Some(s)
    else
      match PrintSpec(s, str[..|str| - 1])
      case None => None
      case Some(m) =>
        if CanPut(m, str[|str| - 1]) then Some(PutCharSpec(m, str[|str| - 1])) else None
  }

  /** Printing two strings one after the other is printing their
      concatenation. */
  lemma {:induction false} PrintAppend(s: Screen, a: string, b: string)
    requires WellFormed(s)
    ensures PrintSpec(s, a + b) ==
      match PrintSpec(s, a)
      case None => None
      case Some(m) => PrintSpec(m, b)
    decreases |b|
  {
    if b == [] {
      assert a + b == a;
    } else {
      var b' := b[..|b| - 1];
      PrintAppend(s, a, b');
      assert (a + b)[..|a + b| - 1] == a + b';
      assert (a + b)[|a + b| - 1] == b[|b| - 1];
    }
  }

  /** A string that prints in bounds has every prefix printing in bounds. */
  lemma {:induction false} PrintPrefix(s: Screen, str: string, i: nat)
    requires WellFormed(s) && i <= |str|
    requires PrintSpec(s, str).Some?
    ensures PrintSpec(s, str[..i]).Some?
    decreases |str|
  {
    if i < |str| {
      var str' := str[..|str| - 1];
      PrintPrefix(s, str', i);
      assert str'[..i] == str[..i];
    } else {
      assert str[..i] == str;
    }
  }

  predicate NoNewline(str: string)
  {
    forall k :: 0 <= k < |str| ==> str[k] != '\n'
  }

  /** Text without newlines that fits below the cursor prints in bounds,
      and the cursor ends just after it. */
  lemma {:induction false} PrintPlainCursor(s: Screen, str: string)
    requires WellFormed(s) && NoNewline(str)
    requires Pos(s.x, s.y) + |str| <= CELLS
    ensures PrintSpec(s, str).Some?
    ensures Pos(PrintSpec(s, str).value.x, PrintSpec(s, str).value.y) == Pos(s.x, s.y) + |str|
    decreases |str|
  {
    if str != [] {
      var n := |str| - 1;
      var str', c := str[..n], str[n];
      assert NoNewline(str') && c != '\n';
      PrintPlainCursor(s, str');
      var m := PrintSpec(s, str').value;
      assert m.y < HEIGHT by {
        assert Pos(m.x, m.y) < CELLS;
      }
      assert PrintSpec(s, str) == Some(PutCharSpec(m, c));
    }
  }

  /** The cells `cells` with the characters of `str` written, in the
      attribute `attr`, from cell `p` on. */
  function Painted(cells: seq<bv16>, p: nat, attr: bv8, str: string): (r: seq<bv16>)
    requires p + |str| <= |cells|
    ensures |r| == |cells|
    decreases |str|
  {
    if str == [] then cells
    else Painted(cells, p, attr, str[..|str| - 1])[p + |str| - 1 := MakeEntry(attr, str[|str| - 1])]
  }

  /** Painting changes exactly the cells `p .. p + |str|`, the `k`-th of
      them to the `k`-th character. */
  lemma {:induction false} PaintedShows(cells: seq<bv16>, p: nat, attr: bv8, str: string)
    requires p + |str| <= |cells|
    ensures forall k :: 0 <= k < |str| ==> Painted(cells, p, attr, str)[p + k] == MakeEntry(attr, str[k])
    ensures forall i :: 0 <= i < |cells| && !(p <= i < p + |str|) ==> Painted(cells, p, attr, str)[i] == cells[i]
    decreases |str|
  {
    if str != [] {
      var n := |str| - 1;
      var str' := str[..n];
      PaintedShows(cells, p, attr, str');
      var m := Painted(cells, p, attr, str');
      var r := Painted(cells, p, attr, str);
      assert r == m[p + n := MakeEntry(attr, str[n])];
      forall k | 0 <= k < |str| ensures r[p + k] == MakeEntry(attr, str[k]) {
        if k < n {
          assert r[p + k] == m[p + k];
          assert str[k] == str'[k];
        }
      }
    }
  }

  /** Printing such text paints it from the cursor on. */
  lemma {:induction false} PrintPaints(s: Screen, str: string)
    requires WellFormed(s) && NoNewline(str)
    requires Pos(s.x, s.y) + |str| <= CELLS
    ensures PrintSpec(s, str).Some?
    ensures PrintSpec(s, str).value.cells == Painted(s.cells, Pos(s.x, s.y), s.attr, str)
    decreases |str|
  {
    PrintPlainCursor(s, str);
    if str != [] {
      var n := |str| - 1;
      var str', c := str[..n], str[n];
      assert NoNewline(str') && c != '\n';
      PrintPaints(s, str');
      PrintPlainCursor(s, str');
      var m := PrintSpec(s, str').value;
      assert m.y < HEIGHT by {
        assert Pos(m.x, m.y) < CELLS;
      }
      assert PrintSpec(s, str) == Some(PutCharSpec(m, c));
    }
  }

  /** Such text lands in the cells that follow the cursor, one character
      per cell in order, and every other cell keeps its contents. */
  lemma PrintPlainText(s: Screen, str: string)
    requires WellFormed(s) && NoNewline(str)
    requires Pos(s.x, s.y) + |str| <= CELLS
    ensures PrintSpec(s, str).Some?
    ensures var r := PrintSpec(s, str).value;
      && (forall k :: 0 <= k < |str| ==> r.cells[Pos(s.x, s.y) + k] == MakeEntry(s.attr, str[k]))
      && (forall i :: 0 <= i < CELLS && !(Pos(s.x, s.y) <= i < Pos(s.x, s.y) + |str|) ==> r.cells[i] == s.cells[i])
  {
    PrintPaints(s, str);
    PaintedShows(s.cells, Pos(s.x, s.y), s.attr, str);
  }

  /** `clear`: every cell becomes a space in the current attribute and the
      software cursor returns to the top left; the hardware cursor is not
      moved (no port is written). */
  function ClearSpec(s: Screen): (r: Screen)
    ensures WellFormed(r) && r.x == 0 && r.y == 0
    ensures r.attr == s.attr && r.ports == s.ports
  {
    s.(cells := seq(CELLS, _ => MakeEntry(s.attr, ' ')), x := 0, y := 0)
  }

  /** After `clear` each cell shows a space (0x20) in the current
      attribute. */
  lemma ClearShowsBlanks(s: Screen, i: nat)
    requires i < CELLS
    ensures ClearSpec(s).cells[i] >> 8 == s.attr as bv16
    ensures ClearSpec(s).cells[i] & 0xFF == 0x20
  {
  }

  /** Clearing and then printing up to 2000 characters without a newline
      shows exactly that text from the top left, blanks after it. */
  lemma ClearThenPrint(s: Screen, str: string)
    requires NoNewline(str) && |str| <= CELLS
    ensures PrintSpec(ClearSpec(s), str).Some?
    ensures var r := PrintSpec(ClearSpec(s), str).value;
      && (forall k :: 0 <= k < |str| ==> r.cells[k] == MakeEntry(s.attr, str[k]))
      && (forall i :: |str| <= i < CELLS ==> r.cells[i] == MakeEntry(s.attr, ' '))
      && Pos(r.x, r.y) == |str|
  {
    PrintPlainText(ClearSpec(s), str);
    PrintPlainCursor(ClearSpec(s), str);
  }

  /** The buffer at 0xB8000 and the statics `CURSOR` and `VGA_COLOR`. */
  class VgaText {
    const buffer: array<bv16>
    var x: nat
    var y: nat
    var color: bv8
    var ports: seq<PortWrite>

    function State(): Screen
      reads this, buffer
    {
      Screen(buffer[..], x, y, color, ports)
    }

    predicate Valid()
      reads this
    {
      buffer.Length == CELLS && x < WIDTH
    }

    /** The state at boot: whatever the buffer holds, the cursor at the top
        left, white on black (0x0F), no port written. */
    constructor (initial: seq<bv16>)
      requires |initial| == CELLS
      ensures Valid() && fresh(buffer)
      ensures State() == Screen(initial, 0, 0, 0x0F, [])
    {
      buffer := new bv16[CELLS](i => if 0 <= i < |initial| then initial[i] else 0);
      x, y := 0, 0;
      color := 0x0F;
      ports := [];
      new;
      assert buffer[..] == initial;
    }

    method UpdateCursor()
      modifies this
      ensures State() == old(State()).(ports := old(ports) + CursorWrites(x, y))
    {
      var pos := y * WIDTH + x;
      ports := ports + [PortWrite(CRTC_INDEX, CURSOR_LOW)];
      ports := ports + [PortWrite(CRTC_DATA, pos % 256)];
      ports := ports + [PortWrite(CRTC_INDEX, CURSOR_HIGH)];
      ports := ports + [PortWrite(CRTC_DATA, (pos / 256) % 256)];
    }

    method PutChar(c: char)
      requires Valid() && CanPut(State(), c)
      modifies this, buffer
      ensures Valid()
      ensures State() == PutCharSpec(old(State()), c)
    {
      if c == '\n' {
        y := y + 1;
        x := 0;
        UpdateCursor();
        return;
      }
      var index := y * WIDTH + x;
      buffer[index] := MakeEntry(color, c);
      x := x + 1;
      if x >= WIDTH {
        x := 0;
        y := y + 1;
      }
      UpdateCursor();
    }

    method Print(str: string)
      requires Valid() && PrintSpec(State(), str).Some?
      modifies this, buffer
      ensures Valid()
      ensures State() == PrintSpec(old(State()), str).value
    {
      for i := 0 to |str|
        invariant Valid()
        invariant PrintSpec(old(State()), str[..i]) == Some(State())
      {
        PrintPrefix(old(State()), str, i + 1);
        assert str[..i + 1][..i] == str[..i];
        PutChar(str[i]);
      }
      assert str[..|str|] == str;
    }

    method PrintColor(fg: Color, bg: Color)
      modifies this
      ensures State() == old(State()).(attr := Attr(fg, bg))
    {
      color := (ColorCode(bg) << 4) | ColorCode(fg);
    }

    method Clear()
      requires Valid()
      modifies this, buffer
      ensures Valid()
      ensures State() == ClearSpec(old(State()))
    {
      for i := 0 to CELLS
        invariant x == old(x) && y == old(y) && color == old(color) && ports == old(ports)
        invariant forall j :: 0 <= j < i ==> buffer[j] == MakeEntry(color, ' ')
      {
        buffer[i] := MakeEntry(color, ' ');
      }
      x := 0;
      y := 0;
      var blank := MakeEntry(color, ' ');
      assert buffer[..] == seq(CELLS, _ => blank);
    }
  }
}
