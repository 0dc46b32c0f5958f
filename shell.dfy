/** The shell's helpers: the CPU brand trimming, command parsing, the
    statistics lines, and the two pieces of decorated output, the fetch
    table (star art beside the statistics) and the header.

    Output is recorded as a sequence of `Out` events: a `printcolor!` call
    is `Colored(fg, bg, text)`, a `print!`/`println!` is `Plain(text)`, and
    `vgaclear!` is `ClearScreen`. */
module Shell {
  import opened Base
  import Fmt
  import Allocator
  import Timer
  import opened Vga

  datatype Command = Fetch | Clear | Unknown

  datatype Out = Colored(fg: Color, bg: Color, text: string) | Plain(text: string) | ClearScreen

  /** The star drawn by `fetch`. */
  const STAR_ASCII: seq<string> := [
    "  .       .",
    "       .  |  .",
    "        \\ | /    +",
    "*        \\|/",
    "    --==> * <==--   '",
    "   +     /|\\   .",
    "        / | \\",
    ".      '  |  '       *",
    "          |",
    "    .     '    ."
  ]

  /** The commands the header advertises, in order. */
  const COMMANDS: seq<string> := ["FETCH", "CLEAR"]

  // ---------------------------------------------------------------------
  // Searching and trimming
  // ---------------------------------------------------------------------

  predicate OccursAt(s: string, pat: string, i: nat)
  {
    i + |pat| <= |s| && s[i..i + |pat|] == pat
  }

  /** `str::find`: the first position at or after `from` where `pat`
      occurs. */
  function FindFrom(s: string, pat: string, from: nat): (r: Option<nat>)
    ensures r.Some? ==> from <= r.value && OccursAt(s, pat, r.value)
    ensures r.Some? ==> forall j :: from <= j < r.value ==> !OccursAt(s, pat, j)
    ensures r.None? ==> forall j :: from <= j ==> !OccursAt(s, pat, j)
    decreases |s| - from
  {
    if from + |pat| > |s| then None
    else if OccursAt(s, pat, from) then Some(from)
    else FindFrom(s, pat, from + 1)
  }

  function Find(s: string, pat: string): Option<nat>
  {
    FindFrom(s, pat, 0)
  }

  /** `trim_after_ghz`: cut the brand string just after the first "GHz";
      a string without one is returned whole. */
  function TrimAfterGhz(s: string): (r: string)
    ensures |r| <= |s| && r == s[..|r|]
    ensures Find(s, "GHz").None? ==> r == s
    ensures Find(s, "GHz").Some? ==>
      && |r| == Find(s, "GHz").value + 3
      && r[|r| - 3..] == "GHz"
      && forall j :: 0 <= j < |r| - 3 ==> !OccursAt(r, "GHz", j)
  {
    match Find(s, "GHz")
    case Some(pos) =>
      var r := s[..pos + 3];
      assert forall j :: 0 <= j < |r| - 3 ==> !OccursAt(r, "GHz", j) by {
        forall j: nat | j < |r| - 3 ensures OccursAt(r, "GHz", j) ==> OccursAt(s, "GHz", j) {
          if j + 3 <= |r| {
            assert r[j..j + 3] == s[j..j + 3];
          }
        }
      }
      r
    case None => s
  }

  /** Trimming twice is trimming once: the result's only "GHz" is its
      tail. */
  lemma TrimAfterGhzIdempotent(s: string)
    ensures TrimAfterGhz(TrimAfterGhz(s)) == TrimAfterGhz(s)
  {
    var r := TrimAfterGhz(s);
    if Find(s, "GHz").Some? {
      assert OccursAt(r, "GHz", |r| - 3);
      assert Find(r, "GHz") == Some(|r| - 3);
    }
  }

  /** `char::is_whitespace`: the Unicode White_Space property. */
  predicate IsWhitespace(c: char)
  {
    || '\U{0009}' <= c <= '\U{000D}'
    || c == ' ' || c == '\U{0085}' || c == '\U{00A0}' || c == '\U{1680}'
    || '\U{2000}' <= c <= '\U{200A}'
    || c == '\U{2028}' || c == '\U{2029}' || c == '\U{202F}' || c == '\U{205F}' || c == '\U{3000}'
  }

  predicate AllWhitespace(s: string)
  {
    forall i :: 0 <= i < |s| ==> IsWhitespace(s[i])
  }

  /** Neither end is whitespace. */
  predicate Trimmed(s: string)
  {
    s == [] || (!IsWhitespace(s[0]) && !IsWhitespace(s[|s| - 1]))
  }

  function TrimStart(s: string): (r: string)
    ensures |r| <= |s| && r == s[|s| - |r|..]
    ensures AllWhitespace(s[..|s| - |r|])
    ensures r == [] || !IsWhitespace(r[0])
  {
    if s != [] && IsWhitespace(s[0]) then
      var tail := s[1..];
      var r := TrimStart(tail);
      assert s[..|s| - |r|] == [s[0]] + tail[..|tail| - |r|];
      r
    else s
  }

  function TrimEnd(s: string): (r: string)
    ensures |r| <= |s| && r == s[..|r|]
    ensures AllWhitespace(s[|r|..])
    ensures r == [] || !IsWhitespace(r[|r| - 1])
  {
    if s != [] && IsWhitespace(s[|s| - 1]) then
      var r := TrimEnd(s[..|s| - 1]);
      assert s[|r|..] == s[..|s| - 1][|r|..] + [s[|s| - 1]];
      r
    else s
  }

  /** `str::trim`: the input with its leading and trailing whitespace
      removed; what is left is a contiguous piece with non-whitespace
      ends, and everything cut off was whitespace. */
  function Trim(s: string): (r: string)
    ensures Trimmed(r)
    ensures exists a: nat, b: nat {:trigger s[a..b]} ::
      a <= b <= |s| && r == s[a..b] && AllWhitespace(s[..a]) && AllWhitespace(s[b..])
  {
    var e := TrimEnd(s);
    var r := TrimStart(e);
    var a := |e| - |r|;
    assert r == s[a..|e|];
    assert s[..a] == e[..a];
    r
  }

  lemma {:induction false} TrimStartOfPadded(w: string, t: string)
    requires AllWhitespace(w) && (t == [] || !IsWhitespace(t[0]))
    ensures TrimStart(w + t) == t
    decreases |w|
  {
    if w == [] {
      assert w + t == t;
    } else {
      assert (w + t)[1..] == w[1..] + t;
      TrimStartOfPadded(w[1..], t);
    }
  }

  lemma {:induction false} TrimEndOfPadded(t: string, w: string)
    requires AllWhitespace(w) && (t == [] || !IsWhitespace(t[|t| - 1]))
    ensures TrimEnd(t + w) == t
    decreases |w|
  {
    if w == [] {
      assert t + w == t;
    } else {
      assert (t + w)[..|t + w| - 1] == t + w[..|w| - 1];
      TrimEndOfPadded(t, w[..|w| - 1]);
    }
  }

  /** Whitespace around a text is exactly what `trim` removes. */
  lemma TrimOfPadded(w1: string, t: string, w2: string)
    requires AllWhitespace(w1) && AllWhitespace(w2) && Trimmed(t) && t != []
    ensures Trim(w1 + t + w2) == t
  {
    TrimEndOfPadded(w1 + t, w2);
    TrimStartOfPadded(w1, t);
  }

  /** A string with no whitespace at its ends is left as it is, so
      trimming is idempotent. */
  lemma TrimIdempotent(s: string)
    ensures Trim(Trim(s)) == Trim(s)
  {
    var t := Trim(s);
    assert TrimEnd(t) == t;
    assert TrimStart(t) == t;
  }

  // ---------------------------------------------------------------------
  // Commands
  // ---------------------------------------------------------------------

  function AsciiLower(c: char): char
  {
    if 'A' <= c <= 'Z' then (c as int + 32) as char else c
  }

  /** `eq_ignore_ascii_case`. */
  predicate EqIgnoreAsciiCase(a: string, b: string)
  {
    |a| == |b| && forall i :: 0 <= i < |a| ==> AsciiLower(a[i]) == AsciiLower(b[i])
  }

  /** `parse_command`. */
  function ParseCommand(input: string): (r: Command)
    ensures r != Unknown ==> |input| == 5
    ensures r == Clear ==> !EqIgnoreAsciiCase(input, "fetch")
  {
    if EqIgnoreAsciiCase(input, "fetch") then Fetch
    else if EqIgnoreAsciiCase(input, "clear") then Clear
    else Unknown
  }

  /** Parsing depends on the input only up to ASCII case: two inputs that
      agree ignoring case parse to the same command. */
  lemma ParseIgnoresCase(a: string, b: string)
    requires EqIgnoreAsciiCase(a, b)
    ensures ParseCommand(a) == ParseCommand(b)
  {
  }

  /** The five-letter words "fetch" and "clear" are recognised in any
      case. */
  lemma ParseCommandCases()
    ensures ParseCommand("fetch") == Fetch && ParseCommand("FeTcH") == Fetch
    ensures ParseCommand("clear") == Clear && ParseCommand("CLEAR") == Clear
  {
    assert ParseCommand("fetch") == Fetch by {
      assert EqIgnoreAsciiCase("fetch", "fetch");
    }
    assert ParseCommand("FeTcH") == Fetch by {
      assert AsciiLower('F') == 'f' && AsciiLower('T') == 't' && AsciiLower('H') == 'h';
      assert EqIgnoreAsciiCase("FeTcH", "fetch");
    }
    assert ParseCommand("clear") == Clear by {
      assert AsciiLower("clear"[0]) != AsciiLower("fetch"[0]);
      assert EqIgnoreAsciiCase("clear", "clear");
    }
    assert ParseCommand("CLEAR") == Clear by {
      assert AsciiLower('C') == 'c' && AsciiLower('L') == 'l' && AsciiLower('E') == 'e';
      assert AsciiLower('A') == 'a' && AsciiLower('R') == 'r';
      assert AsciiLower("CLEAR"[0]) != AsciiLower("fetch"[0]);
      assert EqIgnoreAsciiCase("CLEAR", "clear");
    }
  }

  /** Nothing but those words is: any input longer (an untrimmed space,
      say) or shorter than five characters is unknown, and a five-letter
      input is known only when it is one of the two words up to case. */
  lemma ParseCommandRejects(s: string)
    ensures |s| != 5 ==> ParseCommand(s) == Unknown
    ensures ParseCommand(s) != Unknown <==>
              EqIgnoreAsciiCase(s, "fetch") || EqIgnoreAsciiCase(s, "clear")
  {
  }

  /** Every command the header advertises is one the parser accepts, in
      the same order as the `Command` variants. */
  lemma AdvertisedCommandsParse()
    ensures |COMMANDS| == 2
    ensures ParseCommand(COMMANDS[0]) == Fetch && ParseCommand(COMMANDS[1]) == Clear
    ensures forall i :: 0 <= i < |COMMANDS| ==> ParseCommand(COMMANDS[i]) != Unknown
  {
    assert ParseCommand(COMMANDS[0]) == Fetch by {
      assert COMMANDS[0] == "FETCH";
      assert AsciiLower('F') == 'f' && AsciiLower('E') == 'e' && AsciiLower('T') == 't';
      assert AsciiLower('C') == 'c' && AsciiLower('H') == 'h';
      assert EqIgnoreAsciiCase("FETCH", "fetch");
    }
    assert ParseCommand(COMMANDS[1]) == Clear by {
      assert COMMANDS[1] == "CLEAR";
      assert AsciiLower('C') == 'c' && AsciiLower('L') == 'l' && AsciiLower('E') == 'e';
      assert AsciiLower('A') == 'a' && AsciiLower('R') == 'r';
      assert AsciiLower("CLEAR"[0]) != AsciiLower("fetch"[0]);
      assert EqIgnoreAsciiCase("CLEAR", "clear");
    }
  }

  /** The shell parses the trimmed line. */
  function ShellCommand(line: string): Command
  {
    ParseCommand(Trim(line))
  }

  /** So surrounding whitespace never changes the command. */
  lemma ShellCommandIgnoresPadding(w1: string, t: string, w2: string)
    requires AllWhitespace(w1) && AllWhitespace(w2) && Trimmed(t) && t != []
    ensures ShellCommand(w1 + t + w2) == ParseCommand(t)
  {
    TrimOfPadded(w1, t, w2);
  }

  // ---------------------------------------------------------------------
  // Statistics
  // ---------------------------------------------------------------------

  const OS_LINE: string := "OS: Kosmos v0.0.1"

  /** The three fields of the uptime line: whole hours, the minutes within
      the hour, and, as written, the TOTAL seconds (not `seconds % 60`). */
  function UptimeFields(secs: nat): (f: (nat, nat, nat))
    ensures f.1 < 60
    ensures f.0 * 3600 + f.1 * 60 <= secs < f.0 * 3600 + f.1 * 60 + 60
    ensures f.2 == secs
  {
    (secs / 3600, (secs % 3600) / 60, secs)
  }

  /** `format!("Uptime: {:02}h {:02}m {:02}s", hours, minutes, seconds)`. */
  function UptimeLine(secs: nat): (r: string)
    ensures |r| >= 17 && r[..8] == "Uptime: " && r[|r| - 1] == 's'
  {
    var f := UptimeFields(secs);
    "Uptime: " + Fmt.ZeroPad2(f.0) + "h " + Fmt.ZeroPad2(f.1) + "m " + Fmt.ZeroPad2(f.2) + "s"
  }

  /** Two minutes and five seconds shows the total 125 in the seconds
      field, not 05. */
  lemma UptimeShowsTotalSeconds()
    ensures UptimeLine(125) == "Uptime: 00h 02m 125s"
  {
    assert UptimeLine(125) == "Uptime: " + "00" + "h " + "02" + "m " + "125" + "s" by {
      assert UptimeFields(125) == (0, 2, 125);
      assert Fmt.ZeroPad2(125) == "125" by {
        Fmt.DecimalUpTo4(125);
      }
      assert Fmt.ZeroPad2(0) == "00" && Fmt.ZeroPad2(2) == "02";
    }
    assert "Uptime: " + "00" + "h " + "02" + "m " + "125" + "s" == "Uptime: 00h 02m 125s";
  }

  /** Under a minute, hours and minutes are zero and the seconds are the
      uptime itself. */
  lemma UptimeUnderAMinute()
    ensures UptimeLine(59) == "Uptime: 00h 00m 59s"
  {
    assert UptimeLine(59) == "Uptime: " + "00" + "h " + "00" + "m " + "59" + "s" by {
      assert UptimeFields(59) == (0, 0, 59);
      assert Fmt.ZeroPad2(59) == "59" by {
        Fmt.DecimalUpTo4(59);
      }
      assert Fmt.ZeroPad2(0) == "00";
    }
    assert "Uptime: " + "00" + "h " + "00" + "m " + "59" + "s" == "Uptime: 00h 00m 59s";
  }

  /** The hour and minute fields read back as the floor of the uptime in
      minutes. */
  lemma UptimeLineReadsBack(secs: nat)
    ensures var f := UptimeFields(secs);
      && Fmt.ParseDecimal(Fmt.ZeroPad2(f.0)) * 60 + Fmt.ParseDecimal(Fmt.ZeroPad2(f.1)) == secs / 60
      && Fmt.ParseDecimal(Fmt.ZeroPad2(f.2)) == secs
  {
    var f := UptimeFields(secs);
    Fmt.ZeroPad2RoundTrip(f.0);
    Fmt.ZeroPad2RoundTrip(f.1);
    Fmt.ZeroPad2RoundTrip(f.2);
  }

  /** `cpuinfo`: the brand (or "Unknown CPU" when the CPU reports none),
      cut after its "GHz". */
  function CpuLine(brand: Option<string>): (r: string)
    ensures |r| >= 5 && r[..5] == "CPU: "
    ensures brand.Some? ==> |r| <= 5 + |brand.value| && r[5..] == brand.value[..|r| - 5]
  {
    "CPU: " + TrimAfterGhz(if brand.Some? then brand.value else "Unknown CPU")
  }

  /** Without a brand string the line says so. */
  lemma CpuLineWithoutBrand()
    ensures CpuLine(None) == "CPU: Unknown CPU"
  {
    var s := "Unknown CPU";
    assert forall i :: 0 <= i < |s| ==> s[i] != 'G';
    FindAbsentChar(s, "GHz", 0);
    assert TrimAfterGhz(s) == s;
    assert CpuLine(None) == "CPU: " + s;
  }

  /** A pattern whose first character does not occur is not found. */
  lemma {:induction false} FindAbsentChar(s: string, pat: string, from: nat)
    requires pat != [] && forall i :: from <= i < |s| ==> s[i] != pat[0]
    ensures FindFrom(s, pat, from).None?
    decreases |s| - from
  {
    if from + |pat| <= |s| {
      assert s[from..from + |pat|][0] == s[from];
      FindAbsentChar(s, pat, from + 1);
    }
  }

  /** `get_stats`, given the tick counter, the brand string and the heap's
      used bytes: four lines, in the order OS, uptime, CPU, heap. */
  function GetStats(ticks: u64, brand: Option<string>, heapUsed: nat): (r: seq<string>)
    ensures |r| == 4
    ensures r[0] == OS_LINE
    ensures |r[1]| >= 8 && r[1][..8] == "Uptime: "
    ensures |r[2]| >= 5 && r[2][..5] == "CPU: "
    ensures |r[3]| >= 6 && r[3][..6] == "Heap: "
  {
    var uptime := UptimeLine(Timer.UptimeSeconds(ticks));
    var heap := Allocator.HeapStat(heapUsed);
    assert heap[..6] == "Heap: ";
    [OS_LINE, uptime, CpuLine(brand), heap]
  }

  // ---------------------------------------------------------------------
  // The fetch table
  // ---------------------------------------------------------------------

  const ART_WIDTH: nat := 22
  /** The column the statistics start at: `art_width + 3`. */
  const STAT_COLUMN: nat := ART_WIDTH + 3

  /** The colour an art character is drawn in (on black). */
  function ArtColor(c: char): (r: Color)
    ensures r == White || r == Yellow || r == LightRed || r == Black
  {
    match c
    case '*' => White case '>' => White case '<' => White
    case '\\' => White case '/' => White case '=' => White
    case ':' => Yellow case '!' => Yellow case '|' => Yellow
    case '-' => Yellow case '\'' => Yellow case '+' => Yellow
    case '.' => LightRed
    case _ => Black
  }

  /** The four colour classes: the star's core strokes are white, its
      highlights and rays yellow, the twinkles light red, and everything
      else (spaces above all) black, invisible on the black background. */
  lemma ArtColorClasses(c: char)
    ensures ArtColor(c) == White <==> c in "*><\\/="
    ensures ArtColor(c) == Yellow <==> c in ":!|-'+"
    ensures ArtColor(c) == LightRed <==> c == '.'
    ensures ArtColor(c) == Black <==> c !in "*><\\/=:!|-'+."
  {
  }

  function Max(a: nat, b: nat): nat
  {
    if a >= b then a else b
  }

  /** `xs.get(i).unwrap_or("")`. */
  function EntryOr(xs: seq<string>, i: nat): string
  {
    if i < |xs| then xs[i] else ""
  }

  function ArtCells(art: string): seq<Out>
  {
    seq(|art|, k requires 0 <= k < |art| => Colored(ArtColor(art[k]), Black, [art[k]]))
  }

  /** Spaces printed black on black to reach the statistics column;
      none once the art is that wide already. */
  function PadCount(width: nat): nat
  {
    if width < STAT_COLUMN then STAT_COLUMN - width else 0
  }

  function Padding(n: nat): seq<Out>
  {
    seq(n, _ => Colored(Black, Black, " "))
  }

  /** One line of the table. */
  function FetchRow(art: string, stat: string): seq<Out>
  {
    ArtCells(art) + Padding(PadCount(|art|)) + [Plain(stat + "\n")]
  }

  /** The first `n` lines of the table. */
  function FetchRows(art: seq<string>, stats: seq<string>, n: nat): seq<Out>
  {
    if n == 0 then [] else FetchRows(art, stats, n - 1) + FetchRow(EntryOr(art, n - 1), EntryOr(stats, n - 1))
  }

  /** One pass of `print_fetch`'s outer loop: the art characters with
      their colours, the padding up to the statistics column, then the
      statistic on the rest of the line. */
  method PrintFetchRow(art: string, stat: string) returns (row: seq<Out>)
    ensures row == FetchRow(art, stat)
  {
    row := [];
    var col := 0;
    for k := 0 to |art|
      invariant col == k
      invariant row == ArtCells(art[..k])
    {
      assert ArtCells(art[..k + 1]) == ArtCells(art[..k]) + [Colored(ArtColor(art[k]), Black, [art[k]])];
      row := row + [Colored(ArtColor(art[k]), Black, [art[k]])];
      col := col + 1;
    }
    assert art[..|art|] == art;
    while col < STAT_COLUMN
      invariant |art| <= col && (col <= STAT_COLUMN || col == |art|)
      invariant row == ArtCells(art) + Padding(col - |art|)
      decreases STAT_COLUMN - col
    {
      assert Padding(col + 1 - |art|) == Padding(col - |art|) + [Colored(Black, Black, " ")];
      row := row + [Colored(Black, Black, " ")];
      col := col + 1;
    }
    assert col - |art| == PadCount(|art|);
    row := row + [Plain(stat + "\n")];
  }

  /** `print_fetch`: as many lines as the longer of the art and the
      statistics, a missing entry on either side standing for "". */
  method PrintFetch(stats: seq<string>) returns (out: seq<Out>)
    ensures out == FetchRows(STAR_ASCII, stats, Max(|STAR_ASCII|, |stats|))
  {
    var artLines := STAR_ASCII;
    var total := Max(|artLines|, |stats|);
    out := [];
    for i := 0 to total
      invariant out == FetchRows(artLines, stats, i)
    {
      var art := if i < |artLines| then artLines[i] else "";
      var stat := if i < |stats| then stats[i] else "";
      var row := PrintFetchRow(art, stat);
      out := out + row;
    }
  }

  function OutText(o: Out): string
  {
    match o
    case Colored(_, _, t) => t
    case Plain(t) => t
    case ClearScreen => ""
  }

  /** The characters an output carries, colours aside. */
  function TextOf(outs: seq<Out>): string
  {
    if outs == [] then [] else TextOf(outs[..|outs| - 1]) + OutText(outs[|outs| - 1])
  }

  lemma {:induction false} TextOfAppend(a: seq<Out>, b: seq<Out>)
    ensures TextOf(a + b) == TextOf(a) + TextOf(b)
    decreases |b|
  {
    if b == [] {
      assert a + b == a;
    } else {
      var b' := b[..|b| - 1];
      var last := OutText(b[|b| - 1]);
      assert TextOf(a + b) == TextOf(a + b') + last by {
        var ab := a + b;
        assert ab[..|ab| - 1] == a + b' && ab[|ab| - 1] == b[|b| - 1];
      }
      assert TextOf(a + b') == TextOf(a) + TextOf(b') by {
        TextOfAppend(a, b');
      }
      assert TextOf(b) == TextOf(b') + last;
      StringAssoc(TextOf(a), TextOf(b'), last);
    }
  }

  /** Associativity of concatenation, stated on its own so that the proof
      above need not unfold `TextOf` again; it models nothing. */
  lemma StringAssoc(x: string, y: string, z: string)
    ensures (x + y) + z == x + (y + z)
  {
  }

  function Spaces(n: nat): string
  {
    seq(n, _ => ' ')
  }

  /** The art line padded with spaces up to the statistics column. */
  function PadRight(art: string): (r: string)
    ensures |r| == Max(|art|, STAT_COLUMN)
    ensures r[..|art|] == art
  {
    art + Spaces(PadCount(|art|))
  }

  lemma {:induction false} TextOfCells(art: string)
    ensures TextOf(ArtCells(art)) == art
    decreases |art|
  {
    if art != [] {
      var a' := art[..|art| - 1];
      TextOfCells(a');
      assert ArtCells(art)[..|art| - 1] == ArtCells(a');
    }
  }

  lemma {:induction false} TextOfPadding(n: nat)
    ensures TextOf(Padding(n)) == Spaces(n)
  {
    if n > 0 {
      TextOfPadding(n - 1);
      assert Padding(n)[..n - 1] == Padding(n - 1);
      assert Spaces(n) == Spaces(n - 1) + " ";
    }
  }

  /** Read without colours, a line of the table is the art padded to the
      statistics column, then the statistic and a newline. */
  lemma FetchRowText(art: string, stat: string)
    ensures TextOf(FetchRow(art, stat)) == PadRight(art) + stat + "\n"
  {
    var cells := ArtCells(art);
    var pad := Padding(PadCount(|art|));
    var line := [Plain(stat + "\n")];
    assert FetchRow(art, stat) == (cells + pad) + line;
    TextOfAppend(cells, pad);
    TextOfAppend(cells + pad, line);
    TextOfCells(art);
    TextOfPadding(PadCount(|art|));
    assert TextOf(line) == stat + "\n" by {
      assert line[..0] == [];
    }
  }

  /** Every art character is drawn on black in its class colour, the
      padding is black on black, and the statistic closes the line. */
  lemma FetchRowColours(art: string, stat: string)
    ensures |FetchRow(art, stat)| == |art| + PadCount(|art|) + 1
    ensures forall k :: 0 <= k < |art| ==> FetchRow(art, stat)[k] == Colored(ArtColor(art[k]), Black, [art[k]])
    ensures forall k :: |art| <= k < |art| + PadCount(|art|) ==> FetchRow(art, stat)[k] == Colored(Black, Black, " ")
    ensures FetchRow(art, stat)[|art| + PadCount(|art|)] == Plain(stat + "\n")
  {
    var cells := ArtCells(art);
    var pad := Padding(PadCount(|art|));
    var row := FetchRow(art, stat);
    assert row == cells + pad + [Plain(stat + "\n")];
    forall k | |art| <= k < |art| + PadCount(|art|)
      ensures row[k] == Colored(Black, Black, " ")
    {
      assert row[k] == pad[k - |art|];
    }
  }

  /** The number of lines the table prints. */
  function Lines(outs: seq<Out>): nat
  {
    if outs == [] then 0 else Lines(outs[..|outs| - 1]) + (if outs[|outs| - 1].Plain? then 1 else 0)
  }

  lemma {:induction false} LinesAppend(a: seq<Out>, b: seq<Out>)
    ensures Lines(a + b) == Lines(a) + Lines(b)
    decreases |b|
  {
    if b == [] {
      assert a + b == a;
    } else {
      var b' := b[..|b| - 1];
      var last := if b[|b| - 1].Plain? then 1 else 0;
      assert Lines(a + b) == Lines(a + b') + last by {
        var ab := a + b;
        assert ab[..|ab| - 1] == a + b' && ab[|ab| - 1] == b[|b| - 1];
      }
      LinesAppend(a, b');
    }
  }

  lemma ColoredHaveNoLines(n: nat, art: string)
    ensures Lines(ArtCells(art) + Padding(n)) == 0
  {
    var xs := ArtCells(art) + Padding(n);
    ColoredPrefixNoLines(xs, |xs|);
    assert xs[..|xs|] == xs;
  }

  lemma {:induction false} ColoredPrefixNoLines(xs: seq<Out>, k: nat)
    requires k <= |xs| && forall i :: 0 <= i < |xs| ==> xs[i].Colored?
    ensures Lines(xs[..k]) == 0
  {
    if k > 0 {
      ColoredPrefixNoLines(xs, k - 1);
      assert xs[..k][..k - 1] == xs[..k - 1];
    }
  }

  /** Exactly `max(art lines, stats)` lines are printed. */
  lemma {:induction false} FetchLineCount(art: seq<string>, stats: seq<string>, n: nat)
    ensures Lines(FetchRows(art, stats, n)) == n
  {
    if n > 0 {
      var prev := FetchRows(art, stats, n - 1);
      var row := FetchRow(EntryOr(art, n - 1), EntryOr(stats, n - 1));
      assert FetchRows(art, stats, n) == prev + row;
      assert Lines(prev) == n - 1 by {
        FetchLineCount(art, stats, n - 1);
      }
      assert Lines(row) == 1 by {
        FetchRowLines(EntryOr(art, n - 1), EntryOr(stats, n - 1));
      }
      LinesAppend(prev, row);
    }
  }

  /** Each row of the table is one line. */
  lemma FetchRowLines(art: string, stat: string)
    ensures Lines(FetchRow(art, stat)) == 1
  {
    var rowStart := ArtCells(art) + Padding(PadCount(|art|));
    var last := [Plain(stat + "\n")];
    assert FetchRow(art, stat) == rowStart + last;
    LinesAppend(rowStart, last);
    ColoredHaveNoLines(PadCount(|art|), art);
    assert last[..0] == [];
  }

  /** No line of the star is wider than the art width, so every statistic
      starts at column 25. */
  lemma StarFitsArtWidth()
    ensures |STAR_ASCII| == 10
    ensures forall i :: 0 <= i < |STAR_ASCII| ==> |STAR_ASCII[i]| <= ART_WIDTH
    ensures forall i :: 0 <= i < |STAR_ASCII| ==> |PadRight(STAR_ASCII[i])| == STAT_COLUMN
  {
  }

  /** The kernel's four statistics sit beside the first four lines of the
      star, and the table has the star's ten lines. */
  lemma FetchOfStats(ticks: u64, brand: Option<string>, heapUsed: nat)
    ensures var stats := GetStats(ticks, brand, heapUsed);
      && Max(|STAR_ASCII|, |stats|) == 10
      && Lines(FetchRows(STAR_ASCII, stats, 10)) == 10
      && forall i :: 4 <= i < 10 ==> EntryOr(stats, i) == ""
  {
    FetchLineCount(STAR_ASCII, GetStats(ticks, brand, heapUsed), 10);
  }

  // ---------------------------------------------------------------------
  // The header and the command responses
  // ---------------------------------------------------------------------

  function CommandEntries(cs: seq<string>): seq<Out>
  {
    seq(|cs|, i requires 0 <= i < |cs| => Colored(Yellow, Black, cs[i] + " "))
  }

  function HeaderOutput(): seq<Out>
  {
    [Colored(White, Blue, "--- Kosmos ---\n\n"), Colored(White, Black, "COMMANDS: ")]
      + CommandEntries(COMMANDS) + [Plain("\n")]
  }

  /** `print_header`. */
  method PrintHeader() returns (out: seq<Out>)
    ensures out == HeaderOutput()
  {
    out := [Colored(White, Blue, "--- Kosmos ---\n\n")];
    out := out + [Colored(White, Black, "COMMANDS: ")];
    var start := out;
    for i := 0 to |COMMANDS|
      invariant out == start + CommandEntries(COMMANDS[..i])
    {
      assert CommandEntries(COMMANDS[..i + 1]) == CommandEntries(COMMANDS[..i]) + [Colored(Yellow, Black, COMMANDS[i] + " ")];
      out := out + [Colored(Yellow, Black, COMMANDS[i] + " ")];
    }
    assert COMMANDS[..|COMMANDS|] == COMMANDS;
    out := out + [Plain("\n")];
  }

  /** The header reads "--- Kosmos ---", a blank line, then the commands
      in `COMMANDS` order, each in yellow on black. */
  lemma HeaderText()
    ensures TextOf(HeaderOutput()) == "--- Kosmos ---\n\n" + "COMMANDS: " + "FETCH " + "CLEAR " + "\n"
    ensures HeaderOutput()[2] == Colored(Yellow, Black, "FETCH ")
    ensures HeaderOutput()[3] == Colored(Yellow, Black, "CLEAR ")
  {
    var t0, t1, t2, t3, t4 := "--- Kosmos ---\n\n", "COMMANDS: ", "FETCH ", "CLEAR ", "\n";
    var o0, o1, o2, o3, o4 := Colored(White, Blue, t0), Colored(White, Black, t1),
      Colored(Yellow, Black, t2), Colored(Yellow, Black, t3), Plain(t4);
    assert CommandEntries(COMMANDS) == [o2, o3] by {
      assert COMMANDS[0] + " " == t2 && COMMANDS[1] + " " == t3;
    }
    assert HeaderOutput() == [o0, o1, o2, o3, o4];
    TextOfFive(o0, o1, o2, o3, o4);
  }

  lemma TextOfFive(o0: Out, o1: Out, o2: Out, o3: Out, o4: Out)
    ensures TextOf([o0, o1, o2, o3, o4]) == OutText(o0) + OutText(o1) + OutText(o2) + OutText(o3) + OutText(o4)
  {
    var s1, s2, s3, s4, s5 := [o0], [o0, o1], [o0, o1, o2], [o0, o1, o2, o3], [o0, o1, o2, o3, o4];
    assert s1[..0] == [] && s2[..1] == s1 && s3[..2] == s2 && s4[..3] == s3 && s5[..4] == s4;
    assert TextOf(s1) == [] + OutText(o0) == OutText(o0);
    assert TextOf(s2) == TextOf(s1) + OutText(o1);
    assert TextOf(s3) == TextOf(s2) + OutText(o2);
    assert TextOf(s4) == TextOf(s3) + OutText(o3);
    assert TextOf(s5) == TextOf(s4) + OutText(o4);
  }

  /** What the shell prints for one entered line (after the prompt): the
      fetch table then a blank line, a cleared screen and the header, or
      the trimmed input flagged as unknown. */
  function Respond(line: string, stats: seq<string>): (r: seq<Out>)
    ensures r != [] && r[|r| - 1] == Plain("\n")
    ensures ShellCommand(line) == Clear ==> r[0] == ClearScreen
    ensures ShellCommand(line) == Unknown ==>
      |r| == 2 && r[0].Plain? && |r[0].text| >= |Trim(line)| && r[0].text[..|Trim(line)|] == Trim(line)
  {
    match ShellCommand(line)
    case Fetch => FetchReply(stats)
    case Clear => [ClearScreen] + HeaderOutput()
    case Unknown => UnknownReply(Trim(line))
  }

  function FetchReply(stats: seq<string>): seq<Out>
  {
    FetchRows(STAR_ASCII, stats, Max(|STAR_ASCII|, |stats|)) + [Plain("\n")]
  }

  /** `println!("{}: unknown command", input)` and a blank line. */
  function UnknownReply(input: string): seq<Out>
  {
    [Plain(input + ": unknown command\n"), Plain("\n")]
  }

  /** "clear" in any case and with any surrounding whitespace clears the
      screen and redraws the header. */
  lemma RespondClear(w1: string, w2: string, stats: seq<string>)
    requires AllWhitespace(w1) && AllWhitespace(w2)
    ensures Respond(w1 + "CLEAR" + w2, stats) == [ClearScreen] + HeaderOutput()
  {
    ShellCommandIgnoresPadding(w1, "CLEAR", w2);
    ParseCommandCases();
  }

  /** Any unrecognised line is echoed back without its surrounding
      whitespace, flagged as unknown and followed by a blank line. */
  lemma RespondUnknown(w1: string, t: string, w2: string, stats: seq<string>)
    requires AllWhitespace(w1) && AllWhitespace(w2) && Trimmed(t) && t != []
    requires ParseCommand(t) == Unknown
    ensures Respond(w1 + t + w2, stats) == UnknownReply(t)
  {
    TrimOfPadded(w1, t, w2);
  }

  /** For example "ls", typed with spaces around it. */
  lemma RespondUnknownExample(w1: string, w2: string, stats: seq<string>)
    requires AllWhitespace(w1) && AllWhitespace(w2)
    ensures Respond(w1 + "ls" + w2, stats) == UnknownReply("ls")
  {
    assert Trimmed("ls");
    ParseCommandRejects("ls");
    RespondUnknown(w1, "ls", w2, stats);
  }
}
