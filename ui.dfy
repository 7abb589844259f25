/**
 * The bar renderer of src/ui.rs. `push_bar` appends one line such as
 *
 *   " CPU    : [ <colour>████…<reset>░░░… ]  45%\n"
 *
 * to a caller-owned string: the label padded to 7 columns, a 40-cell bar
 * whose filled part is coloured by band, and the clamped percentage
 * right-aligned in 3 columns.
 */
module Ui {
  import opened Wrappers
  import opened Text

  const Reset: string := "\U{1B}[0m"
  const Cyan: string := "\U{1B}[36m"
  const Green: string := "\U{1B}[32m"
  const Yellow: string := "\U{1B}[33m"
  const Magenta: string := "\U{1B}[35m"
  const Blue: string := "\U{1B}[34m"
  const Red: string := "\U{1B}[31m"
  const Bold: string := "\U{1B}[1m"

  /** Number of cells in a bar. */
  const BarWidth: nat := 40
  /** Columns the label is left-aligned in. */
  const LabelWidth: nat := 7
  /** Columns the percentage is right-aligned in. */
  const PercentWidth: nat := 3

  const FullCell: char := '\U{2588}'
  const EmptyCell: char := '\U{2591}'

  /** The `String` the dashboard is built in; `push_bar` receives it by `&mut`. */
  class StringBuffer {
    var text: string

    constructor ()
      ensures text == []
    {
      text := [];
    }
  }

  /** The percentage the bar shows: unchanged up to 100, and exactly 100 above it. */
  function ClampPercent(percent: nat): (p: nat)
    ensures p <= 100 && p <= percent
    ensures percent <= 100 ==> p == percent
    ensures percent > 100 ==> p == 100
  {
    if percent > 100 then 100 else percent
  }

  /** The colour of the filled cells: green below 50, yellow below 80, red from 80. */
  function BandColor(p: nat): string {
    if p < 50 then Green else if p < 80 then Yellow else Red
  }

  /** `p * 40 / 100`: the filled cells, the share of the 40 cells rounded down. */
  function FilledCells(p: nat): (n: nat)
    requires p <= 100
    ensures n <= BarWidth
    ensures n * 100 <= p * 40 < (n + 1) * 100
  {
    p * 40 / 100
  }

  /** The text before the bar: a space, the padded label and `": [ "`. */
  function LabelField(name: string): string {
    " " + PadRight(name, LabelWidth) + ": [ "
  }

  /** The bar itself: colour, filled cells, reset, empty cells. */
  function BarCells(p: nat): string
    requires p <= 100
  {
    BandColor(p) + Repeat(FullCell, FilledCells(p)) + Reset + Repeat(EmptyCell, BarWidth - FilledCells(p))
  }

  /** The text after the bar: `" ] "`, the right-aligned percentage, `"%"` and the line feed. */
  function PercentField(p: nat): string {
    " ] " + PadLeft(NatToString(p), PercentWidth) + "%\n"
  }

  /** The line `push_bar` appends for label `name` and `percent`. */
  function BarLine(name: string, percent: nat): string {
    LabelField(name) + BarCells(ClampPercent(percent)) + PercentField(ClampPercent(percent))
  }

  /**
   * `push_bar`: appends the bar line to `buffer` and changes nothing else.
   * The default colour is accepted and ignored, as in the source.
   */
  method PushBar(buffer: StringBuffer, name: string, percent: nat, defaultColor: string)
    modifies buffer
    ensures buffer.text == old(buffer.text) + BarLine(name, percent)
  {
    var p := if percent > 100 then 100 else percent;
    var colorCode := if p < 50 then Green else if p < 80 then Yellow else Red;
    var filled := (p * 40) / 100;
    var empty := BarWidth - filled;
    var filledText := Repeat(FullCell, filled);
    var emptyText := Repeat(EmptyCell, empty);
    var labelText := " " + PadRight(name, LabelWidth) + ": [ ";
    var barText := colorCode + filledText + Reset + emptyText;
    var percentText := " ] " + PadLeft(NatToString(p), PercentWidth) + "%\n";
    assert p == ClampPercent(percent);
    assert filled == FilledCells(p);
    assert barText == BarCells(p);
    assert labelText + barText + percentText == BarLine(name, percent);
    buffer.text := buffer.text + (labelText + barText + percentText);
  }

  // ---------------------------------------------------------------- properties

  /** The three colour codes are different, so the band can be read off the colour. */
  lemma {:induction false} ColorsDistinct()
    ensures Green != Yellow && Yellow != Red && Green != Red
  {
    assert Green[3] == '2' && Yellow[3] == '3' && Red[3] == '1';
  }

  /** Each colour is chosen exactly on its band. */
  lemma ColorBands(p: nat)
    ensures BandColor(p) == Green <==> p < 50
    ensures BandColor(p) == Yellow <==> 50 <= p < 80
    ensures BandColor(p) == Red <==> 80 <= p
  {
    ColorsDistinct();
  }

  /** More percent never means fewer filled cells; 0% and 100% are the empty and the full bar. */
  lemma FilledMonotone(p: nat, q: nat)
    requires p <= q <= 100
    ensures FilledCells(p) <= FilledCells(q)
    ensures FilledCells(0) == 0 && FilledCells(100) == BarWidth
  {
  }

  /** None of the fixed pieces of the line draws a cell. */
  lemma NoCellsInCodes(c: char, p: nat)
    requires c == FullCell || c == EmptyCell
    ensures Count(c, BandColor(p)) == 0 && Count(c, Reset) == 0
    ensures Count(c, ": [ ") == 0 && Count(c, " ] ") == 0 && Count(c, "%\n") == 0
  {
    CountAbsent(c, BandColor(p));
    CountAbsent(c, Reset);
    CountAbsent(c, ": [ ");
    CountAbsent(c, " ] ");
    CountAbsent(c, "%\n");
  }

  /** A padded label or percentage holds a cell character only if the text itself does. */
  lemma CountPadded(c: char, s: string, w: nat)
    requires c == FullCell || c == EmptyCell
    ensures Count(c, PadRight(s, w)) == Count(c, s)
    ensures Count(c, PadLeft(s, w)) == Count(c, s)
  {
    if |s| < w {
      CountAppend(c, s, Repeat(' ', w - |s|));
      CountAppend(c, Repeat(' ', w - |s|), s);
      CountRepeat(c, ' ', w - |s|);
    }
  }

  /** The bar has `filled` full cells and `40 - filled` empty ones. */
  lemma {:induction false} BarCellsCount(p: nat)
    requires p <= 100
    ensures Count(FullCell, BarCells(p)) == FilledCells(p)
    ensures Count(EmptyCell, BarCells(p)) == BarWidth - FilledCells(p)
  {
    var f := FilledCells(p);
    var full := Repeat(FullCell, f);
    var empty := Repeat(EmptyCell, BarWidth - f);
    forall c | c == FullCell || c == EmptyCell
      ensures Count(c, BarCells(p)) == Count(c, full) + Count(c, empty)
    {
      NoCellsInCodes(c, p);
      CountAppend(c, BandColor(p), full);
      CountAppend(c, BandColor(p) + full, Reset);
      CountAppend(c, BandColor(p) + full + Reset, empty);
    }
    CountRepeat(FullCell, FullCell, f);
    CountRepeat(FullCell, EmptyCell, BarWidth - f);
    CountRepeat(EmptyCell, FullCell, f);
    CountRepeat(EmptyCell, EmptyCell, BarWidth - f);
  }

  /** The digits of a percentage hold no cell character. */
  lemma NoCellsInPercent(c: char, p: nat)
    requires c == FullCell || c == EmptyCell
    ensures Count(c, PercentField(p)) == 0
  {
    DigitsExclude(c, NatToString(p));
    CountAbsent(c, PercentField(p));
  }

  /**
   * Apart from cells the label itself holds, the line shows exactly
   * `filled` full cells and `40 - filled` empty ones, 40 in all.
   */
  lemma {:induction false} BarLineCells(name: string, percent: nat)
    ensures Count(FullCell, BarLine(name, percent))
      == Count(FullCell, name) + FilledCells(ClampPercent(percent))
    ensures Count(EmptyCell, BarLine(name, percent))
      == Count(EmptyCell, name) + BarWidth - FilledCells(ClampPercent(percent))
  {
    var p := ClampPercent(percent);
    forall c | c == FullCell || c == EmptyCell
      ensures Count(c, BarLine(name, percent))
        == Count(c, name) + Count(c, BarCells(p))
    {
      NoCellsInCodes(c, p);
      CountPadded(c, name, LabelWidth);
      NoCellsInPercent(c, p);
      CountAppend(c, " ", PadRight(name, LabelWidth));
      CountAppend(c, " " + PadRight(name, LabelWidth), ": [ ");
      CountAppend(c, LabelField(name), BarCells(p));
      CountAppend(c, LabelField(name) + BarCells(p), PercentField(p));
    }
    BarCellsCount(p);
  }


  /** Where the brackets and the `%` sit in the fixed text around the bar. */
  lemma Brackets()
    ensures OccursAt(": [ ", "[", 2) && OccursAt(" ] ", "]", 1)
    ensures |" ] "| == 3 && "%\n"[..1] == "%"
  {
  }

  /** The label starts at column 1 and `[` closes the text before the bar. */
  lemma LabelFieldOccurrences(name: string)
    ensures OccursAt(LabelField(name), name, 1)
    ensures OccursAt(LabelField(name), "[", |LabelField(name)| - 2)
  {
    Brackets();
    var padded := PadRight(name, LabelWidth);
    assert OccursAt(padded, name, 0);
    OccursAtPrepend(" ", padded, name, 0);
    OccursAtAppend(" " + padded, name, 1, ": [ ");
    OccursAtPrepend(" " + padded, ": [ ", "[", 2);
  }

  /** `]` opens the text after the bar. */
  lemma PercentFieldBracket(p: nat)
    ensures OccursAt(PercentField(p), "]", 1)
  {
    Brackets();
    var field := PadLeft(NatToString(p), PercentWidth);
    OccursInFirst(" ] ", field, "%\n", "]", 1);
  }

  /** The line has the label at column 1, and `[` and `]` around the bar. */
  lemma BarLineLabel(name: string, percent: nat)
    ensures OccursAt(BarLine(name, percent), name, 1)
    ensures Contains(BarLine(name, percent), name)
    ensures Contains(BarLine(name, percent), "[") && Contains(BarLine(name, percent), "]")
  {
    var p := ClampPercent(percent);
    LabelFieldOccurrences(name);
    PercentFieldBracket(p);
    OccursInFirst(LabelField(name), BarCells(p), PercentField(p), name, 1);
    OccursInFirst(LabelField(name), BarCells(p), PercentField(p), "[", |LabelField(name)| - 2);
    OccursInThird(LabelField(name), BarCells(p), PercentField(p), "]", 1);
  }

  /** The text after the bar is eight characters: `" ] "`, three columns of percentage, `"%\n"`. */
  lemma PercentFieldShape(p: nat)
    requires p <= 100
    ensures |PercentField(p)| == 8
    ensures PercentField(p)[3..6] == PadLeft(NatToString(p), PercentWidth)
    ensures PercentField(p)[6..] == "%\n"
  {
    NatToStringShort(p);
    var field := PadLeft(NatToString(p), PercentWidth);
    assert |field| == 3;
    assert (" ] " + field + "%\n")[3..6] == field;
  }

  /** The line ends with `"%\n"`. */
  lemma BarLineNewline(name: string, percent: nat)
    ensures |BarLine(name, percent)| >= 5
    ensures BarLine(name, percent)[|BarLine(name, percent)| - 2..] == "%\n"
  {
    var p := ClampPercent(percent);
    PercentFieldShape(p);
    SuffixOfSecond(LabelField(name) + BarCells(p), PercentField(p), 6);
  }

  /** The three columns before `"%\n"` are the clamped percentage right-aligned. */
  lemma BarLineEnd(name: string, percent: nat)
    ensures |BarLine(name, percent)| >= 5
    ensures BarLine(name, percent)[|BarLine(name, percent)| - 5..|BarLine(name, percent)| - 2]
      == PadLeft(NatToString(ClampPercent(percent)), PercentWidth)
  {
    var p := ClampPercent(percent);
    var a := LabelField(name) + BarCells(p);
    assert BarLine(name, percent) == a + PercentField(p);
    LineEnd(a, p);
  }

  /** A text that ends with the percent field of `p` ends with `p` right-aligned in three columns before `"%\n"`. */
  lemma LineEnd(a: string, p: nat)
    requires p <= 100
    ensures |a + PercentField(p)| >= 5
    ensures (a + PercentField(p))[|a + PercentField(p)| - 5..|a + PercentField(p)| - 2]
      == PadLeft(NatToString(p), PercentWidth)
  {
    PercentFieldShape(p);
    SliceOfSecond(a, PercentField(p), 3, 6);
  }

  /** The three columns before `"%\n"` read back as the clamped percentage. */
  lemma BarLinePercent(name: string, percent: nat)
    ensures |BarLine(name, percent)| >= 5
    ensures ParseUnsigned(Trim(BarLine(name, percent)[|BarLine(name, percent)| - 5..|BarLine(name, percent)| - 2]))
      == Some(ClampPercent(percent))
  {
    BarLineEnd(name, percent);
    TrimPaddedNumber(ClampPercent(percent), PercentWidth);
    ParseNatToString(ClampPercent(percent));
  }

  /** The percentage is followed by `%` in the text after the bar. */
  lemma PercentFieldShows(p: nat)
    requires p <= 100
    ensures |NatToString(p)| <= 3
    ensures OccursAt(PercentField(p), NatToString(p) + "%", 6 - |NatToString(p)|)
  {
    NatToStringShort(p);
    Brackets();
    OccursRightAligned(" ] ", NatToString(p), PercentWidth, "%\n");
  }

  /** The clamped percentage followed by `%` occurs in the line. */
  lemma BarLineShowsPercent(name: string, percent: nat)
    ensures Contains(BarLine(name, percent), NatToString(ClampPercent(percent)) + "%")
  {
    var p := ClampPercent(percent);
    PercentFieldShows(p);
    OccursInThird(LabelField(name), BarCells(p), PercentField(p), NatToString(p) + "%", 6 - |NatToString(p)|);
  }

  /** The percent texts of the two sample bars. */
  lemma SamplePercentTexts()
    ensures NatToString(50) + "%" == "50%" && NatToString(100) + "%" == "100%"
  {
    assert NatToString(5) == "5";
    assert NatToString(1) == "1";
    assert NatToString(10) == "10";
  }

  /** A bar at 50% shows its label, both brackets and `50%`, and fills 20 cells. */
  lemma SampleHalfBar(name: string)
    ensures Contains(BarLine(name, 50), name)
    ensures Contains(BarLine(name, 50), "[") && Contains(BarLine(name, 50), "]")
    ensures Contains(BarLine(name, 50), "50%")
    ensures FilledCells(ClampPercent(50)) == 20
  {
    BarLineLabel(name, 50);
    BarLineShowsPercent(name, 50);
    SamplePercentTexts();
  }

  /** A bar asked to show 150% shows `100%` and a full bar. */
  lemma SampleClampedBar(name: string)
    ensures Contains(BarLine(name, 150), "100%")
    ensures FilledCells(ClampPercent(150)) == BarWidth
  {
    BarLineShowsPercent(name, 150);
    SamplePercentTexts();
  }
}
