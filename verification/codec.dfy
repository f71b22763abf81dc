/**
  Reading the emitter's output text back into cells. A cell's text is
  `ESC [ row ; col H`, the white colour, one glyph and the reset, so a
  stream of such texts can be split and decoded without separators; this
  is the inverse of `Emitter.Render`.
 */
module Codec {
  import opened Ansi
  import opened Emitter

  /** The rest of `s` after the prefix `p`, if `s` starts with `p`. */
  function StripPrefix(p: string, s: string): (r: Option<string>)
    ensures r.Some? <==> p <= s
    ensures r.Some? ==> s == p + r.value
  {
    if p <= s then
      assert s == p + s[|p|..];
      Some(s[|p|..])
    else None
  }

  /** Decodes the cell at the head of `s` and returns the text after it. */
  function DecodeCell(s: string): (r: Option<(Cell, string)>)
    ensures r.Some? ==> |r.value.1| < |s|
  {
    match StripPrefix([ESC, '['], s)
    case None => None
    case Some(s1) =>
      match ParseInt(s1)
      case None => None
      case Some((row, s2)) =>
        match StripPrefix([';'], s2)
        case None => None
        case Some(s3) =>
          match ParseInt(s3)
          case None => None
          case Some((col, s4)) =>
            match StripPrefix(['H'] + WHITE, s4)
            case None => None
            case Some(s5) =>
              if |s5| == 0 then None
              else
                match StripPrefix(RESET, s5[1..])
                case None => None
                case Some(rest) => Some((Cell(row, col, s5[0]), rest))
  }

  /** Decodes a whole stream of cell texts; fails on any malformed piece. */
  function DecodeCells(s: string): (r: Option<seq<Cell>>)
    decreases |s|
  {
    if |s| == 0 then Some([])
    else
      match DecodeCell(s)
      case None => None
      case Some((c, rest)) =>
        match DecodeCells(rest)
        case None => None
        case Some(cs) => Some([c] + cs)
  }

  /** Decodes a frame's text: a screen clear followed by cell texts. */
  function DecodeFrame(s: string): Option<seq<Cell>> {
    match StripPrefix(CLEAR_SCREEN, s)
    case None => None
    case Some(body) => DecodeCells(body)
  }

  lemma StripPrefixOf(p: string, t: string)
    ensures StripPrefix(p, p + t) == Some(t)
  {
    assert (p + t)[..|p|] == p;
    assert (p + t)[|p|..] == t;
  }

  /** A cell's text followed by `t`, split at the points where the decoder cuts it. */
  lemma CellTextParts(c: Cell, t: string)
    ensures CellText(c) + t
         == [ESC, '['] + (IntToDecimal(c.row) + ([';'] + (IntToDecimal(c.col) + ((['H'] + WHITE) + ([c.ch] + (RESET + t))))))
  {
  }

  /** A cell's text decodes to that cell, whatever text follows it. */
  lemma DecodeCellText(c: Cell, t: string)
    ensures DecodeCell(CellText(c) + t) == Some((c, t))
  {
    var s5 := [c.ch] + (RESET + t);
    var s4 := (['H'] + WHITE) + s5;
    var s3 := IntToDecimal(c.col) + s4;
    var s2 := [';'] + s3;
    var s1 := IntToDecimal(c.row) + s2;
    CellTextParts(c, t);
    StripPrefixOf([ESC, '['], s1);
    ParseIntRoundTrip(c.row, s2);
    StripPrefixOf([';'], s3);
    ParseIntRoundTrip(c.col, s4);
    StripPrefixOf(['H'] + WHITE, s5);
    assert s5[1..] == RESET + t;
    StripPrefixOf(RESET, t);
  }

  /** A stream whose head decodes to `c` decodes to `c` followed by the decoding of the rest. */
  lemma DecodeCellsCons(s: string, c: Cell, rest: string)
    requires DecodeCell(s) == Some((c, rest))
    ensures DecodeCells(rest).Some? ==> DecodeCells(s) == Some([c] + DecodeCells(rest).value)
  {
  }

  /** A cell's text in front of a decodable stream decodes to that cell in front of its cells. */
  lemma DecodeConsText(c: Cell, t: string, cs: seq<Cell>)
    requires DecodeCells(t) == Some(cs)
    ensures DecodeCells(CellText(c) + t) == Some([c] + cs)
  {
    DecodeCellText(c, t);
    DecodeCellsCons(CellText(c) + t, c, t);
  }

  /** Decoding the rendered text of any cells gives back exactly those cells. */
  lemma {:induction false} DecodeRender(cells: seq<Cell>)
    ensures DecodeCells(Render(cells)) == Some(cells)
    decreases |cells|
  {
    if |cells| > 0 {
      DecodeRender(cells[1..]);
      DecodeConsText(cells[0], Render(cells[1..]), cells[1..]);
      assert [cells[0]] + cells[1..] == cells;
    }
  }
}
