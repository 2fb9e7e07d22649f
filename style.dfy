// Editor positions and ranges (style.ts:8-28): plain records with a line
// and a character column, used for the extent of a suggestion.

module Style {

  datatype Position = Position(line: int, ch: int)

  datatype Range = Range(from: Position, to: Position)

  /** The range a suggestion of `length` characters covers from (line, ch)
      (main.ts:70 and main.ts:80, main.ts:86). */
  function Span(line: int, ch: int, length: int): (r: Range)
    ensures r.from.line == r.to.line == line
    ensures r.from.ch == ch && r.to.ch - r.from.ch == length
  {
    Range(Position(line, ch), Position(line, ch + length))
  }
}
