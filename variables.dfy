/**
 * The values the SASS strategy passes around: colors (`Color`, external),
 * variable entities (`Variable`), declaration sites and the per-line input
 * and output records of the strategy contract.
 */
module Variables {
  import opened Wrappers

  /**
   * A color value (`label` is a reserved word in Dafny, hence `colorLabel`). `rgb` is `None` for the "no color" entity of an
   * unresolved usage; `alpha` is only ever copied; `raw` is the textual
   * form, absent when the constructor was not given one.
   */
  datatype Color = Color(colorLabel: string, position: int, rgb: Option<seq<int>>, alpha: Option<real>, raw: Option<string>)

  /** Where a declaration was written. */
  datatype Site = Site(fileName: string, line: int)

  /** A variable entity: a declaration (with a site) or a resolved usage (site `None`). */
  datatype Variable = Variable(name: string, color: Color, declaration: Option<Site>)

  /** One line of input. */
  datatype DocumentLine = DocumentLine(line: int, text: string)

  /** The entities found on one line. */
  datatype LineExtraction = LineExtraction(line: int, colors: seq<Variable>)

  /** `new Color('', 0, [], 0, raw)`: the raw-only placeholder of a declaration no parser understood. */
  function Placeholder(raw: string): (c: Color)
    ensures c.raw == Some(raw) && c.rgb == Some([])
  {
    Color("", 0, Some([]), Some(0.0), Some(raw))
  }
}
