/** The FPDF document, seen as the ordered drawing commands the program issues.
    Fonts, colours, cell widths, line spacing and page breaks are not recorded. */
module PdfCommands {

  datatype Command =
    | Banner(name: string)      // the filled cell with the applicant's name
    | Contact(text: string)     // an italic multi_cell holding one line of contact details
    | Header(title: string)     // the filled cell with a section title
    | Paragraph(text: string)   // a multi_cell holding one whole line
    | Bullet(text: string)      // a bullet glyph and a multi_cell holding one item
    | Separator                 // the horizontal rule that closes a section

  /** The document being drawn: the program only ever appends to it. */
  class Pdf {
    var commands: seq<Command>

    constructor ()
      ensures commands == []
    {
      commands := [];
    }

    method Emit(c: Command)
      modifies this
      ensures commands == old(commands) + [c]
    {
      commands := commands + [c];
    }
  }
}
