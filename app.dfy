/** The "Generate Resume" action: the name guard, then the PDF built from the
    generated text, with the name banner and contact lines ahead of the sections. */
module App {
  import opened PyStrings
  import opened Sanitizer
  import opened PdfCommands
  import opened Extractor

  /** The nine fields of the input form. */
  datatype FormInput = FormInput(
    name: string, email: string, phone: string, linkedin: string, github: string,
    skills: string, experience: string, projects: string, education: string)

  /** What pressing the button produces: the error for a blank name, or the generated
      résumé text together with the PDF drawn from it. */
  datatype Outcome =
    | NameRequired
    | Generated(resumeText: string, commands: seq<Command>)

  /** The first contact line, `Email: … | Phone: …`, before sanitising. */
  function EmailLine(form: FormInput): string
  {
    "Email: " + form.email + " | Phone: " + form.phone
  }

  /** The second contact line, `LinkedIn: … | GitHub: …`, before sanitising. */
  function LinksLine(form: FormInput): string
  {
    "LinkedIn: " + form.linkedin + " | GitHub: " + form.github
  }

  /** The top of the document: the name banner, then the two sanitised contact lines. */
  function Preamble(form: FormInput): seq<Command>
  {
    [Banner(form.name), Contact(SafeLine(EmailLine(form), MaxTokenLen)),
     Contact(SafeLine(LinksLine(form), MaxTokenLen))]
  }

  /** The whole document drawn for a form and the text generated from it. */
  function DocumentCommands(form: FormInput, text: string): seq<Command>
  {
    Preamble(form) + Rendered(text, |Sections|)
  }

  /** The button handler. A name that strips to nothing is refused before anything
      is generated; otherwise the text comes from `generate` (the language-model call
      on the prompt built from the form) and the PDF is drawn from it. */
  method BuildDocument(form: FormInput, generate: FormInput -> string) returns (out: Outcome)
    ensures out == NameRequired <==> AllWhitespace(form.name)
    ensures !AllWhitespace(form.name) ==>
      out == Generated(generate(form), DocumentCommands(form, generate(form)))
  {
    StripEmptyIff(form.name);
    if Strip(form.name) == [] {
      return NameRequired;
    }
    var resumeText := generate(form);
    var pdf := new Pdf();
    pdf.Emit(Banner(form.name));
    assert pdf.commands == [Banner(form.name)];
    var email := SafePdfLine(EmailLine(form), MaxTokenLen);
    pdf.Emit(Contact(email));
    assert pdf.commands == [Banner(form.name), Contact(email)];
    var links := SafePdfLine(LinksLine(form), MaxTokenLen);
    pdf.Emit(Contact(links));
    assert pdf.commands == Preamble(form);
    RenderSections(pdf, resumeText);
    assert pdf.commands == DocumentCommands(form, resumeText);
    return Generated(resumeText, pdf.commands);
  }

  // ---------------------------------------------------------------------------
  // Properties

  /** The document opens with the name banner and the two contact lines, and nothing
      after them is a banner or a contact line. */
  lemma DocumentShape(form: FormInput, text: string)
    ensures var c := DocumentCommands(form, text);
      |c| >= 3 && c[0] == Banner(form.name) && c[1].Contact? && c[2].Contact?
      && forall k :: 3 <= k < |c| ==> !c[k].Banner? && !c[k].Contact?
  {
    var c := DocumentCommands(form, text);
    var r := Rendered(text, |Sections|);
    RenderedDrawsSections(text, |Sections|);
    forall k | 3 <= k < |c| ensures !c[k].Banner? && !c[k].Contact? {
      assert c[k] == r[k - 3];
      assert r[k - 3] in r;
    }
  }

  /** The section titles of the document are the section names that occur in the
      generated text with a non-blank body, in the fixed order. */
  lemma DocumentTitles(form: FormInput, text: string)
    ensures Titles(DocumentCommands(form, text)) == Shown(text, |Sections|)
  {
    TitlesConcat(Preamble(form), Rendered(text, |Sections|));
    TitlesInOrder(text, |Sections|);
    PreambleTitles(form);
  }

  lemma PreambleTitles(form: FormInput)
    ensures Titles(Preamble(form)) == []
  {
    var p := Preamble(form);
    assert forall c :: c in p ==> c == p[0] || c == p[1] || c == p[2];
    TitlesNone(p);
  }

  /** A generated text that holds none of the section names gives a document with
      the banner and contact lines only. */
  lemma NoNamesOnlyPreamble(form: FormInput, text: string)
    requires forall k :: 0 <= k < |Sections| ==> !Contains(text, Sections[k])
    ensures DocumentCommands(form, text) == Preamble(form)
  {
    NoNamesNoSections(text, |Sections|);
  }
}
