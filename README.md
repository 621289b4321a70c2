# Smart résumé builder: the text-to-PDF pipeline

This project is a Dafny model of the text pipeline in `app.py`, a Streamlit app.
The app sends a form's contents to a language model and turns the free text it gets
back into a PDF résumé. The model covers the deterministic part of that work:

- **`safe_pdf_line`** (module `Sanitizer`). It splits a line on single spaces. Each token
  longer than `max_token_len` (50) is cut into chunks of at most 50 characters joined by U+200B
  ZERO WIDTH SPACE. The tokens are then rejoined with spaces and the result stripped. The
  method `SafePdfLine` keeps the source's accumulating loop.
- **`add_section`** (module `Renderer`). This draws one titled section. A blank body draws
  nothing. Otherwise it draws a header, then one output per non-blank line, then a closing
  rule. In SKILLS and PROJECTS a line with a comma becomes one bullet per comma-separated
  item. Every other line becomes one sanitised paragraph. The methods `AddSection` and
  `AddLine` keep the source's two nested loops.
- **The section loop** (module `Extractor`). For SUMMARY, SKILLS, EXPERIENCE, PROJECTS and
  EDUCATION, in that order, it runs only when the name occurs in the text. It takes
  `text.split(name)[1]`, cuts it at the earliest occurrence of any of the five names, and
  strips it. `NextSectionIndex` is the inner `next_sec_idx` loop; `RenderSections` is the
  outer one.
- **The button handler** (module `App`). `BuildDocument` refuses a name that strips to
  nothing. Otherwise it draws the name banner and the two sanitised contact lines, then runs
  the section loop.

The FPDF object is modelled as the class `PdfCommands.Pdf`. It holds the ordered list of
drawing commands issued so far: `Banner`, `Contact`, `Header`, `Paragraph`, `Bullet` and
`Separator`. Each text cell and each rule the source draws appends one command:
- the name banner appends `Banner`;
- each contact line appends `Contact`;
- the section title cell appends `Header`;
- each `multi_cell` of section text appends `Paragraph`;
- the closing `line` appends `Separator`;
- a bullet's three calls (the indent cell, the bullet glyph cell and the item's `multi_cell`)
  append one `Bullet` together.

Style and spacing calls (`set_fill_color`, `set_text_color`, `set_font`, `set_draw_color`,
`set_line_width`, `ln`) are not recorded.

The Python string built-ins the code relies on are modelled in `PyStrings`:

- `strip` uses Python's own whitespace table. U+200B is not whitespace in it.
- `split` is for a non-empty separator.
- `in` and `index` find the first occurrence.
- `join` and `count` are modelled as well.
- `upper` is modelled on ASCII letters only.

`ExtractionExample` works the section loop through on whole texts:
- a general text of three sections;
- the worked example `"SUMMARY Experienced engineer. SKILLS Python, Go EXPERIENCE Built stuff."`;
- a text in which a name straddles the end of a piece.

`Seqs` holds a few generic sequence facts.

Observations about the code as written:

- `safe_pdf_line` does not always keep the text up to the inserted joiners. When the
  whitespace at either end of the line reaches across a chunk boundary of a token longer than
  the limit, the joiner stops the final strip and the whitespace beyond it stays.
  `TrailingTabKept` proves that `"a\t\t"` with limit 2 comes back as `"a\t" + U+200B`, and
  `LeadingTabKept` that `"\t\t\ta"` comes back as U+200B + `"\ta"`. Exact preservation is
  proved when no long token contains whitespace (`SafeLineExactText`). In general it holds up
  to whitespace at the two ends (`SafeLineKeepsText`).
- `safe_pdf_line` is not idempotent. It splits on spaces only, so a chunked token is still
  longer than the limit and is chunked again. `NotIdempotent` proves this. The model follows
  the code.
- The body rule is cut-at-earliest-name *within* `text.split(name)[1]`. When a name straddles
  the end of that piece, it does not cut the piece. The model follows the code exactly
  (`PieceSpec`, `CutSpec`). `StraddleBody` shows an instance: in `"SKILLS aPROJECTSKILLS b"`
  the SKILLS body is `"aPROJECT"`. `BodyBetween` states when the body is exactly the text
  between a name and the next one.

## Model

| member | source | states |
|---|---|---|
| PyStrings.Strip | app.py:74 | `str.strip()` with no argument: the result has no whitespace at either end and is never longer than the input; `StripShape` and `StripUnique` state that it is exactly the input with its surrounding whitespace removed |
| PyStrings.StripUnique | app.py:74 | `strip()` removes exactly the surrounding whitespace: whenever `s` is whitespace, then a string with no whitespace at either end, then whitespace, the result is that middle string |
| PyStrings.StripShape | app.py:74 | the result of `strip()` is a slice of the input with only whitespace before and after it |
| PyStrings.StripEmptyIff | app.py:78 | `not s.strip()` holds exactly when `s` is empty or all whitespace |
| PyStrings.StripAbsorbsPadding | app.py:74 | whitespace added around a string never changes what `strip()` returns |
| PyStrings.IndexOf | app.py:194 | `index` returns an index where the pattern occurs with no occurrence before it, and fails only when the pattern occurs nowhere |
| PyStrings.Contains | app.py:189 | `pat in s` holds exactly when the pattern occurs at some index |
| PyStrings.Split | app.py:68 | `str.split(sep)` for a non-empty separator: never fewer than one piece; `SplitSpec`, `SplitHead` and `SplitUnique` state which pieces it returns |
| PyStrings.Join | app.py:70 | `sep.join(parts)`: the parts in order with the separator between each two; `SplitSpec` states that joining the pieces of a split gives the input back, and `LongTokenJoiners` what joining a token's chunks with U+200B gives |
| PyStrings.SplitSpec | app.py:68 | the pieces of `split` joined by the separator give the input back, no piece contains the separator, and there is one piece exactly when the separator is absent |
| PyStrings.SplitUnique | app.py:95 | pieces free of a character, joined by that character, split back into exactly those pieces |
| PyStrings.SplitCount | app.py:95 | splitting on one character gives one more piece than the character's count |
| PyStrings.SplitHead | app.py:190 | the first piece of `split` is the prefix up to the first occurrence of the separator, or the whole string: the separator starts nowhere inside it, and starts right after it unless it is the whole string |
| PyStrings.SplitPiecesFree | app.py:95 | no piece of a split on one character holds that character |
| PyStrings.AsciiUpper | app.py:94 | `upper()` keeps the length and upper-cases each ASCII letter in place |
| Sanitizer.Chunks | app.py:70 | the slices `word[i:i+L]` for `i` in `range(0, len(word), L)`: consecutive runs of L characters, the last one 1 to L characters long; `ChunksExact` states their lengths and that they spell the token |
| Sanitizer.SanitizeToken | app.py:69-73 | the branch for one token: a token longer than L becomes its chunks joined by U+200B, any other token is kept; `LongTokenJoiners` states the joiner count and that deleting the joiners gives the token back, `ShortTokensUnchanged` that short tokens are kept |
| Sanitizer.SafeLine | app.py:65-74 | the value `safe_pdf_line` returns: the line split on single spaces, each token longer than L chunked and joined with U+200B, the tokens rejoined with spaces, then stripped; `SafePdfLine` computes it, and `SafeLineKeepsText`, `SafeLineExactText` and `ShortTokensUnchanged` state what it keeps |
| Sanitizer.SafePdfLine | app.py:65-74 | the loop's accumulated line, stripped, is the sanitised tokens joined by single spaces and stripped; the result has no whitespace at either end |
| Sanitizer.ChunksExact | app.py:70 | a non-empty token becomes ceil(len/L) chunks, all of length L except the last, which has 1 to L characters, and together they spell the token |
| Sanitizer.LongTokenJoiners | app.py:69-71 | a long U+200B-free token gains exactly ceil(len/L) - 1 joiners, and deleting them gives the token back |
| Sanitizer.ShortTokensUnchanged | app.py:68-74 | a line without surrounding whitespace whose tokens are all at most L long comes back identical |
| Sanitizer.ShortLineUnchanged | app.py:68-74 | a line without surrounding whitespace, at most L long, comes back identical |
| Sanitizer.SafeLineKeepsText | app.py:67-74 | for input without U+200B, deleting the joiners from the result gives the input, up to whitespace at the two ends |
| Sanitizer.SafeLineExactText | app.py:67-74 | for input without U+200B whose long tokens hold no whitespace, deleting the joiners from the result gives exactly the stripped input |
| Sanitizer.TrailingTabKept | app.py:69-74 | `"a\t\t"` with limit 2: the joiner shields the middle tab from the final strip, so the text is not kept exactly |
| Sanitizer.LeadingTabKept | app.py:69-74 | `"\t\t\ta"` with limit 2: the joiner after the first chunk shields the tab behind it from the final strip, so the text is not kept exactly |
| Sanitizer.NotIdempotent | app.py:68-71 | sanitising `"abc"` with limit 2 twice adds a second joiner |
| Renderer.IsBulletSection | app.py:94 | `title.upper() in ["SKILLS", "PROJECTS"]`; `AsciiUpper` states what `upper()` does to the title, and `LineRule` states which lines of such a section become bullets |
| Renderer.BulletFor | app.py:96-100 | the bullet drawn for one comma-separated item: the item stripped and sanitised; `LineRule` states it for each item of a line |
| Renderer.Bullets | app.py:95-100 | the item loop: one bullet per item, in order, as many as there are items; `LineRule` states that a comma line gives count(",") + 1 of them, each the stripped, sanitised piece |
| Renderer.LineCommands | app.py:91-102 | what one line of a section draws: nothing when it strips to nothing, one bullet per comma-separated item of a comma line in SKILLS or PROJECTS, else one sanitised paragraph; `LineRule` states this for every line |
| Renderer.BodyCommands | app.py:90-102 | what the lines of a body draw, line after line; `BodyInOrder` and `BodyDrawsText` state its order and its kinds |
| Renderer.SectionCommands | app.py:76-108 | what `add_section` draws: nothing for a blank body, else the header, the body's lines and the rule; `BlankSectionDrawsNothing` and `SectionShape` state its shape |
| Renderer.AddSection | app.py:76-108 | the commands drawn are those of `SectionCommands`: nothing for a blank body, else the header, each line's commands, and the rule |
| Renderer.AddLine | app.py:90-102 | one pass of the line loop draws `LineCommands`: nothing for a blank line, one bullet per item of a comma line in SKILLS or PROJECTS, else one paragraph |
| PdfCommands.Pdf.constructor | app.py:163-164 | a new document holds no drawing commands |
| PdfCommands.Pdf.Emit | app.py:178-184 | each drawing call appends its command to the end of the list and changes nothing else |
| Renderer.BlankSectionDrawsNothing | app.py:78 | a section draws nothing, not even its title, exactly when its body is empty or whitespace |
| Renderer.SectionShape | app.py:81-108 | a non-blank section draws exactly one title, first, and one rule, last, with only paragraphs and bullets between them |
| Renderer.BodyInOrder | app.py:90 | what a run of body lines draws is what its first part draws followed by what the rest draws |
| Renderer.LineRule | app.py:91-102 | a line draws nothing exactly when blank; a comma line of SKILLS or PROJECTS draws count(",") + 1 bullets, one per comma-free piece of the line with empty pieces kept, each the stripped, sanitised piece; any other line draws one paragraph of the sanitised stripped line |
| Renderer.WordListLine | app.py:94-100 | in SKILLS or PROJECTS, a `", "`-separated list of two or more short trimmed comma-free words draws one bullet per word holding exactly that word |
| Renderer.ShortLineParagraph | app.py:101-102 | a trimmed line within the token limit, outside the bullet rule, is drawn as one paragraph holding exactly that line |
| Renderer.SkillsLineExample | app.py:94-100 | `"Python, Go, SQL"` in SKILLS draws the bullets Python, Go and SQL |
| Renderer.ExperienceLineExample | app.py:101-102 | `"Led a team of 5 engineers."` in EXPERIENCE draws one paragraph holding that line |
| Extractor.Cut | app.py:191-196 | where the inner loop leaves `next_sec_idx`, never past the end of the content; `CutSpec` and `CutAt` characterise it |
| Extractor.NextSectionIndex | app.py:191-196 | the inner loop leaves `next_sec_idx` at `Cut(content, Sections)` |
| Extractor.CutSpec | app.py:191-196 | the cut is the first index at which any of the names starts: none starts before it, and one starts at it unless it is the end of the content |
| Extractor.CutAt | app.py:191-196 | the converse of `CutSpec`: an index before which no name starts, and at which one starts or the content ends, is the cut |
| Extractor.Piece | app.py:190 | `resume_text.split(sec)[1]`; `PieceSpec` says which part of the text it is |
| Extractor.Body | app.py:190-197 | the stripped text up to the cut that `add_section` receives; `BodyFreeOfNames` and `BodyBetween` state what it is |
| Extractor.PieceSpec | app.py:190 | `text.split(sec)[1]` is the text after the first occurrence of the name, up to its next occurrence or the end: the name starts nowhere in the text before that first occurrence, nowhere inside the piece, and right after the piece unless the piece runs to the end |
| Extractor.BodyBetween | app.py:189-197 | a name whose first occurrence is followed by text in which no name starts, then by the end of the text or by a name it does not overlap, has that text, stripped, for its body |
| Extractor.BodyFreeOfNames | app.py:190-197 | a section body contains none of the five section names |
| Extractor.SectionOut | app.py:189-198 | one pass of the section loop: the section of the name's body when the name occurs in the text, else nothing; `SectionTitles` and `TitlesInOrder` state what the passes draw |
| Extractor.Rendered | app.py:187-198 | what the section loop draws: for each name in the fixed order, the section of its body when the name occurs, else nothing; `TitlesInOrder` and `RenderedDrawsSections` state what it contains |
| Extractor.RenderSections | app.py:187-198 | the loop draws, in the fixed order of the names, the section of every name that occurs in the text, with its cut and stripped body |
| Extractor.SectionTitles | app.py:78-84 | a section shows its title once when its body is not blank, and not at all otherwise |
| Extractor.TitlesInOrder | app.py:187-198 | the titles drawn are exactly the names that occur in the text with a non-blank body, in the fixed order SUMMARY, SKILLS, EXPERIENCE, PROJECTS, EDUCATION |
| Extractor.NoNamesNoSections | app.py:188-189 | a text holding none of the names draws no section |
| Extractor.RenderedDrawsSections | app.py:187-198 | the section loop draws only titles, paragraphs, bullets and rules |
| ExtractionExample.ExampleSummaryBody | app.py:190-197 | in `"SUMMARY Hi SKILLS Go"` the SUMMARY body is `"Hi"`, cut where SKILLS starts |
| ExtractionExample.ExampleSkillsBody | app.py:189-197 | in the same text the SKILLS body is `"Go"` |
| ExtractionExample.SummaryOfThree | app.py:187-198 | in a text SUMMARY b0 SKILLS b1 EXPERIENCE b2 whose stretches open with a non-capital, do not end in a capital and have no two capitals side by side, the SUMMARY body is b0 stripped |
| ExtractionExample.SkillsOfThree | app.py:187-198 | in such a text the SKILLS body is b1 stripped |
| ExtractionExample.ExperienceOfThree | app.py:187-198 | in such a text the EXPERIENCE body is b2 stripped |
| ExtractionExample.AbsentOfThree | app.py:189 | such a text holds neither PROJECTS nor EDUCATION, so those passes draw nothing |
| ExtractionExample.ShownOfThree | app.py:187-198 | in such a text, when no stretch strips to nothing, the titles drawn are SUMMARY, SKILLS and EXPERIENCE |
| ExtractionExample.ExampleDocument | app.py:187-198 | in `"SUMMARY Experienced engineer. SKILLS Python, Go EXPERIENCE Built stuff."` the bodies are `"Experienced engineer."`, `"Python, Go"` and `"Built stuff."`, PROJECTS and EDUCATION are absent, and the titles drawn are SUMMARY, SKILLS, EXPERIENCE |
| ExtractionExample.StraddleBody | app.py:190-197 | in `"SKILLS aPROJECTSKILLS b"` the piece ends at the second SKILLS, which the PROJECTS before it overlaps, so the SKILLS body is `"aPROJECT"` |
| App.Preamble | app.py:175-184 | the name banner, then the two contact lines `Email: … \| Phone: …` and `LinkedIn: … \| GitHub: …`, each passed through `safe_pdf_line`; `DocumentShape` states where they stand |
| App.DocumentCommands | app.py:175-198 | the whole drawn document: the preamble followed by what the section loop draws; `DocumentShape` and `DocumentTitles` state its shape and its titles |
| App.BuildDocument | app.py:136-198 | a blank name gives the "Name is required" outcome and nothing else does; otherwise the outcome is the generated text with the banner, the two sanitised contact lines, then the sections |
| App.DocumentShape | app.py:175-185 | the document opens with the name banner and the two contact lines, and nothing after them is a banner or contact line |
| App.DocumentTitles | app.py:175-198 | the section titles of the document are the names that occur in the generated text with a non-blank body, in the fixed order |
| App.NoNamesOnlyPreamble | app.py:183-198 | a generated text without any section name gives a document with only the banner and contact lines |

## Left out

- The Streamlit interface is not modelled: page setup, theme choice and colours, text inputs, messages, the text area and the download button. It is presentation only.
- The language-model call and the prompt template are not modelled. `BuildDocument` takes the generation step as a parameter `generate: FormInput -> string`. That covers the error string `generate_resume` returns when the call fails, since it is still a string.
- FPDF geometry is not recorded: fonts, sizes, colours, cell widths, `ln` spacing, page breaks and the bytes written out. Only the order and content of drawing commands is.
- The one-space padding around the banner and header cells and in front of each bullet's text (`f" {name} "`, `f" {title} "`, `f" {...}"`) is layout, so the commands carry the bare name, title and item text.
- `PyStrings.AsciiUpper`: upper-cases ASCII letters only, not the full Unicode `str.upper`. Titles are always the five ASCII section names.
- `Sanitizer.SafePdfLine`: requires `max_token_len >= 1`. With 0, `range` with step 0 raises, and the program only ever uses the default 50.
- `Sanitizer.SafeLineExactText`: states exact text preservation only when no long token contains whitespace. Without that condition it is false (`TrailingTabKept`), and `SafeLineKeepsText` gives the general form up to surrounding whitespace.
