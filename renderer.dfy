/** `add_section`: draws one titled section of the résumé, line by line, into the PDF. */
module Renderer {
  import opened PyStrings
  import opened Sanitizer
  import opened PdfCommands
  import opened Seqs

  /** `title.upper() in ["SKILLS", "PROJECTS"]`: the sections whose comma lines are
      drawn as bullets. */
  predicate IsBulletSection(title: string)
  {
    AsciiUpper(title) == "SKILLS" || AsciiUpper(title) == "PROJECTS"
  }

  /** The bullet drawn for one comma-separated item: the item stripped and sanitised. */
  function BulletFor(item: string): Command
  {
    Bullet(SafeLine(Strip(item), MaxTokenLen))
  }

  /** One bullet per comma-separated item, in order. */
  function Bullets(items: seq<string>): (r: seq<Command>)
    ensures |r| == |items|
    decreases |items|
  {
    if items == [] then [] else Bullets(items[..|items| - 1]) + [BulletFor(items[|items| - 1])]
  }

  /** What one line of a section body draws. */
  function LineCommands(title: string, line: string): seq<Command>
  {
    var l := Strip(line);
    if l == [] then []
    else if ',' in l && IsBulletSection(title) then Bullets(Split(l, ","))
    else [Paragraph(SafeLine(l, MaxTokenLen))]
  }

  /** What the lines of a section body draw, in order. */
  function BodyCommands(title: string, lines: seq<string>): seq<Command>
    decreases |lines|
  {
    if lines == [] then []
    else BodyCommands(title, lines[..|lines| - 1]) + LineCommands(title, lines[|lines| - 1])
  }

  /** What `add_section(pdf, title, content)` draws. */
  function SectionCommands(title: string, content: string): seq<Command>
  {
    if Strip(content) == [] then []
    else [Header(title)] + BodyCommands(title, Split(content, "\n")) + [Separator]
  }

  /** `add_section`: skips a blank body; otherwise draws the title, then each line
      of the body, then the closing rule. */
  method AddSection(pdf: Pdf, title: string, content: string)
    modifies pdf
    ensures pdf.commands == old(pdf.commands) + SectionCommands(title, content)
  {
    if Strip(content) == [] {
      return;
    }
    pdf.Emit(Header(title));
    ghost var start := pdf.commands;
    var lines := Split(content, "\n");
    for i := 0 to |lines|
      invariant pdf.commands == start + BodyCommands(title, lines[..i])
    {
      AddLine(pdf, title, lines[i]);
      BodyStep(title, lines, i);
      Assoc(start, BodyCommands(title, lines[..i]), LineCommands(title, lines[i]));
    }
    assert lines[..|lines|] == lines;
    pdf.Emit(Separator);
    Assoc(old(pdf.commands), [Header(title)], BodyCommands(title, lines));
    Assoc(old(pdf.commands), [Header(title)] + BodyCommands(title, lines), [Separator]);
  }

  /** One pass of the line loop of `add_section`: a blank line is skipped, a comma
      line of SKILLS or PROJECTS is drawn item by item as bullets, and any other line
      as one paragraph. */
  method AddLine(pdf: Pdf, title: string, rawLine: string)
    modifies pdf
    ensures pdf.commands == old(pdf.commands) + LineCommands(title, rawLine)
  {
    var line := Strip(rawLine);
    if line == [] {
      return;
    }
    if ',' in line && IsBulletSection(title) {
      var items := Split(line, ",");
      ghost var start := pdf.commands;
      for k := 0 to |items|
        invariant pdf.commands == start + Bullets(items[..k])
      {
        var text := SafePdfLine(Strip(items[k]), MaxTokenLen);
        pdf.Emit(Bullet(text));
        BulletsPrefix(items, k);
        Assoc(start, Bullets(items[..k]), [BulletFor(items[k])]);
      }
      assert items[..|items|] == items;
    } else {
      var text := SafePdfLine(line, MaxTokenLen);
      pdf.Emit(Paragraph(text));
    }
  }

  /** The first i + 1 lines draw what the first i draw, then what line i draws. */
  lemma BodyStep(title: string, lines: seq<string>, i: nat)
    requires i < |lines|
    ensures BodyCommands(title, lines[..i + 1]) == BodyCommands(title, lines[..i]) + LineCommands(title, lines[i])
  {
    assert lines[..i + 1][..i] == lines[..i];
  }

  /** The bullets for the first k + 1 items extend those for the first k. */
  lemma BulletsPrefix(items: seq<string>, k: nat)
    requires k < |items|
    ensures Bullets(items[..k + 1]) == Bullets(items[..k]) + [BulletFor(items[k])]
  {
    assert items[..k + 1][..k] == items[..k];
  }

  /** Bullet k is drawn for item k. */
  lemma {:induction false} BulletsAt(items: seq<string>, k: nat)
    requires k < |items|
    ensures Bullets(items)[k] == BulletFor(items[k])
    decreases |items|
  {
    if k < |items| - 1 {
      BulletsAt(items[..|items| - 1], k);
    }
  }

  /** Every bullet is drawn for its own item. */
  lemma BulletsSpec(items: seq<string>)
    ensures forall k :: 0 <= k < |items| ==> Bullets(items)[k] == BulletFor(items[k])
  {
    forall k | 0 <= k < |items| ensures Bullets(items)[k] == BulletFor(items[k]) {
      BulletsAt(items, k);
    }
  }

  // ---------------------------------------------------------------------------
  // Properties

  /** A section draws nothing at all, not even its title, exactly when its body is
      empty or whitespace only. */
  lemma BlankSectionDrawsNothing(title: string, content: string)
    ensures SectionCommands(title, content) == [] <==> AllWhitespace(content)
  {
    StripEmptyIff(content);
  }

  lemma {:induction false} BulletsAreBullets(items: seq<string>)
    ensures forall c :: c in Bullets(items) ==> c.Bullet?
    decreases |items|
  {
    if items != [] {
      BulletsAreBullets(items[..|items| - 1]);
    }
  }

  /** A line draws only paragraphs and bullets. */
  lemma LineDrawsText(title: string, line: string)
    ensures forall c :: c in LineCommands(title, line) ==> c.Paragraph? || c.Bullet?
  {
    var l := Strip(line);
    if l != [] && ',' in l && IsBulletSection(title) {
      BulletsAreBullets(Split(l, ","));
    }
  }

  /** The lines of a body draw only paragraphs and bullets. */
  lemma {:induction false} BodyDrawsText(title: string, lines: seq<string>)
    ensures forall c :: c in BodyCommands(title, lines) ==> c.Paragraph? || c.Bullet?
    decreases |lines|
  {
    if lines != [] {
      BodyDrawsText(title, lines[..|lines| - 1]);
      LineDrawsText(title, lines[|lines| - 1]);
    }
  }

  /** The body draws its lines in order: what a run of lines draws is what its first
      part draws followed by what the rest draws. */
  lemma {:induction false} BodyInOrder(title: string, a: seq<string>, b: seq<string>)
    ensures BodyCommands(title, a + b) == BodyCommands(title, a) + BodyCommands(title, b)
    decreases |b|
  {
    if b == [] {
      assert a + b == a;
    } else {
      var b', x := b[..|b| - 1], b[|b| - 1];
      assert b == b' + [x];
      assert a + b == (a + b') + [x];
      BodyInOrder(title, a, b');
      BodyLast(title, a + b', x);
      BodyLast(title, b', x);
      var A, B', X := BodyCommands(title, a), BodyCommands(title, b'), LineCommands(title, x);
      calc {
        BodyCommands(title, a + b);
        BodyCommands(title, (a + b') + [x]);
        (A + B') + X;
        { Assoc(A, B', X); }
        A + (B' + X);
        A + BodyCommands(title, b);
      }
    }
  }

  /** What a body with one more line draws. */
  lemma BodyLast(title: string, lines: seq<string>, x: string)
    ensures BodyCommands(title, lines + [x]) == BodyCommands(title, lines) + LineCommands(title, x)
  {
    assert (lines + [x])[..|lines|] == lines;
  }

  /** A non-blank section draws exactly one title, first, and exactly one rule, last,
      with only paragraphs and bullets between them. */
  lemma SectionShape(title: string, content: string)
    requires !AllWhitespace(content)
    ensures var c := SectionCommands(title, content);
      |c| >= 2 && c[0] == Header(title) && c[|c| - 1] == Separator
      && forall k :: 0 < k < |c| - 1 ==> c[k].Paragraph? || c[k].Bullet?
  {
    StripEmptyIff(content);
    var body := BodyCommands(title, Split(content, "\n"));
    BodyDrawsText(title, Split(content, "\n"));
    var c := SectionCommands(title, content);
    assert c == [Header(title)] + body + [Separator];
    forall k | 0 < k < |c| - 1 ensures c[k].Paragraph? || c[k].Bullet? {
      assert c[k] == body[k - 1];
      assert body[k - 1] in body;
    }
  }

  /** How one line is drawn. A blank line draws nothing. In SKILLS and PROJECTS a line
      with a comma draws one bullet per comma-separated fragment, one more than it has
      commas, empty fragments included, each fragment stripped and sanitised; the
      fragments are the pieces of the line between its commas. Any other line draws
      one sanitised paragraph. */
  lemma LineRule(title: string, line: string)
    ensures var l := Strip(line); var c := LineCommands(title, line);
      (c == [] <==> AllWhitespace(line))
      && (l != [] && ',' in l && IsBulletSection(title) ==>
            var items := Split(l, ",");
            |c| == CountChar(l, ',') + 1 && |items| == |c|
            && Join(items, ",") == l && (forall k :: 0 <= k < |items| ==> ',' !in items[k])
            && forall k :: 0 <= k < |c| ==> c[k] == BulletFor(items[k]))
      && (l != [] && !(',' in l && IsBulletSection(title)) ==> c == [Paragraph(SafeLine(l, MaxTokenLen))])
  {
    var l := Strip(line);
    StripEmptyIff(line);
    if l != [] && ',' in l && IsBulletSection(title) {
      var items := Split(l, ",");
      assert LineCommands(title, line) == Bullets(items);
      SplitCount(l, ',');
      SplitSpec(l, ",");
      SplitPiecesFree(l, ',');
      BulletsSpec(items);
    }
  }

  /** A trimmed line no longer than the token limit, outside the bullet rule, is drawn
      as one paragraph holding exactly that line. */
  lemma ShortLineParagraph(title: string, line: string)
    requires line != [] && Trimmed(line) && |line| <= MaxTokenLen
    requires !(',' in line && IsBulletSection(title))
    ensures LineCommands(title, line) == [Paragraph(line)]
  {
    StripTrimmed(line);
    ShortLineUnchanged(line, MaxTokenLen);
  }

  /** A trimmed comma line of SKILLS or PROJECTS that joins comma-free items draws
      exactly the bullets of those items. */
  lemma BulletLineOf(title: string, line: string, items: seq<string>)
    requires IsBulletSection(title) && Trimmed(line) && ',' in line
    requires |items| >= 1 && Join(items, ",") == line
    requires forall k :: 0 <= k < |items| ==> ',' !in items[k]
    ensures LineCommands(title, line) == Bullets(items)
  {
    StripTrimmed(line);
    SplitUnique(line, ',', items);
  }

  /** An item that is a short trimmed word after some spaces is drawn as that word. */
  lemma PaddedShortItem(p: string, w: string)
    requires AllWhitespace(p) && Trimmed(w) && |w| <= MaxTokenLen
    ensures BulletFor(p + w) == Bullet(w)
  {
    assert p + w + [] == p + w;
    StripPadded(p, w, []);
    ShortLineUnchanged(w, MaxTokenLen);
  }

  /** Each word with the space that follows a comma in a `", "`-separated list. */
  function Padded(words: seq<string>): (r: seq<string>)
    ensures |r| == |words|
    decreases |words|
  {
    if words == [] then [] else [" " + words[0]] + Padded(words[1..])
  }

  lemma {:induction false} PaddedAt(words: seq<string>, k: nat)
    requires k < |words|
    ensures Padded(words)[k] == " " + words[k]
    decreases |words|
  {
    if k > 0 {
      PaddedAt(words[1..], k - 1);
    }
  }

  /** A space in front of the first item comes out in front of the joined string. */
  lemma JoinLeadSpace(x: string, rest: seq<string>)
    ensures Join([" " + x] + rest, ",") == " " + Join([x] + rest, ",")
  {
    if rest != [] {
      ConsTail(" " + x, rest);
      ConsTail(x, rest);
      Assoc(" ", x, ",");
      Assoc(" ", x + ",", Join(rest, ","));
    }
  }

  /** Splitting a `", "`-separated list at its commas leaves a space in front of
      every word but the first. */
  lemma {:induction false} JoinCommaSpace(words: seq<string>)
    requires words != []
    ensures Join(words, ", ") == Join([words[0]] + Padded(words[1..]), ",")
    decreases |words|
  {
    var rest := words[1..];
    if rest != [] {
      JoinCommaSpace(rest);
      var p := Padded(rest[1..]);
      assert Padded(rest) == [" " + rest[0]] + p;
      JoinLeadSpace(rest[0], p);
      ConsTail(words[0], Padded(rest));
      var j := Join([rest[0]] + p, ",");
      Assoc(words[0], ",", " " + j);
      Assoc(",", " ", j);
      Assoc(words[0], ", ", j);
    }
  }

  /** The comma-separated items of a `", "`-separated list: the first word, then each
      later word after its space. */
  lemma ListItems(words: seq<string>)
    requires words != []
    ensures var items := [words[0]] + Padded(words[1..]);
      |items| == |words| && items[0] == words[0]
      && forall k :: 1 <= k < |words| ==> items[k] == " " + words[k]
  {
    forall k | 1 <= k < |words| ensures ([words[0]] + Padded(words[1..]))[k] == " " + words[k] {
      ListItem(words, k);
    }
  }

  /** A `", "`-separated list of at least two non-empty trimmed words is trimmed and
      holds a comma. */
  lemma ListLineShape(words: seq<string>)
    requires |words| >= 2 && forall k :: 0 <= k < |words| ==> words[k] != [] && Trimmed(words[k])
    ensures Trimmed(Join(words, ", ")) && ',' in Join(words, ", ")
  {
    var line := Join(words, ", ");
    JoinEnds(words, ", ");
    assert line == words[0] + ", " + Join(words[1..], ", ");
    assert line[|words[0]|] == ',';
  }

  /** In SKILLS and PROJECTS, a `", "`-separated list of at least two short trimmed
      comma-free words draws one bullet per word, holding exactly that word. */
  lemma WordListLine(title: string, words: seq<string>)
    requires IsBulletSection(title) && |words| >= 2
    requires forall k :: 0 <= k < |words| ==>
      words[k] != [] && Trimmed(words[k]) && |words[k]| <= MaxTokenLen && ',' !in words[k]
    ensures var c := LineCommands(title, Join(words, ", "));
      |c| == |words| && forall k :: 0 <= k < |words| ==> c[k] == Bullet(words[k])
  {
    var line := Join(words, ", ");
    var items := [words[0]] + Padded(words[1..]);
    JoinCommaSpace(words);
    ListItems(words);
    forall k | 0 <= k < |items| ensures ',' !in items[k] {
      if k > 0 {
        assert items[k] == " " + words[k];
      }
    }
    ListLineShape(words);
    BulletLineOf(title, line, items);
    ListBullets(words);
  }

  /** The bullets of the items of a `", "`-separated list of short trimmed words are
      those words. */
  lemma ListBullets(words: seq<string>)
    requires words != []
    requires forall k :: 0 <= k < |words| ==> Trimmed(words[k]) && |words[k]| <= MaxTokenLen
    ensures var b := Bullets([words[0]] + Padded(words[1..]));
      |b| == |words| && forall k :: 0 <= k < |words| ==> b[k] == Bullet(words[k])
  {
    forall k | 0 <= k < |words| ensures Bullets([words[0]] + Padded(words[1..]))[k] == Bullet(words[k]) {
      ListBullet(words, k);
    }
  }

  /** Bullet k of such a list. */
  lemma ListBullet(words: seq<string>, k: nat)
    requires k < |words| && Trimmed(words[k]) && |words[k]| <= MaxTokenLen
    ensures Bullets([words[0]] + Padded(words[1..]))[k] == Bullet(words[k])
  {
    var items := [words[0]] + Padded(words[1..]);
    BulletsAt(items, k);
    var p := if k == 0 then [] else " ";
    ListItem(words, k);
    PaddedShortItem(p, words[k]);
  }

  /** Item k of a `", "`-separated list is word k, after a space unless it is the first. */
  lemma ListItem(words: seq<string>, k: nat)
    requires k < |words|
    ensures ([words[0]] + Padded(words[1..]))[k] == (if k == 0 then [] else " ") + words[k]
  {
    if k == 0 {
      assert [] + words[0] == words[0];
    } else {
      PaddedAt(words[1..], k - 1);
    }
  }

  /** `"Python, Go, SQL"` in SKILLS draws the three bullets Python, Go and SQL. */
  lemma SkillsLineExample(title: string, line: string)
    requires title == "SKILLS" && line == "Python, Go, SQL"
    ensures LineCommands(title, line) == [Bullet("Python"), Bullet("Go"), Bullet("SQL")]
  {
    var words := ["Python", "Go", "SQL"];
    SkillsWords(title, words, line);
    WordListLine(title, words);
  }

  lemma SkillsWords(title: string, words: seq<string>, line: string)
    requires title == "SKILLS" && words == ["Python", "Go", "SQL"] && line == "Python, Go, SQL"
    ensures IsBulletSection(title) && Join(words, ", ") == line
    ensures forall k :: 0 <= k < |words| ==>
      words[k] != [] && Trimmed(words[k]) && |words[k]| <= MaxTokenLen && ',' !in words[k]
  {
    AsciiUpperFixed(title);
    assert words[1..] == ["Go", "SQL"];
    JoinTwo("Go", "SQL", ", ");
  }

  /** `"Led a team of 5 engineers."` in EXPERIENCE draws one paragraph. */
  lemma ExperienceLineExample(title: string, line: string)
    requires title == "EXPERIENCE" && line == "Led a team of 5 engineers."
    ensures LineCommands(title, line) == [Paragraph(line)]
  {
    ShortLineParagraph(title, line);
  }
}
