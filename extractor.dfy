/** The section loop of the résumé builder: finds each of the five fixed section names
    in the generated text and hands the text that follows it to `add_section`. */
module Extractor {
  import opened Seqs
  import opened PyStrings
  import opened PdfCommands
  import opened Renderer

  /** The section names, in the order the document draws them. */
  const Sections: seq<string> := ["SUMMARY", "SKILLS", "EXPERIENCE", "PROJECTS", "EDUCATION"]

  lemma SectionsNamed(k: nat)
    requires k < |Sections|
    ensures Sections[k] != []
  {
  }

  /** Where the inner loop leaves `next_sec_idx`: the first occurrence in `content` of
      the name met first among `names`, taking the smaller index at each step, or the
      length of `content` when none of them occurs. */
  function Cut(content: string, names: seq<string>): (n: nat)
    ensures n <= |content|
    decreases |names|
  {
    if names == [] then |content|
    else
      var n := Cut(content, names[..|names| - 1]);
      match IndexOf(content, names[|names| - 1])
      case Some(i) => if i < n then i else n
      case None => n
  }

  /** The cut is the first index at which any of the names starts: none starts before
      it, and one starts at it unless it is the end of `content`. */
  lemma {:induction false} CutSpec(content: string, names: seq<string>)
    ensures forall k, j :: 0 <= k < |names| && 0 <= j < Cut(content, names) ==> !IsAt(content, names[k], j)
    ensures Cut(content, names) < |content| ==>
      exists k :: 0 <= k < |names| && IsAt(content, names[k], Cut(content, names))
    decreases |names|
  {
    if names != [] {
      var pre, last := names[..|names| - 1], names[|names| - 1];
      CutSpec(content, pre);
      assert forall k :: 0 <= k < |pre| ==> names[k] == pre[k];
    }
  }

  /** The converse: an index before which no name starts, and at which one starts or
      the content ends, is the cut. */
  lemma CutAt(content: string, n: nat)
    requires n <= |content|
    requires forall k, j :: 0 <= k < |Sections| && 0 <= j < n ==> !IsAt(content, Sections[k], j)
    requires n == |content| || exists k :: 0 <= k < |Sections| && IsAt(content, Sections[k], n)
    ensures Cut(content, Sections) == n
  {
    CutSpec(content, Sections);
  }

  /** The inner loop of the section loop: `next_sec_idx` starts at `len(content)` and
      drops to the index of every section name found earlier in `content`. */
  method NextSectionIndex(content: string) returns (next: nat)
    ensures next == Cut(content, Sections)
  {
    next := |content|;
    for i := 0 to |Sections|
      invariant next == Cut(content, Sections[..i])
    {
      var s := Sections[i];
      if Contains(content, s) {
        var idx := IndexOf(content, s).value;
        if idx < next {
          next := idx;
        }
      }
      assert Sections[..i + 1][..i] == Sections[..i];
    }
    assert Sections[..|Sections|] == Sections;
  }

  /** `text.split(sec)[1]`: what follows the first occurrence of `sec`, up to its second
      occurrence or the end of the text. */
  function Piece(text: string, sec: string): string
    requires sec != [] && Contains(text, sec)
  {
    Split(text, sec)[1]
  }

  /** The body handed to `add_section` for a section name found in the text: its piece,
      cut at the first section name in it, stripped. */
  function Body(text: string, sec: string): string
    requires sec != [] && Contains(text, sec)
  {
    var content := Piece(text, sec);
    Strip(content[..Cut(content, Sections)])
  }

  /** What one pass of the section loop draws. */
  function SectionOut(text: string, sec: string): seq<Command>
    requires sec != []
  {
    if Contains(text, sec) then SectionCommands(sec, Body(text, sec)) else []
  }

  /** What the first `count` passes of the section loop draw. */
  function Rendered(text: string, count: nat): seq<Command>
    requires count <= |Sections|
  {
    if count == 0 then [] else Rendered(text, count - 1) + SectionOut(text, Sections[count - 1])
  }

  /** The section loop: each name that occurs in the text has its body drawn by
      `add_section`, in the fixed order of the names. */
  method RenderSections(pdf: Pdf, text: string)
    modifies pdf
    ensures pdf.commands == old(pdf.commands) + Rendered(text, |Sections|)
  {
    ghost var start := pdf.commands;
    for i := 0 to |Sections|
      invariant pdf.commands == start + Rendered(text, i)
    {
      var sec := Sections[i];
      if Contains(text, sec) {
        var content := Split(text, sec)[1];
        var next := NextSectionIndex(content);
        AddSection(pdf, sec, Strip(content[..next]));
      }
      Assoc(start, Rendered(text, i), SectionOut(text, sec));
    }
  }

  // ---------------------------------------------------------------------------
  // Properties

  /** The piece after a name is the text that follows its first occurrence, up to the
      next occurrence of the name or the end of the text; the name is not in it. */
  lemma PieceSpec(text: string, sec: string)
    requires sec != [] && Contains(text, sec)
    ensures var i := IndexOf(text, sec).value; var rest := text[i + |sec|..]; var p := Piece(text, sec);
      IsAt(text, sec, i) && (forall j :: 0 <= j < i ==> !IsAt(text, sec, j))
      && |p| <= |rest| && p == rest[..|p|] && !Contains(p, sec)
      && (|p| == |rest| || IsAt(rest, sec, |p|))
      && forall j :: 0 <= j < |p| ==> !IsAt(rest, sec, j)
  {
    var i := IndexOf(text, sec).value;
    SplitHead(text[i + |sec|..], sec);
  }

  /** The piece after a name's first occurrence is the first part of the split of what
      follows that occurrence. */
  lemma PieceAfter(text: string, sec: string, p: string, r: string)
    requires sec != [] && text == p + sec + r
    requires forall j :: 0 <= j < |p| ==> !IsAt(text, sec, j)
    ensures Contains(text, sec) && Piece(text, sec) == Split(r, sec)[0]
  {
    Parts3(p, sec, r);
    IndexOfFirst(text, sec, |p|);
    assert r == text[|p| + |sec|..];
  }

  /** What may follow a section body: the end of the text, the section's own name
      again, or another name in which the section's name starts nowhere. */
  predicate NextSection(q: string, sec: string)
  {
    q == [] || IsAt(q, sec, 0)
    || exists k :: 0 <= k < |Sections| && IsAt(q, Sections[k], 0)
         && forall j :: 0 <= j < |Sections[k]| ==> !IsAt(q, sec, j)
  }

  /** A stretch in which no name starts, followed by what `NextSection` allows, is
      where the piece of name `m` is cut. */
  lemma HeadCut(b: string, q: string, m: nat)
    requires m < |Sections|
    requires forall k, j :: 0 <= k < |Sections| && 0 <= j < |b| ==> !IsAt(b + q, Sections[k], j)
    requires NextSection(q, Sections[m])
    ensures var c := Split(b + q, Sections[m])[0]; |b| <= |c| && c[..|b|] == b && Cut(c, Sections) == |b|
  {
    var sec, rest := Sections[m], b + q;
    SectionsNamed(m);
    SplitHead(rest, sec);
    var c := Split(rest, sec)[0];
    assert |c| >= |b|;
    forall k, j | 0 <= k < |Sections| && 0 <= j < |b| && IsAt(c, Sections[k], j) ensures false {
      IsAtSlice(rest, Sections[k], 0, |c|, j);
    }
    if q != [] {
      if IsAt(q, sec, 0) {
        IsAtAfter(b, q, sec, 0);
      } else {
        var k :| 0 <= k < |Sections| && IsAt(q, Sections[k], 0)
          && forall j :: 0 <= j < |Sections[k]| ==> !IsAt(q, sec, j);
        NameInHead(b, q, sec, Sections[k], c);
      }
    }
    CutAt(c, |b|);
    assert c[..|b|] == rest[..|b|] == b;
  }

  /** A name that opens `q` and that `sec` does not overlap lies whole inside any
      prefix of `b + q` that reaches past `b` and stops only at `sec` or the end. */
  lemma NameInHead(b: string, q: string, sec: string, name: string, c: string)
    requires IsAt(q, name, 0) && forall j :: 0 <= j < |name| ==> !IsAt(q, sec, j)
    requires |b| <= |c| <= |b + q| && c == (b + q)[..|c|]
    requires |c| == |b + q| || IsAt(b + q, sec, |c|)
    ensures IsAt(c, name, |b|)
  {
    IsAtAfter(b, q, name, 0);
    if |c| < |b + q| && |c| < |b| + |name| {
      IsAtAfter(b, q, sec, |c| - |b|);
    }
    assert c[|b|..|b| + |name|] == (b + q)[|b|..|b| + |name|];
  }

  /** The section rule in general: a name whose first occurrence is followed by a
      stretch in which no name starts, then by the end of the text or by a name it does
      not overlap, has that stretch, stripped, for its body. */
  lemma BodyBetween(text: string, m: nat, p: string, b: string, q: string)
    requires m < |Sections|
    requires text == p + Sections[m] + b + q
    requires forall j :: 0 <= j < |p| ==> !IsAt(text, Sections[m], j)
    requires forall k, j :: 0 <= k < |Sections| && 0 <= j < |b| ==> !IsAt(b + q, Sections[k], j)
    requires NextSection(q, Sections[m])
    ensures Contains(text, Sections[m]) && Body(text, Sections[m]) == Strip(b)
  {
    SectionsNamed(m);
    Assoc(p + Sections[m], b, q);
    PieceAfter(text, Sections[m], p, b + q);
    HeadCut(b, q, m);
  }

  /** A body holds none of the five section names. */
  lemma BodyFreeOfNames(text: string, sec: string)
    requires sec != [] && Contains(text, sec)
    ensures forall k :: 0 <= k < |Sections| ==> !Contains(Body(text, sec), Sections[k])
  {
    var c := Piece(text, sec);
    var n := Cut(c, Sections);
    var x := c[..n];
    CutSpec(c, Sections);
    StripShape(x);
    var a, b := StripStart(x), StripEnd(x);
    SliceOfSlice(c, 0, n, a, b);
    var body := c[a..b];
    assert Body(text, sec) == body;
    forall k | 0 <= k < |Sections| ensures !Contains(body, Sections[k]) {
      SectionsNamed(k);
      assert forall j :: a <= j < b ==> !IsAt(c, Sections[k], j);
      AbsentInSlice(c, Sections[k], a, b);
    }
  }

  /** The section titles among drawing commands, in order. */
  function Titles(cmds: seq<Command>): seq<string>
    decreases |cmds|
  {
    if cmds == [] then [] else (if cmds[0].Header? then [cmds[0].title] else []) + Titles(cmds[1..])
  }

  lemma {:induction false} TitlesConcat(a: seq<Command>, b: seq<Command>)
    ensures Titles(a + b) == Titles(a) + Titles(b)
    decreases |a|
  {
    if a != [] {
      TailConcat(a, b);
      TitlesConcat(a[1..], b);
      Assoc(if a[0].Header? then [a[0].title] else [], Titles(a[1..]), Titles(b));
    } else {
      assert a + b == b;
    }
  }

  lemma {:induction false} TitlesNone(cmds: seq<Command>)
    requires forall c :: c in cmds ==> !c.Header?
    ensures Titles(cmds) == []
    decreases |cmds|
  {
    if cmds != [] {
      assert cmds[0] in cmds;
      assert forall c :: c in cmds[1..] ==> c in cmds;
      TitlesNone(cmds[1..]);
    }
  }

  /** A section shows its title once when its body is not blank, and not at all
      otherwise. */
  lemma SectionTitles(title: string, content: string)
    ensures Titles(SectionCommands(title, content)) == if AllWhitespace(content) then [] else [title]
  {
    BlankSectionDrawsNothing(title, content);
    if !AllWhitespace(content) {
      var body := BodyCommands(title, Split(content, "\n"));
      BodyDrawsText(title, Split(content, "\n"));
      TitlesNone(body);
      TitlesConcat([Header(title)], body);
      TitlesConcat([Header(title)] + body, [Separator]);
      assert Titles([Header(title)]) == [title];
      assert Titles([Separator]) == [];
    }
  }

  /** The first `count` section names, in their fixed order, that occur in the text
      and whose body is not blank. */
  function Shown(text: string, count: nat): seq<string>
    requires count <= |Sections|
  {
    if count == 0 then []
    else
      var sec := Sections[count - 1];
      Shown(text, count - 1) + ShownOne(text, sec)
  }

  /** The name of a section as a one-element list when its title is drawn. */
  function ShownOne(text: string, sec: string): seq<string>
    requires sec != []
  {
    if Contains(text, sec) && !AllWhitespace(Body(text, sec)) then [sec] else []
  }

  /** A name is shown when it occurs with a body that does not strip to nothing. */
  lemma Drawn(text: string, sec: string, b: string)
    requires sec != [] && Contains(text, sec) && Body(text, sec) == Strip(b)
    requires !AllWhitespace(Strip(b))
    ensures ShownOne(text, sec) == [sec]
  {
  }

  // The number of names is a parameter so that the solver does not unroll `Shown` on the
  // literal 5; the requires ties it to the list of names.

  /** The names shown after all five passes, name by name. */
  lemma ShownFive(text: string, n: nat)
    requires n == |Sections|
    ensures Shown(text, n) == ShownOne(text, Sections[n - 5]) + ShownOne(text, Sections[n - 4])
      + ShownOne(text, Sections[n - 3]) + ShownOne(text, Sections[n - 2]) + ShownOne(text, Sections[n - 1])
  {
    var s0, s1, s2 := ShownOne(text, Sections[n - 5]), ShownOne(text, Sections[n - 4]), ShownOne(text, Sections[n - 3]);
    var s3, s4 := ShownOne(text, Sections[n - 2]), ShownOne(text, Sections[n - 1]);
    assert Shown(text, n - 5) == [];
    assert Shown(text, n - 4) == [] + s0 == s0;
    assert Shown(text, n - 3) == s0 + s1;
    assert Shown(text, n - 2) == s0 + s1 + s2;
    assert Shown(text, n - 1) == s0 + s1 + s2 + s3;
  }

  /** Sections are drawn in the fixed order SUMMARY, SKILLS, EXPERIENCE, PROJECTS,
      EDUCATION, whatever their order in the text: the titles drawn are exactly the
      names that occur in the text with a non-blank body, in that order. */
  lemma {:induction false} TitlesInOrder(text: string, count: nat)
    requires count <= |Sections|
    ensures Titles(Rendered(text, count)) == Shown(text, count)
  {
    if count > 0 {
      var sec := Sections[count - 1];
      TitlesInOrder(text, count - 1);
      SectionsNamed(count - 1);
      TitlesConcat(Rendered(text, count - 1), SectionOut(text, sec));
      SectionOutTitles(text, sec);
    }
  }

  lemma SectionOutTitles(text: string, sec: string)
    requires sec != []
    ensures Titles(SectionOut(text, sec)) == ShownOne(text, sec)
  {
    if Contains(text, sec) {
      SectionTitles(sec, Body(text, sec));
    }
  }

  /** A text that holds none of the section names draws no section at all. */
  lemma {:induction false} NoNamesNoSections(text: string, count: nat)
    requires count <= |Sections|
    requires forall k :: 0 <= k < |Sections| ==> !Contains(text, Sections[k])
    ensures Rendered(text, count) == []
  {
    if count > 0 {
      NoNamesNoSections(text, count - 1);
    }
  }

  /** A section draws only a title, paragraphs, bullets and a closing rule. */
  lemma SectionDrawsBody(title: string, content: string)
    ensures forall c :: c in SectionCommands(title, content) ==>
      c.Header? || c.Paragraph? || c.Bullet? || c.Separator?
  {
    if !AllWhitespace(content) {
      SectionShape(title, content);
      var s := SectionCommands(title, content);
      forall c | c in s ensures c.Header? || c.Paragraph? || c.Bullet? || c.Separator? {
        var k :| 0 <= k < |s| && s[k] == c;
      }
    } else {
      BlankSectionDrawsNothing(title, content);
    }
  }

  /** The section loop draws only titles, paragraphs, bullets and closing rules. */
  lemma {:induction false} RenderedDrawsSections(text: string, count: nat)
    requires count <= |Sections|
    ensures forall c :: c in Rendered(text, count) ==>
      c.Header? || c.Paragraph? || c.Bullet? || c.Separator?
  {
    if count > 0 {
      var sec := Sections[count - 1];
      RenderedDrawsSections(text, count - 1);
      SectionsNamed(count - 1);
      if Contains(text, sec) {
        SectionDrawsBody(sec, Body(text, sec));
      }
    }
  }
}
