/** Worked examples of the section loop: when the generated text is written as section
    names each followed by free text, every body is that text, stripped. */
module ExtractionExample {
  import opened Seqs
  import opened PyStrings
  import opened Extractor

  /** An ASCII capital letter; every section name is written in them. */
  predicate IsCapital(c: char)
  {
    'A' <= c <= 'Z'
  }

  /** Every capital letter in `s` is followed, inside `s`, by a character that is not
      one: no two capitals stand side by side, and `s` does not end in one. */
  predicate NoCapitalPair(s: string)
  {
    forall j :: 0 <= j < |s| && IsCapital(s[j]) ==> j + 1 < |s| && !IsCapital(s[j + 1])
  }

  /** Every section name opens with two capitals. */
  lemma NamesCapital(k: nat)
    requires k < |Sections|
    ensures |Sections[k]| >= 2 && IsCapital(Sections[k][0]) && IsCapital(Sections[k][1])
  {
  }

  /** No section name starts inside a stretch without two capitals in a row. */
  lemma NoNameStartsIn(b: string, q: string)
    requires NoCapitalPair(b)
    ensures forall k, j :: 0 <= k < |Sections| && 0 <= j < |b| ==> !IsAt(b + q, Sections[k], j)
  {
    forall k, j | 0 <= k < |Sections| && 0 <= j < |b| ensures !IsAt(b + q, Sections[k], j) {
      NamesCapital(k);
      var w := Sections[k];
      if j + |w| <= |b + q| {
        assert (b + q)[j..j + |w|][0] == b[j] && (b + q)[j..j + |w|][1] == (b + q)[j + 1];
      }
    }
  }

  /** Two capitals that open a section name, in order. */
  predicate OpensName(c: char, d: char)
  {
    (c == 'S' && (d == 'U' || d == 'K')) || (c == 'E' && (d == 'X' || d == 'D')) || (c == 'P' && d == 'R')
  }

  /** Inside a section name, the pair that opens a name appears only at its start. */
  lemma NamePairs(k: nat)
    requires k < |Sections|
    ensures forall j :: 1 <= j < |Sections[k]| - 1 ==> !OpensName(Sections[k][j], Sections[k][j + 1])
  {
  }

  /** Every section name opens with one of the pairs `OpensName` lists. */
  lemma NamesOpen(m: nat)
    requires m < |Sections|
    ensures |Sections[m]| >= 2 && OpensName(Sections[m][0], Sections[m][1])
  {
  }

  /** A section name followed by a character that is not a capital holds no other
      name, and itself only at its start. */
  lemma NameAlone(k: nat, r: string, m: nat)
    requires k < |Sections| && m < |Sections|
    requires r != [] && !IsCapital(r[0])
    ensures forall j :: 0 <= j < |Sections[k]| && (j > 0 || m != k) ==> !IsAt(Sections[k] + r, Sections[m], j)
  {
    var w, pat := Sections[k], Sections[m];
    NamePairs(k);
    NamesOpen(m);
    NamesCapital(m);
    forall j | 0 <= j < |w| && (j > 0 || m != k) ensures !IsAt(w + r, pat, j) {
      if j + |pat| <= |w + r| {
        assert (w + r)[j..j + |pat|][0] == (w + r)[j] && (w + r)[j..j + |pat|][1] == (w + r)[j + 1];
        if j == 0 {
          assert Sections[k][..2] != Sections[m][..2];
        }
      }
    }
  }

  // ---------------------------------------------------------------------------
  // A text of three sections: SUMMARY, SKILLS and EXPERIENCE

  /** A body that opens with a character other than a capital, does not end in a capital
      and has no two capitals side by side. */
  predicate PlainBody(b: string)
  {
    b != [] && !IsCapital(b[0]) && NoCapitalPair(b)
  }

  /** The text SUMMARY b0 SKILLS b1 EXPERIENCE b2, split where the parts begin. */
  predicate ThreeSections(text: string, b0: string, b1: string, b2: string)
  {
    PlainBody(b0) && PlainBody(b1) && PlainBody(b2)
    && text == Sections[0] + (b0 + (Sections[1] + (b1 + (Sections[2] + b2))))
  }

  /** In a text of three sections the SUMMARY body is the first stretch, stripped. */
  lemma SummaryOfThree(text: string, b0: string, b1: string, b2: string)
    requires ThreeSections(text, b0, b1, b2)
    ensures Contains(text, Sections[0]) && Body(text, Sections[0]) == Strip(b0)
  {
    var r1b := b1 + (Sections[2] + b2);
    var r1 := Sections[1] + r1b;
    assert text == [] + Sections[0] + b0 + r1;
    NoNameStartsIn(b0, r1);
    NameAlone(1, r1b, 0);
    assert IsAt(r1, Sections[1], 0);
    BodyBetween(text, 0, [], b0, r1);
  }

  /** ... the SKILLS body is the second stretch, stripped. */
  lemma SkillsOfThree(text: string, b0: string, b1: string, b2: string)
    requires ThreeSections(text, b0, b1, b2)
    ensures Contains(text, Sections[1]) && Body(text, Sections[1]) == Strip(b1)
  {
    var r2 := Sections[2] + b2;
    var r1 := Sections[1] + (b1 + r2);
    var r0b := b0 + r1;
    assert text == (Sections[0] + b0) + Sections[1] + b1 + r2;
    NameAlone(0, r0b, 1);
    NoNameStartsIn(b0, r1);
    FreeAfter(Sections[0], r0b, Sections[1], |b0|);
    NoNameStartsIn(b1, r2);
    NameAlone(2, b2, 1);
    assert IsAt(r2, Sections[2], 0);
    BodyBetween(text, 1, Sections[0] + b0, b1, r2);
  }

  /** ... and the EXPERIENCE body is the last stretch, stripped. */
  lemma ExperienceOfThree(text: string, b0: string, b1: string, b2: string)
    requires ThreeSections(text, b0, b1, b2)
    ensures Contains(text, Sections[2]) && Body(text, Sections[2]) == Strip(b2)
  {
    var r2 := Sections[2] + b2;
    var r1b := b1 + r2;
    var r1 := Sections[1] + r1b;
    var r0b := b0 + r1;
    assert text == (Sections[0] + b0 + Sections[1] + b1) + Sections[2] + b2 + [];
    var pat := Sections[2];
    NameAlone(1, r1b, 2);
    NoNameStartsIn(b1, r2);
    FreeAfter(Sections[1], r1b, pat, |b1|);
    NoNameStartsIn(b0, r1);
    FreeAfter(b0, r1, pat, |Sections[1]| + |b1|);
    NameAlone(0, r0b, 2);
    FreeAfter(Sections[0], r0b, pat, |b0| + |Sections[1]| + |b1|);
    assert |Sections[0] + b0 + Sections[1] + b1| == |Sections[0]| + |b0| + |Sections[1]| + |b1|;
    NoNameStartsIn(b2, []);
    BodyBetween(text, 2, Sections[0] + b0 + Sections[1] + b1, b2, []);
  }

  /** Such a text holds neither PROJECTS nor EDUCATION anywhere. */
  lemma AbsentOfThree(text: string, b0: string, b1: string, b2: string, m: nat)
    requires ThreeSections(text, b0, b1, b2)
    requires m == 3 || m == 4
    ensures !Contains(text, Sections[m])
  {
    var r2 := Sections[2] + b2;
    var r1b := b1 + r2;
    var r1 := Sections[1] + r1b;
    var r0b := b0 + r1;
    var pat := Sections[m];
    NoNameStartsIn(b2, []);
    assert b2 + [] == b2;
    NameAlone(2, b2, m);
    FreeAfter(Sections[2], b2, pat, |b2|);
    NoNameStartsIn(b1, r2);
    FreeAfter(b1, r2, pat, |r2|);
    NameAlone(1, r1b, m);
    FreeAfter(Sections[1], r1b, pat, |r1b|);
    NoNameStartsIn(b0, r1);
    FreeAfter(b0, r1, pat, |r1|);
    NameAlone(0, r0b, m);
    FreeAfter(Sections[0], r0b, pat, |r0b|);
  }

  /** In such a text the titles drawn are SUMMARY, SKILLS and EXPERIENCE whenever
      no body strips to nothing. */
  lemma ShownOfThree(text: string, b0: string, b1: string, b2: string)
    requires ThreeSections(text, b0, b1, b2)
    requires !AllWhitespace(Strip(b0)) && !AllWhitespace(Strip(b1)) && !AllWhitespace(Strip(b2))
    ensures Shown(text, |Sections|) == [Sections[0], Sections[1], Sections[2]]
  {
    SectionsNamed(0);
    SectionsNamed(1);
    SectionsNamed(2);
    SummaryOfThree(text, b0, b1, b2);
    Drawn(text, Sections[0], b0);
    SkillsOfThree(text, b0, b1, b2);
    Drawn(text, Sections[1], b1);
    ExperienceOfThree(text, b0, b1, b2);
    Drawn(text, Sections[2], b2);
    AbsentOfThree(text, b0, b1, b2, 3);
    AbsentOfThree(text, b0, b1, b2, 4);
    ShownFive(text, |Sections|);
    Three(Sections[0], Sections[1], Sections[2]);
  }

  /** Three lines, each a name and its body, make up a text of three sections. */
  lemma ThreeLines(text: string, l0: string, l1: string, l2: string, b0: string, b1: string, b2: string)
    requires text == l0 + l1 + l2
    requires l0 == Sections[0] + b0 && l1 == Sections[1] + b1 && l2 == Sections[2] + b2
    requires PlainBody(b0) && PlainBody(b1) && PlainBody(b2)
    ensures ThreeSections(text, b0, b1, b2)
  {
    Assoc(Sections[2], b2, []);
    Assoc(Sections[1], b1, l2);
    Assoc(Sections[0], b0, Sections[1] + (b1 + l2));
    Assoc(l0, l1, l2);
  }

  // ---------------------------------------------------------------------------
  // The worked example: "SUMMARY Experienced engineer. SKILLS Python, Go EXPERIENCE Built stuff."

  /** The text "SUMMARY Experienced engineer. SKILLS Python, Go EXPERIENCE Built stuff.",
      written here as its three section lines: each of the three names gets the text
      that follows it, stripped, PROJECTS and EDUCATION are absent, and the titles
      drawn are SUMMARY, SKILLS and EXPERIENCE, in that order. */
  lemma ExampleDocument(text: string)
    requires text == "SUMMARY Experienced engineer. " + "SKILLS Python, Go " + "EXPERIENCE Built stuff."
    ensures Contains(text, "SUMMARY") && Body(text, "SUMMARY") == "Experienced engineer."
    ensures Contains(text, "SKILLS") && Body(text, "SKILLS") == "Python, Go"
    ensures Contains(text, "EXPERIENCE") && Body(text, "EXPERIENCE") == "Built stuff."
    ensures !Contains(text, "PROJECTS") && !Contains(text, "EDUCATION")
    ensures Shown(text, |Sections|) == ["SUMMARY", "SKILLS", "EXPERIENCE"]
  {
    var b0, b1, b2 := " Experienced engineer. ", " Python, Go ", " Built stuff.";
    ExampleSections(text, b0, b1, b2);
    ExampleStrip0(b0);
    ExampleStrip1(b1);
    ExampleStrip2(b2);
    SummaryOfThree(text, b0, b1, b2);
    SkillsOfThree(text, b0, b1, b2);
    ExperienceOfThree(text, b0, b1, b2);
    AbsentOfThree(text, b0, b1, b2, 3);
    AbsentOfThree(text, b0, b1, b2, 4);
    ShownOfThree(text, b0, b1, b2);
  }

  /** The worked example text, split into its three sections. */
  lemma ExampleSections(text: string, b0: string, b1: string, b2: string)
    requires text == "SUMMARY Experienced engineer. " + "SKILLS Python, Go " + "EXPERIENCE Built stuff."
    requires b0 == " Experienced engineer. " && b1 == " Python, Go " && b2 == " Built stuff."
    ensures ThreeSections(text, b0, b1, b2)
  {
    var l0, l1, l2 := "SUMMARY Experienced engineer. ", "SKILLS Python, Go ", "EXPERIENCE Built stuff.";
    ExampleLine0(l0, b0);
    ExampleLine1(l1, b1);
    ExampleLine2(l2, b2);
    ExampleBody0(b0);
    ExampleBody1(b1);
    ExampleBody2(b2);
    ThreeLines(text, l0, l1, l2, b0, b1, b2);
  }

  // The facts about the example's literals are split into one lemma per literal and per
  // fact: taken together, the solver's unrolling of the literals exceeds the resource limit.

  /** Each line of the example is its section name followed by its stretch of text. */
  lemma ExampleLine0(line: string, b: string)
    requires line == "SUMMARY Experienced engineer. " && b == " Experienced engineer. "
    ensures line == Sections[0] + b
  {
  }

  lemma ExampleLine1(line: string, b: string)
    requires line == "SKILLS Python, Go " && b == " Python, Go "
    ensures line == Sections[1] + b
  {
  }

  lemma ExampleLine2(line: string, b: string)
    requires line == "EXPERIENCE Built stuff." && b == " Built stuff."
    ensures line == Sections[2] + b
  {
  }

  /** Each stretch of the example opens with a space and has no two capitals in a row. */
  lemma ExampleBody0(b: string)
    requires b == " Experienced engineer. "
    ensures PlainBody(b)
  {
  }

  lemma ExampleBody1(b: string)
    requires b == " Python, Go "
    ensures PlainBody(b)
  {
  }

  lemma ExampleBody2(b: string)
    requires b == " Built stuff."
    ensures PlainBody(b)
  {
  }

  /** A body of one space, a trimmed text and at most one more space strips to that
      text. */
  lemma SpacedBody(b: string, mid: string, tail: string)
    requires b == " " + mid + tail && Trimmed(mid) && (tail == [] || tail == " ")
    ensures Strip(b) == mid && (mid != [] ==> !AllWhitespace(Strip(b)))
  {
    StripPadded(" ", mid, tail);
    if mid != [] {
      assert !IsWhitespace(mid[0]);
    }
  }

  /** Each stretch of the example strips to the text between its spaces. */
  lemma ExampleStrip0(b: string)
    requires b == " Experienced engineer. "
    ensures Strip(b) == "Experienced engineer."
  {
    SpacedBody(b, "Experienced engineer.", " ");
  }

  lemma ExampleStrip1(b: string)
    requires b == " Python, Go "
    ensures Strip(b) == "Python, Go"
  {
    SpacedBody(b, "Python, Go", " ");
  }

  lemma ExampleStrip2(b: string)
    requires b == " Built stuff."
    ensures Strip(b) == "Built stuff."
  {
    SpacedBody(b, "Built stuff.", []);
  }

  // ---------------------------------------------------------------------------
  // A worked example: "SUMMARY Hi SKILLS Go"

  /** The SUMMARY body of `"SUMMARY Hi SKILLS Go"` is `"Hi"`: the piece after the
      name is cut where SKILLS starts, then stripped. */
  lemma ExampleSummaryBody(text: string)
    requires text == "SUMMARY Hi SKILLS Go"
    ensures Body(text, "SUMMARY") == "Hi"
  {
    var rest := text[7..];
    ExampleSummaryPiece(text, rest);
    ExampleSummaryCut(rest);
    assert rest[..4] == " " + "Hi" + " ";
    StripPadded(" ", "Hi", " ");
  }

  lemma ExampleSummaryPiece(text: string, rest: string)
    requires text == "SUMMARY Hi SKILLS Go" && rest == text[7..]
    ensures Piece(text, "SUMMARY") == rest
  {
    var sec := "SUMMARY";
    assert text[..|sec|] == sec;
    assert IndexOf(text, sec) == Some(0);
    assert rest == " Hi SKILLS Go";
    forall j | 0 <= j ensures !IsAt(rest, sec, j) {
      if j + 7 <= |rest| {
        assert rest[j..j + 7][6] == rest[j + 6];
      }
    }
    assert IndexOf(rest, sec) == None;
    assert Split(text, sec) == [[]] + Split(rest, sec);
  }

  lemma ExampleSummaryCut(rest: string)
    requires rest == " Hi SKILLS Go"
    ensures Cut(rest, Sections) == 4
  {
    CutSpec(rest, Sections);
    assert IsAt(rest, Sections[1], 4) by {
      assert rest[4..10] == "SKILLS";
    }
    forall k, j | 0 <= k < |Sections| && 0 <= j < 4 ensures !IsAt(rest, Sections[k], j) {
      if j + |Sections[k]| <= |rest| {
        assert rest[j..j + |Sections[k]|][0] == rest[j];
      }
    }
  }

  /** The SKILLS body of the same text is `"Go"`: SKILLS is found after the SUMMARY
      body and its piece runs to the end of the text. */
  lemma ExampleSkillsBody(text: string)
    requires text == "SUMMARY Hi SKILLS Go"
    ensures Contains(text, "SKILLS") && Body(text, "SKILLS") == "Go"
  {
    var rest := text[17..];
    ExampleSkillsPiece(text, rest);
    CutSpec(rest, Sections);
    assert Cut(rest, Sections) == |rest|;
    assert rest[..|rest|] == " " + "Go" + [];
    StripPadded(" ", "Go", []);
  }

  lemma ExampleSkillsPiece(text: string, rest: string)
    requires text == "SUMMARY Hi SKILLS Go" && rest == text[17..]
    ensures Contains(text, "SKILLS") && Piece(text, "SKILLS") == rest
  {
    var sec := "SKILLS";
    assert text[11..17] == sec;
    forall j | 0 <= j < 11 ensures !IsAt(text, sec, j) {
      assert text[j..j + 6][0] == text[j] && text[j..j + 6][1] == text[j + 1];
    }
    IndexOfFirst(text, sec, 11);
    assert rest == " Go";
    assert IndexOf(rest, sec) == None;
    assert Split(text, sec) == [text[..11]] + Split(rest, sec);
  }

  // ---------------------------------------------------------------------------
  // A name that straddles the end of a piece

  /** In "SKILLS aPROJECTSKILLS b" the second SKILLS ends the piece at " aPROJECT",
      which holds no whole section name, so the body keeps the "PROJECT" that the
      later PROJECTS shares with it. */
  lemma StraddleBody(text: string)
    requires text == "SKILLS aPROJECT" + "SKILLS b"
    ensures Contains(text, "SKILLS") && Body(text, "SKILLS") == "aPROJECT"
  {
    var r, c, x := " aPROJECTSKILLS b", " aPROJECT", "aPROJECT";
    StraddleText(text, r);
    StraddlePiece(r, c);
    StraddleCut(c);
    SpacedBody(c, x, []);
    UncutBody(text, "SKILLS", r, c, x);
  }

  /** A name that opens the text, followed by a rest whose first piece holds no name
      at all, has that piece, stripped, for its body. */
  lemma UncutBody(text: string, sec: string, r: string, c: string, x: string)
    requires sec != [] && text == [] + sec + r
    requires Split(r, sec)[0] == c && Cut(c, Sections) == |c| && Strip(c) == x
    ensures Contains(text, sec) && Body(text, sec) == x
  {
    PieceAfter(text, sec, [], r);
    assert c[..|c|] == c;
  }

  /** The text is SKILLS followed by the rest. */
  lemma StraddleText(text: string, r: string)
    requires text == "SKILLS aPROJECT" + "SKILLS b" && r == " aPROJECTSKILLS b"
    ensures text == [] + "SKILLS" + r
  {
  }

  /** The first SKILLS after the opening one starts at index 9 of the rest. */
  lemma StraddlePiece(r: string, c: string)
    requires r == " aPROJECTSKILLS b" && c == " aPROJECT"
    ensures Split(r, "SKILLS")[0] == c
  {
    var sec := "SKILLS";
    assert r[9..15] == sec;
    forall j | 0 <= j < 9 ensures !IsAt(r, sec, j) {
      assert r[j..j + 6][0] == r[j];
    }
    IndexOfFirst(r, sec, 9);
    assert r[..9] == c;
  }

  /** " aPROJECT" is too short for PROJECTS and holds no other name. */
  lemma StraddleCut(c: string)
    requires c == " aPROJECT"
    ensures Cut(c, Sections) == |c|
  {
    assert |c| == 9 && c[0] == ' ' && c[1] == 'a' && c[2] == 'P' && c[3] == 'R';
    forall k, j | 0 <= k < |Sections| && 0 <= j < |c| ensures !IsAt(c, Sections[k], j) {
      NameLength(k);
      var w := Sections[k];
      if j + |w| <= |c| {
        assert c[j..j + |w|][0] == c[j];
      }
    }
    CutAt(c, |c|);
  }

  /** Every name is at least six characters long, and only PROJECTS, of eight, opens
      with P. */
  lemma NameLength(k: nat)
    requires k < |Sections|
    ensures |Sections[k]| >= 6 && (Sections[k][0] == 'P' ==> |Sections[k]| == 8)
    ensures Sections[k][0] != ' ' && Sections[k][0] != 'a' && Sections[k][0] != 'R'
  {
  }
}
