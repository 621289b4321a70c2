/** `safe_pdf_line`: breaks every space-delimited token longer than the token limit
    into fixed-size chunks joined by U+200B, so that the PDF renderer can wrap it. */
module Sanitizer {
  import opened PyStrings
  import opened Seqs

  /** U+200B ZERO WIDTH SPACE, the joiner put between the chunks of a long token. */
  const ZWSP: char := '\U{200B}'

  /** The default `max_token_len`, the only value the program passes. */
  const MaxTokenLen: nat := 50

  /** `[word[i:i+L] for i in range(0, len(word), L)]`. */
  function Chunks(w: string, L: nat): seq<string>
    requires L >= 1
    decreases |w|
  {
    if w == [] then []
    else
      var n := if |w| < L then |w| else L;
      [w[..n]] + Chunks(w[n..], L)
  }

  /** What the loop appends for one token (before its trailing space). */
  function SanitizeToken(w: string, L: nat): string
    requires L >= 1
  {
    if |w| > L then Join(Chunks(w, L), [ZWSP]) else w
  }

  /** Every token sanitised, in order. */
  function SanitizeAll(words: seq<string>, L: nat): (r: seq<string>)
    requires L >= 1
    ensures |r| == |words|
    ensures forall k :: 0 <= k < |words| ==> r[k] == SanitizeToken(words[k], L)
    decreases |words|
  {
    if words == [] then [] else [SanitizeToken(words[0], L)] + SanitizeAll(words[1..], L)
  }

  /** What `safe_pdf_line(line, L)` returns: the sanitised tokens of `line.split(" ")`
      joined by single spaces, then stripped. */
  function SafeLine(line: string, L: nat): string
    requires L >= 1
  {
    Strip(Join(SanitizeAll(Split(line, " "), L), " "))
  }

  /** `line` with every U+200B deleted. */
  function RemoveZwsp(s: string): string
    decreases |s|
  {
    if s == [] then [] else (if s[0] == ZWSP then [] else [s[0]]) + RemoveZwsp(s[1..])
  }

  /** The loop of `safe_pdf_line`: it appends each sanitised token and a space, and
      strips the accumulated line at the end. */
  method SafePdfLine(line: string, maxTokenLen: nat) returns (safeLine: string)
    requires maxTokenLen >= 1
    ensures safeLine == SafeLine(line, maxTokenLen)
    ensures Trimmed(safeLine)
  {
    var words := Split(line, " ");
    ghost var san := SanitizeAll(words, maxTokenLen);
    safeLine := "";
    for i := 0 to |words|
      invariant i == 0 ==> safeLine == ""
      invariant i > 0 ==> safeLine == Join(san[..i], " ") + " "
    {
      var word := words[i];
      if |word| > maxTokenLen {
        var newWord := Join(Chunks(word, maxTokenLen), [ZWSP]);
        safeLine := safeLine + newWord + " ";
      } else {
        safeLine := safeLine + word + " ";
      }
      PrefixSnoc(san, i);
      if i > 0 {
        JoinSnoc(san[..i], san[i], " ");
      }
    }
    assert san[..|words|] == san;
    ghost var joined := Join(san, " ");
    assert safeLine == [] + joined + " ";
    StripAbsorbsPadding([], joined, " ");
    safeLine := Strip(safeLine);
  }

  // ---------------------------------------------------------------------------
  // Chunking of one long token

  lemma MulStep(a: nat, L: nat)
    ensures (a + 1) * L == a * L + L
  {
  }

  /** A non-empty token becomes ceil(len/L) chunks, that is n chunks with
      (n - 1) * L < len <= n * L: all of length L except the last, which has
      1 to L characters, and together they spell the token. */
  lemma {:induction false} ChunksExact(w: string, L: nat)
    requires L >= 1 && |w| >= 1
    ensures var c := Chunks(w, L);
      |c| >= 1 && (|c| - 1) * L < |w| <= |c| * L
      && (forall k :: 0 <= k < |c| - 1 ==> |c[k]| == L)
      && 1 <= |c[|c| - 1]| <= L
      && Join(c, []) == w
    decreases |w|
  {
    var c := Chunks(w, L);
    if |w| <= L {
      var n := if |w| < L then |w| else L;
      assert n == |w| && w[..n] == w && w[n..] == [];
      assert c == [w] + Chunks([], L);
    } else {
      var rest := Chunks(w[L..], L);
      assert c == [w[..L]] + rest;
      ChunksExact(w[L..], L);
      MulStep(|rest| - 1, L);
      MulStep(|rest|, L);
      assert c[1..] == rest;
      assert Join(c, []) == w[..L] + [] + Join(rest, []);
      assert w == w[..L] + w[L..];
    }
  }

  /** Every chunk is non-empty and made of the token's characters. */
  lemma {:induction false} ChunkChars(w: string, L: nat)
    requires L >= 1
    ensures forall k :: 0 <= k < |Chunks(w, L)| ==> Chunks(w, L)[k] != []
    ensures forall k, ch :: 0 <= k < |Chunks(w, L)| && ch in Chunks(w, L)[k] ==> ch in w
    decreases |w|
  {
    if w != [] {
      var n := if |w| < L then |w| else L;
      ChunkChars(w[n..], L);
      var c := Chunks(w, L);
      assert c == [w[..n]] + Chunks(w[n..], L);
      forall k, ch | 0 <= k < |c| && ch in c[k] ensures ch in w {
        if k == 0 {
          var j :| 0 <= j < n && w[..n][j] == ch;
          assert w[j] == ch;
        } else {
          assert c[k] == Chunks(w[n..], L)[k - 1];
          assert ch in w[n..];
          var j :| 0 <= j < |w| - n && w[n..][j] == ch;
          assert w[n + j] == ch;
        }
      }
    }
  }

  // ---------------------------------------------------------------------------
  // Deleting the joiners

  lemma {:induction false} RemoveZwspConcat(a: string, b: string)
    ensures RemoveZwsp(a + b) == RemoveZwsp(a) + RemoveZwsp(b)
    decreases |a|
  {
    if a == [] {
      assert a + b == b;
    } else {
      assert (a + b)[0] == a[0];
      assert (a + b)[1..] == a[1..] + b;
      RemoveZwspConcat(a[1..], b);
    }
  }

  lemma {:induction false} RemoveZwspAbsent(s: string)
    requires ZWSP !in s
    ensures RemoveZwsp(s) == s
    decreases |s|
  {
    if s != [] {
      assert s[0] != ZWSP;
      assert ZWSP !in s[1..];
      RemoveZwspAbsent(s[1..]);
    }
  }

  lemma WhitespaceHasNoZwsp(s: string)
    requires AllWhitespace(s)
    ensures ZWSP !in s
  {
    assert !IsWhitespace(ZWSP);
  }

  /** Joining U+200B-free pieces with U+200B inserts exactly one joiner between two
      neighbours, and deleting the joiners concatenates the pieces. */
  lemma {:induction false} JoinWithZwsp(cs: seq<string>)
    requires |cs| >= 1
    requires forall k :: 0 <= k < |cs| ==> ZWSP !in cs[k]
    ensures CountChar(Join(cs, [ZWSP]), ZWSP) == |cs| - 1
    ensures RemoveZwsp(Join(cs, [ZWSP])) == Join(cs, [])
    decreases |cs|
  {
    CountAbsent(cs[0], ZWSP);
    RemoveZwspAbsent(cs[0]);
    if |cs| > 1 {
      var rest := Join(cs[1..], [ZWSP]);
      JoinWithZwsp(cs[1..]);
      assert Join(cs, [ZWSP]) == cs[0] + [ZWSP] + rest;
      Assoc(cs[0], [ZWSP], rest);
      CountConcat(cs[0], [ZWSP] + rest, ZWSP);
      ConsTail(ZWSP, rest);
      RemoveZwspConcat(cs[0], [ZWSP] + rest);
      assert RemoveZwsp([ZWSP] + rest) == RemoveZwsp(rest);
      assert Join(cs, []) == cs[0] + [] + Join(cs[1..], []);
    }
  }

  /** A long U+200B-free token gains exactly ceil(len/L) - 1 joiners, and deleting
      them gives the token back. */
  lemma LongTokenJoiners(w: string, L: nat)
    requires L >= 1 && |w| > L && ZWSP !in w
    ensures var n := |Chunks(w, L)|; (n - 1) * L < |w| <= n * L
    ensures CountChar(SanitizeToken(w, L), ZWSP) == |Chunks(w, L)| - 1
    ensures RemoveZwsp(SanitizeToken(w, L)) == w
  {
    ChunksExact(w, L);
    ChunkChars(w, L);
    JoinWithZwsp(Chunks(w, L));
  }

  lemma SanitizeTokenRemove(t: string, L: nat)
    requires L >= 1 && ZWSP !in t
    ensures RemoveZwsp(SanitizeToken(t, L)) == t
  {
    if |t| > L {
      LongTokenJoiners(t, L);
    } else {
      RemoveZwspAbsent(t);
    }
  }

  lemma {:induction false} JoinHasPieceChars(ps: seq<string>, sep: string, k: nat, ch: char)
    requires k < |ps| && ch in ps[k]
    ensures ch in Join(ps, sep)
    decreases |ps|
  {
    if |ps| > 1 {
      if k > 0 {
        JoinHasPieceChars(ps[1..], sep, k - 1, ch);
      }
      assert Join(ps, sep) == ps[0] + sep + Join(ps[1..], sep);
    }
  }

  /** Deleting the joiners from a space-joined list of sanitised U+200B-free tokens
      gives the original tokens joined by spaces. */
  lemma {:induction false} RemoveZwspJoin(ts: seq<string>, L: nat)
    requires L >= 1
    requires forall k :: 0 <= k < |ts| ==> ZWSP !in ts[k]
    ensures RemoveZwsp(Join(SanitizeAll(ts, L), " ")) == Join(ts, " ")
    decreases |ts|
  {
    if |ts| == 1 {
      SanitizeTokenRemove(ts[0], L);
    } else if |ts| > 1 {
      var san := SanitizeAll(ts, L);
      assert SanitizeAll(ts[1..], L) == san[1..];
      RemoveZwspJoin(ts[1..], L);
      SanitizeTokenRemove(ts[0], L);
      var tail := Join(san[1..], " ");
      assert Join(san, " ") == san[0] + " " + tail;
      Assoc(san[0], " ", tail);
      RemoveZwspConcat(san[0], " " + tail);
      RemoveZwspConcat(" ", tail);
    }
  }

  /** Before the final strip, deleting the joiners gives the input line back. */
  lemma RemoveZwspJoinedLine(line: string, L: nat)
    requires L >= 1 && ZWSP !in line
    ensures RemoveZwsp(Join(SanitizeAll(Split(line, " "), L), " ")) == line
  {
    var ts := Split(line, " ");
    SplitSpec(line, " ");
    forall k | 0 <= k < |ts| ensures ZWSP !in ts[k] {
      if ZWSP in ts[k] {
        JoinHasPieceChars(ts, " ", k, ZWSP);
      }
    }
    RemoveZwspJoin(ts, L);
  }

  // ---------------------------------------------------------------------------
  // Properties of safe_pdf_line

  /** Tokens no longer than the limit are copied unchanged, so a line with only short
      tokens and no surrounding whitespace comes back identical. */
  lemma ShortTokensUnchanged(line: string, L: nat)
    requires L >= 1 && Trimmed(line)
    requires forall k :: 0 <= k < |Split(line, " ")| ==> |Split(line, " ")[k]| <= L
    ensures SafeLine(line, L) == line
  {
    var ts := Split(line, " ");
    SplitSpec(line, " ");
    assert SanitizeAll(ts, L) == ts;
    assert [] + line + [] == line;
    StripPadded([], line, []);
  }

  /** A trimmed line no longer than the limit comes back identical. */
  lemma ShortLineUnchanged(line: string, L: nat)
    requires L >= 1 && Trimmed(line) && |line| <= L
    ensures SafeLine(line, L) == line
  {
    SplitSpec(line, " ");
    forall k | 0 <= k < |Split(line, " ")| ensures |Split(line, " ")[k]| <= L {
      JoinPieceLength(Split(line, " "), " ", k);
    }
    ShortTokensUnchanged(line, L);
  }

  /** Deleting the joiners from a string is deleting them from what `strip()` keeps:
      the whitespace around it holds none. */
  lemma RemoveZwspAroundStrip(j: string)
    ensures RemoveZwsp(j) == j[..StripStart(j)] + RemoveZwsp(Strip(j)) + j[StripEnd(j)..]
  {
    var i, k := StripStart(j), StripEnd(j);
    StripShape(j);
    var a, r, b := j[..i], Strip(j), j[k..];
    Pieces(j, i, k);
    RemoveZwspConcat(a + r, b);
    RemoveZwspConcat(a, r);
    WhitespaceHasNoZwsp(a);
    WhitespaceHasNoZwsp(b);
    RemoveZwspAbsent(a);
    RemoveZwspAbsent(b);
  }

  /** Apart from whitespace at its two ends, deleting the joiners from the result
      gives the input, for any input free of U+200B. */
  lemma SafeLineKeepsText(line: string, L: nat)
    requires L >= 1 && ZWSP !in line
    ensures Strip(RemoveZwsp(SafeLine(line, L))) == Strip(line)
  {
    var j := Join(SanitizeAll(Split(line, " "), L), " ");
    RemoveZwspJoinedLine(line, L);
    RemoveZwspAroundStrip(j);
    StripShape(j);
    StripAbsorbsPadding(j[..StripStart(j)], RemoveZwsp(Strip(j)), j[StripEnd(j)..]);
  }

  /** No long token of `line` contains whitespace (spaces never do: they delimit). */
  predicate LongTokensSolid(line: string, L: nat)
  {
    forall k, j :: 0 <= k < |Split(line, " ")| && |Split(line, " ")[k]| > L && 0 <= j < |Split(line, " ")[k]|
      ==> !IsWhitespace(Split(line, " ")[k][j])
  }

  predicate JoinerAt(s: string, k: int)
  {
    0 <= k < |s| && s[k] == ZWSP
  }

  /** Every U+200B has a neighbour on each side, neither of them whitespace. */
  ghost predicate Guarded(s: string)
  {
    forall k {:trigger JoinerAt(s, k)} :: JoinerAt(s, k) ==> 0 < k < |s| - 1 && !IsWhitespace(s[k - 1]) && !IsWhitespace(s[k + 1])
  }

  lemma GuardedConcat(a: string, b: string)
    requires Guarded(a) && Guarded(b)
    ensures Guarded(a + b)
  {
    forall k | JoinerAt(a + b, k)
      ensures 0 < k < |a + b| - 1 && !IsWhitespace((a + b)[k - 1]) && !IsWhitespace((a + b)[k + 1])
    {
      if k < |a| {
        assert JoinerAt(a, k);
        assert (a + b)[k - 1] == a[k - 1] && (a + b)[k + 1] == a[k + 1];
      } else {
        assert JoinerAt(b, k - |a|);
        assert (a + b)[k - 1] == b[k - |a| - 1] && (a + b)[k + 1] == b[k - |a| + 1];
      }
    }
  }

  lemma GuardedAroundJoiner(a: string, b: string)
    requires Guarded(a) && Guarded(b) && a != [] && b != []
    requires !IsWhitespace(a[|a| - 1]) && !IsWhitespace(b[0])
    ensures Guarded(a + [ZWSP] + b)
  {
    var s := a + [ZWSP] + b;
    forall k | JoinerAt(s, k)
      ensures 0 < k < |s| - 1 && !IsWhitespace(s[k - 1]) && !IsWhitespace(s[k + 1])
    {
      if k < |a| {
        assert JoinerAt(a, k);
        assert s[k - 1] == a[k - 1] && s[k + 1] == a[k + 1];
      } else if k == |a| {
        assert s[k - 1] == a[|a| - 1] && s[k + 1] == b[0];
      } else {
        assert JoinerAt(b, k - |a| - 1);
        assert s[k - 1] == b[k - |a| - 2] && s[k + 1] == b[k - |a|];
      }
    }
  }

  /** Chunks made of non-whitespace characters other than U+200B, joined by U+200B. */
  lemma {:induction false} GuardedChunkJoin(cs: seq<string>)
    requires |cs| >= 1
    requires forall k :: 0 <= k < |cs| ==> cs[k] != []
    requires forall k, j :: 0 <= k < |cs| && 0 <= j < |cs[k]| ==> !IsWhitespace(cs[k][j]) && cs[k][j] != ZWSP
    ensures Join(cs, [ZWSP]) != [] && !IsWhitespace(Join(cs, [ZWSP])[0])
    ensures Guarded(Join(cs, [ZWSP]))
    decreases |cs|
  {
    var c := cs[0];
    assert c[0] == cs[0][0] && c[|c| - 1] == cs[0][|c| - 1];
    assert Guarded(c) by {
      forall k | 0 <= k < |c| ensures !JoinerAt(c, k) {
        assert c[k] == cs[0][k];
      }
    }
    if |cs| > 1 {
      GuardedChunkJoin(cs[1..]);
      GuardedAroundJoiner(c, Join(cs[1..], [ZWSP]));
    }
  }

  lemma GuardedToken(t: string, L: nat)
    requires L >= 1 && ZWSP !in t
    requires |t| > L ==> forall j :: 0 <= j < |t| ==> !IsWhitespace(t[j])
    ensures Guarded(SanitizeToken(t, L))
  {
    if |t| > L {
      var cs := Chunks(t, L);
      ChunkChars(t, L);
      forall k, j | 0 <= k < |cs| && 0 <= j < |cs[k]|
        ensures !IsWhitespace(cs[k][j]) && cs[k][j] != ZWSP
      {
        assert cs[k][j] in cs[k];
        assert cs[k][j] in t;
        var m :| 0 <= m < |t| && t[m] == cs[k][j];
      }
      GuardedChunkJoin(cs);
    }
  }

  lemma {:induction false} GuardedJoin(ps: seq<string>, sep: string)
    requires Guarded(sep)
    requires forall k :: 0 <= k < |ps| ==> Guarded(ps[k])
    ensures Guarded(Join(ps, sep))
    decreases |ps|
  {
    if |ps| > 1 {
      GuardedJoin(ps[1..], sep);
      GuardedConcat(ps[0], sep);
      GuardedConcat(ps[0] + sep, Join(ps[1..], sep));
    }
  }

  lemma RemoveZwspEnds(r: string)
    requires r != [] && r[0] != ZWSP && r[|r| - 1] != ZWSP
    ensures var d := RemoveZwsp(r); d != [] && d[0] == r[0] && d[|d| - 1] == r[|r| - 1]
  {
    assert RemoveZwsp(r) == [r[0]] + RemoveZwsp(r[1..]);
    assert r == r[..|r| - 1] + [r[|r| - 1]];
    RemoveZwspConcat(r[..|r| - 1], [r[|r| - 1]]);
    assert RemoveZwsp([r[|r| - 1]]) == [r[|r| - 1]] + RemoveZwsp([]);
  }

  /** In a guarded string, what `strip()` keeps neither starts nor ends with a joiner,
      so deleting the joiners leaves it trimmed. */
  lemma GuardedStrip(j: string)
    requires Guarded(j)
    ensures Trimmed(RemoveZwsp(Strip(j)))
  {
    var r := Strip(j);
    var i, k := StripStart(j), StripEnd(j);
    StripShape(j);
    if r != [] {
      assert r[0] == j[i] && r[|r| - 1] == j[k - 1];
      assert !JoinerAt(j, i);
      assert !JoinerAt(j, k - 1);
      RemoveZwspEnds(r);
    }
  }

  /** The space-joined sanitised tokens of a line whose long tokens carry no
      whitespace are guarded. */
  lemma GuardedJoinedLine(line: string, L: nat)
    requires L >= 1 && ZWSP !in line && LongTokensSolid(line, L)
    ensures Guarded(Join(SanitizeAll(Split(line, " "), L), " "))
  {
    var ts := Split(line, " ");
    var san := SanitizeAll(ts, L);
    SplitSpec(line, " ");
    forall k | 0 <= k < |ts| ensures Guarded(san[k]) {
      if ZWSP in ts[k] {
        JoinHasPieceChars(ts, " ", k, ZWSP);
      }
      GuardedToken(ts[k], L);
    }
    GuardedJoin(san, " ");
  }

  /** Deleting the joiners commutes with `strip()` whenever what `strip()` keeps stays
      trimmed once its joiners are deleted. */
  lemma StripRemoveCommute(j: string)
    requires Trimmed(RemoveZwsp(Strip(j)))
    ensures RemoveZwsp(Strip(j)) == Strip(RemoveZwsp(j))
  {
    StripShape(j);
    RemoveZwspAroundStrip(j);
    StripPadded(j[..StripStart(j)], RemoveZwsp(Strip(j)), j[StripEnd(j)..]);
  }

  /** In a guarded string, deleting the joiners commutes with `strip()`. */
  lemma GuardedStripText(j: string)
    requires Guarded(j)
    ensures RemoveZwsp(Strip(j)) == Strip(RemoveZwsp(j))
  {
    GuardedStrip(j);
    StripRemoveCommute(j);
  }

  /** When no long token carries whitespace, deleting the joiners from the result gives
      exactly the stripped input. */
  lemma SafeLineExactText(line: string, L: nat)
    requires L >= 1 && ZWSP !in line && LongTokensSolid(line, L)
    ensures RemoveZwsp(SafeLine(line, L)) == Strip(line)
  {
    RemoveZwspJoinedLine(line, L);
    GuardedJoinedLine(line, L);
    GuardedStripText(Join(SanitizeAll(Split(line, " "), L), " "));
  }

  // ---------------------------------------------------------------------------
  // Where the text-preservation and idempotence claims fail

  /** When the whitespace at the end of a line reaches across a chunk boundary of a long
      token, the joiner shields the whitespace before it from the final strip:
      deleting the joiner does not give the stripped input back. */
  lemma TrailingTabKept()
    ensures RemoveZwsp(SafeLine("a\t\t", 2)) == "a\t"
    ensures Strip("a\t\t") == "a"
  {
    TrailingTabLine("a\t\t");
    JoinerRemoved();
    TrailingTabStripped();
  }

  /** The same at the start of a line: the whitespace past the first chunk boundary of a
      long first token stays behind the joiner. */
  lemma LeadingTabKept()
    ensures RemoveZwsp(SafeLine("\t\t\ta", 2)) == "\ta"
    ensures Strip("\t\t\ta") == "a"
  {
    LeadingTabLine("\t\t\ta");
    LeadingJoinerRemoved();
    LeadingTabStripped();
  }

  lemma LeadingJoinerRemoved()
    ensures RemoveZwsp([ZWSP] + "\ta") == "\ta"
  {
    RemoveZwspConcat([ZWSP], "\ta");
    RemoveZwspAbsent("\ta");
    assert RemoveZwsp([ZWSP]) == [] + RemoveZwsp([]);
  }

  lemma LeadingTabStripped()
    ensures Strip("\t\t\ta") == "a"
  {
    assert "\t\t\t" + "a" + [] == "\t\t\ta";
    StripPadded("\t\t\t", "a", []);
  }

  lemma JoinerRemoved()
    ensures RemoveZwsp(['a', '\t', ZWSP]) == "a\t"
  {
    var kept := ['a', '\t', ZWSP];
    assert kept == "a\t" + [ZWSP];
    RemoveZwspConcat("a\t", [ZWSP]);
    RemoveZwspAbsent("a\t");
    assert RemoveZwsp([ZWSP]) == [] + RemoveZwsp([]);
  }

  lemma TrailingTabStripped()
    ensures Strip("a\t\t") == "a"
  {
    assert [] + "a" + "\t\t" == "a\t\t";
    StripPadded([], "a", "\t\t");
  }

  /** A token longer than L but at most 2L is cut into two chunks. */
  lemma TwoChunks(w: string, L: nat)
    requires L >= 1 && L < |w| <= 2 * L
    ensures Chunks(w, L) == [w[..L], w[L..]]
    ensures SanitizeToken(w, L) == w[..L] + [ZWSP] + w[L..]
  {
    var rest := w[L..];
    assert rest[..|rest|] == rest && rest[|rest|..] == [];
    assert Chunks(rest, L) == [rest];
    JoinTwo(w[..L], rest, [ZWSP]);
  }

  /** A line that is a single token is that token sanitised and stripped. */
  lemma SafeLineOneWord(w: string, L: nat)
    requires L >= 1 && ' ' !in w
    ensures SafeLine(w, L) == Strip(SanitizeToken(w, L))
  {
    SplitAbsent(w, ' ');
    assert SanitizeAll([w], L) == [SanitizeToken(w, L)];
  }

  /** A single token of one full chunk and a shorter rest gets one joiner. */
  lemma TwoChunkLine(a: string, b: string, L: nat)
    requires L >= 1 && |a| == L && 1 <= |b| <= L && ' ' !in a && ' ' !in b
    ensures SafeLine(a + b, L) == Strip(a + [ZWSP] + b)
  {
    var w := a + b;
    assert ' ' !in w;
    SafeLineOneWord(w, L);
    TwoChunks(w, L);
    assert w[..L] == a && w[L..] == b;
  }

  lemma TrailingTabLine(line: string)
    requires line == "a\t\t"
    ensures SafeLine(line, 2) == ['a', '\t', ZWSP]
  {
    var a, b := "a\t", "\t";
    assert line == a + b;
    TwoChunkLine(a, b, 2);
    var kept := ['a', '\t', ZWSP];
    assert a + [ZWSP] + b == [] + kept + b;
    StripPadded([], kept, b);
  }

  lemma LeadingTabLine(line: string)
    requires line == "\t\t\ta"
    ensures SafeLine(line, 2) == [ZWSP] + "\ta"
  {
    var a, b := "\t\t", "\ta";
    assert line == a + b;
    TwoChunkLine(a, b, 2);
    LeadingJoinerStripped(a, b);
  }

  lemma LeadingJoinerStripped(a: string, b: string)
    requires a == "\t\t" && b == "\ta"
    ensures Strip(a + [ZWSP] + b) == [ZWSP] + b
  {
    assert a + [ZWSP] + b == a + ([ZWSP] + b) + [];
    StripPadded(a, [ZWSP] + b, []);
  }

  /** Sanitising twice is not sanitising once: a chunked token is still longer than
      the limit, so it is chunked again. */
  lemma NotIdempotent()
    ensures SafeLine("abc", 2) == ['a', 'b', ZWSP, 'c']
    ensures SafeLine(SafeLine("abc", 2), 2) == ['a', 'b', ZWSP, ZWSP, 'c']
  {
    SanitizedOnce("abc");
    SanitizedTwice(['a', 'b', ZWSP, 'c']);
  }

  lemma SanitizedOnce(w: string)
    requires w == "abc"
    ensures SafeLine(w, 2) == ['a', 'b', ZWSP, 'c']
  {
    var a, b := "ab", "c";
    assert w == a + b;
    TwoChunkLine(a, b, 2);
    StripTrimmed(a + [ZWSP] + b);
  }

  lemma SanitizedTwice(once: string)
    requires once == ['a', 'b', ZWSP, 'c']
    ensures SafeLine(once, 2) == ['a', 'b', ZWSP, ZWSP, 'c']
  {
    var a, b := "ab", [ZWSP, 'c'];
    assert once == a + b;
    TwoChunkLine(a, b, 2);
    StripTrimmed(a + [ZWSP] + b);
  }
}
