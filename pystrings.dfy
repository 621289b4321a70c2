/** The Python `str` operations the résumé pipeline relies on, over `seq<char>`:
    `isspace`/`strip`, `in`, `index`, `split(sep)`, `sep.join`, `count` and `upper`. */
module PyStrings {
  import opened Seqs

  datatype Option<T> = None | Some(value: T)

  /** Python's `str.isspace()` table, which `str.strip()` uses: U+0009..U+000D,
      U+001C..U+001F, U+0020, U+0085, U+00A0, U+1680, U+2000..U+200A, U+2028,
      U+2029, U+202F, U+205F and U+3000. The zero-width space U+200B is not in it. */
  predicate IsWhitespace(c: char)
  {
    ('\t' <= c <= '\r') || ('\U{1C}' <= c <= '\U{1F}') || c == ' '
    || c == '\U{85}' || c == '\U{A0}' || c == '\U{1680}'
    || ('\U{2000}' <= c <= '\U{200A}') || c == '\U{2028}' || c == '\U{2029}'
    || c == '\U{202F}' || c == '\U{205F}' || c == '\U{3000}'
  }

  predicate AllWhitespace(s: string)
  {
    forall k :: 0 <= k < |s| ==> IsWhitespace(s[k])
  }

  /** The shape of every `strip()` result: no whitespace at either end. */
  predicate Trimmed(s: string)
  {
    s == [] || (!IsWhitespace(s[0]) && !IsWhitespace(s[|s| - 1]))
  }

  lemma AllWhitespaceConcat(a: string, b: string)
    requires AllWhitespace(a) && AllWhitespace(b)
    ensures AllWhitespace(a + b)
  {
    forall k | 0 <= k < |a + b| ensures IsWhitespace((a + b)[k]) {
      if k < |a| { assert (a + b)[k] == a[k]; } else { assert (a + b)[k] == b[k - |a|]; }
    }
  }

  /** `s[a..b][c..d]` is `s[a + c..a + d]`. */
  lemma SliceOfSlice(s: string, a: nat, b: nat, c: nat, d: nat)
    requires a <= b <= |s| && c <= d <= b - a
    ensures s[a..b][c..d] == s[a + c..a + d]
  {
    assert forall k :: 0 <= k < d - c ==> s[a..b][c..d][k] == s[a + c + k];
  }

  /** The index of the first character at or after `i` that is not whitespace, or
      `|s|` when there is none. */
  function SkipLeading(s: string, i: nat): (n: nat)
    requires i <= |s|
    ensures i <= n <= |s|
    ensures forall k :: i <= k < n ==> IsWhitespace(s[k])
    ensures n < |s| ==> !IsWhitespace(s[n])
    decreases |s| - i
  {
    if i == |s| || !IsWhitespace(s[i]) then i else SkipLeading(s, i + 1)
  }

  /** The index just past the last character before `j`, and at or after `lo`, that is
      not whitespace, or `lo` when there is none. */
  function SkipTrailing(s: string, lo: nat, j: nat): (m: nat)
    requires lo <= j <= |s|
    ensures lo <= m <= j
    ensures forall k :: m <= k < j ==> IsWhitespace(s[k])
    ensures m > lo ==> !IsWhitespace(s[m - 1])
    decreases j - lo
  {
    if j == lo || !IsWhitespace(s[j - 1]) then j else SkipTrailing(s, lo, j - 1)
  }

  /** Where `s.strip()` starts: the end of the leading whitespace. */
  function StripStart(s: string): (i: nat)
    ensures i <= |s|
  {
    SkipLeading(s, 0)
  }

  /** Where `s.strip()` ends: the start of the trailing whitespace. */
  function StripEnd(s: string): (j: nat)
    ensures StripStart(s) <= j <= |s|
  {
    SkipTrailing(s, StripStart(s), |s|)
  }

  /** `s.strip()`: `s` without its leading and trailing whitespace. */
  function Strip(s: string): (r: string)
    ensures |r| <= |s| && Trimmed(r)
  {
    var i, j := StripStart(s), StripEnd(s);
    assert i < j ==> s[i..j][0] == s[i] && s[i..j][j - i - 1] == s[j - 1];
    s[i..j]
  }

  lemma {:induction false} SkipLeadingAt(s: string, i: nat, n: nat)
    requires i <= n <= |s|
    requires forall k :: i <= k < n ==> IsWhitespace(s[k])
    requires n < |s| ==> !IsWhitespace(s[n])
    ensures SkipLeading(s, i) == n
    decreases n - i
  {
    if i < n {
      SkipLeadingAt(s, i + 1, n);
    }
  }

  lemma {:induction false} SkipTrailingAt(s: string, lo: nat, j: nat, m: nat)
    requires lo <= m <= j <= |s|
    requires forall k :: m <= k < j ==> IsWhitespace(s[k])
    requires m > lo ==> !IsWhitespace(s[m - 1])
    ensures SkipTrailing(s, lo, j) == m
    decreases j - m
  {
    if m < j {
      SkipTrailingAt(s, lo, j - 1, m);
    }
  }

  /** What `strip()` keeps is a slice with only whitespace before and after it. */
  lemma StripShape(s: string)
    ensures Strip(s) == s[StripStart(s)..StripEnd(s)]
    ensures AllWhitespace(s[..StripStart(s)]) && AllWhitespace(s[StripEnd(s)..])
  {
    var i, j := StripStart(s), StripEnd(s);
    assert forall k :: 0 <= k < i ==> s[..i][k] == s[k];
    assert forall k :: 0 <= k < |s| - j ==> s[j..][k] == s[j + k];
  }

  /** `strip()` is determined by its shape: a trimmed slice with only whitespace
      around it is what `strip()` returns. */
  lemma StripUnique(s: string, i: nat, j: nat)
    requires i <= j <= |s| && Trimmed(s[i..j])
    requires AllWhitespace(s[..i]) && AllWhitespace(s[j..])
    ensures Strip(s) == s[i..j]
  {
    assert forall k :: 0 <= k < i ==> s[k] == s[..i][k];
    assert forall k :: j <= k < |s| ==> s[k] == s[j..][k - j];
    if i < j {
      assert s[i] == s[i..j][0] && s[j - 1] == s[i..j][j - i - 1];
      SkipLeadingAt(s, 0, i);
      SkipTrailingAt(s, i, |s|, j);
    } else {
      SkipLeadingAt(s, 0, |s|);
    }
  }

  /** Stripping a whitespace-padded trimmed string gives back exactly that string. */
  lemma StripPadded(p: string, x: string, q: string)
    requires AllWhitespace(p) && AllWhitespace(q) && Trimmed(x)
    ensures Strip(p + x + q) == x
  {
    Parts3(p, x, q);
    StripUnique(p + x + q, |p|, |p| + |x|);
  }

  /** A trimmed string is its own `strip()`. */
  lemma StripTrimmed(x: string)
    requires Trimmed(x)
    ensures Strip(x) == x
  {
    assert [] + x + [] == x;
    StripPadded([], x, []);
  }

  /** Whitespace around a string never changes what `strip()` returns. */
  lemma StripAbsorbsPadding(p: string, x: string, q: string)
    requires AllWhitespace(p) && AllWhitespace(q)
    ensures Strip(p + x + q) == Strip(x)
  {
    var i, j := StripStart(x), StripEnd(x);
    StripShape(x);
    var a, r, b := x[..i], x[i..j], x[j..];
    AllWhitespaceConcat(p, a);
    AllWhitespaceConcat(b, q);
    Pieces(x, i, j);
    Regroup(p, a, r, b, q);
    StripPadded(p + a, r, b + q);
  }

  /** `not s.strip()` holds exactly for the strings made only of whitespace. */
  lemma StripEmptyIff(s: string)
    ensures Strip(s) == [] <==> AllWhitespace(s)
  {
    if AllWhitespace(s) {
      assert s[..|s|] == s && s[|s|..] == [];
      StripUnique(s, |s|, |s|);
    }
    if Strip(s) == [] {
      StripShape(s);
      var i := StripStart(s);
      Pieces(s, i, i);
      AllWhitespaceConcat(s[..i], s[i..]);
      assert s[..i] + s[i..i] + s[i..] == s[..i] + s[i..];
    }
  }

  /** A pattern occurs in `s` at index `i`. */
  predicate IsAt(s: string, pat: string, i: int)
  {
    0 <= i && i + |pat| <= |s| && s[i..i + |pat|] == pat
  }

  lemma ShiftIsAt(s: string, pat: string)
    requires s != []
    ensures forall j {:trigger IsAt(s[1..], pat, j)} :: 0 <= j ==> (IsAt(s, pat, j + 1) <==> IsAt(s[1..], pat, j))
    ensures forall j {:trigger IsAt(s, pat, j)} :: 1 <= j ==> (IsAt(s, pat, j) <==> IsAt(s[1..], pat, j - 1))
  {
    forall j | 0 <= j
      ensures IsAt(s, pat, j + 1) <==> IsAt(s[1..], pat, j)
    {
      if j + 1 + |pat| <= |s| {
        SliceOfSlice(s, 1, |s|, j, j + |pat|);
      }
    }
    forall j | 1 <= j
      ensures IsAt(s, pat, j) <==> IsAt(s[1..], pat, j - 1)
    {
      if j + |pat| <= |s| {
        SliceOfSlice(s, 1, |s|, j - 1, j - 1 + |pat|);
      }
    }
  }

  /** `s.index(pat)`, or `None` where Python raises: the first occurrence of `pat`. */
  function IndexOf(s: string, pat: string): (r: Option<nat>)
    ensures r.Some? ==> IsAt(s, pat, r.value) && forall j :: 0 <= j < r.value ==> !IsAt(s, pat, j)
    ensures r.None? ==> forall j :: !IsAt(s, pat, j)
    decreases |s|
  {
    if |s| < |pat| then None
    else if s[..|pat|] == pat then Some(0)
    else
      ShiftIsAt(s, pat);
      assert !IsAt(s, pat, 0);
      match IndexOf(s[1..], pat)
      case None => None
      case Some(k) => Some(k + 1)
  }

  /** An occurrence with none before it is what `index` finds. */
  lemma IndexOfFirst(s: string, pat: string, i: nat)
    requires IsAt(s, pat, i) && forall j :: 0 <= j < i ==> !IsAt(s, pat, j)
    ensures IndexOf(s, pat) == Some(i)
  {
  }

  /** Python's `pat in s`. */
  function Contains(s: string, pat: string): (b: bool)
    ensures b <==> exists j :: IsAt(s, pat, j)
  {
    IndexOf(s, pat).Some?
  }

  /** An occurrence inside a slice is an occurrence in the whole string. */
  lemma IsAtSlice(s: string, pat: string, a: int, b: int, j: int)
    requires 0 <= a <= b <= |s|
    requires IsAt(s[a..b], pat, j)
    ensures IsAt(s, pat, a + j)
  {
    SliceOfSlice(s, a, b, j, j + |pat|);
  }

  /** An occurrence in the part after a prefix is an occurrence in the whole, shifted
      by the prefix's length. */
  lemma IsAtAfter(a: string, s: string, pat: string, j: int)
    requires 0 <= j
    ensures IsAt(a + s, pat, |a| + j) <==> IsAt(s, pat, j)
  {
    if j + |pat| <= |s| {
      assert (a + s)[|a| + j..|a| + j + |pat|] == s[j..j + |pat|];
    }
  }

  /** A pattern that starts nowhere in a prefix, even running on into the rest, and
      nowhere in the first `n` places of the rest, starts nowhere in the first
      `|a| + n` places of the whole. */
  lemma FreeAfter(a: string, r: string, pat: string, n: nat)
    requires forall j :: 0 <= j < |a| ==> !IsAt(a + r, pat, j)
    requires forall j :: 0 <= j < n ==> !IsAt(r, pat, j)
    ensures forall j :: 0 <= j < |a| + n ==> !IsAt(a + r, pat, j)
  {
    forall j | |a| <= j < |a| + n ensures !IsAt(a + r, pat, j) {
      IsAtAfter(a, r, pat, j - |a|);
    }
  }

  /** `sep.join(parts)`. */
  function Join(parts: seq<string>, sep: string): string
    decreases |parts|
  {
    if |parts| == 0 then []
    else if |parts| == 1 then parts[0]
    else parts[0] + sep + Join(parts[1..], sep)
  }

  /** Every piece is at most as long as the joined string. */
  lemma {:induction false} JoinPieceLength(ps: seq<string>, sep: string, k: nat)
    requires k < |ps|
    ensures |ps[k]| <= |Join(ps, sep)|
    decreases |ps|
  {
    if |ps| > 1 && k > 0 {
      JoinPieceLength(ps[1..], sep, k - 1);
    }
  }

  /** A slice in which the pattern starts nowhere does not contain it. */
  lemma AbsentInSlice(s: string, pat: string, a: nat, b: nat)
    requires pat != [] && a <= b <= |s|
    requires forall j :: a <= j < b ==> !IsAt(s, pat, j)
    ensures !Contains(s[a..b], pat)
  {
    forall j | IsAt(s[a..b], pat, j) ensures false {
      IsAtSlice(s, pat, a, b, j);
    }
  }

  /** Non-empty words joined begin with the first word and end with the last. */
  lemma {:induction false} JoinEnds(words: seq<string>, sep: string)
    requires words != [] && forall k :: 0 <= k < |words| ==> words[k] != []
    ensures var j := Join(words, sep); var w := words[|words| - 1];
      |j| > 0 && j[0] == words[0][0] && j[|j| - 1] == w[|w| - 1]
    decreases |words|
  {
    if |words| > 1 {
      JoinEnds(words[1..], sep);
    }
  }

  lemma JoinTwo(a: string, b: string, sep: string)
    ensures Join([a, b], sep) == a + sep + b
  {
    assert [a, b][1..] == [b];
  }

  lemma JoinSnoc(parts: seq<string>, x: string, sep: string)
    requires parts != []
    ensures Join(parts + [x], sep) == Join(parts, sep) + sep + x
    decreases |parts|
  {
    if |parts| > 1 {
      assert (parts + [x])[1..] == parts[1..] + [x];
      JoinSnoc(parts[1..], x, sep);
    } else {
      assert (parts + [x])[1..] == [x];
    }
  }

  /** `s.split(sep)` for a non-empty separator: the pieces between the
      non-overlapping occurrences of `sep`, scanning from the left. */
  function Split(s: string, sep: string): (r: seq<string>)
    requires sep != []
    ensures |r| >= 1
    decreases |s|
  {
    match IndexOf(s, sep)
    case None => [s]
    case Some(i) => [s[..i]] + Split(s[i + |sep|..], sep)
  }

  /** What `split` promises: joining the pieces with `sep` gives `s` back, no piece
      contains `sep`, and there is more than one piece exactly when `sep` occurs. */
  lemma {:induction false} SplitSpec(s: string, sep: string)
    requires sep != []
    ensures Join(Split(s, sep), sep) == s
    ensures |Split(s, sep)| == 1 <==> !Contains(s, sep)
    ensures forall k, j :: 0 <= k < |Split(s, sep)| ==> !IsAt(Split(s, sep)[k], sep, j)
    decreases |s|
  {
    match IndexOf(s, sep)
    case None =>
    case Some(i) =>
      SplitSpec(s[i + |sep|..], sep);
      SplitStep(s, sep, i, Split(s[i + |sep|..], sep));
  }

  /** No piece of a split on one character holds that character. */
  lemma SplitPiecesFree(s: string, c: char)
    ensures forall k :: 0 <= k < |Split(s, [c])| ==> c !in Split(s, [c])[k]
  {
    var ps := Split(s, [c]);
    SplitSpec(s, [c]);
    forall k | 0 <= k < |ps| ensures c !in ps[k] {
      forall j | 0 <= j < |ps[k]| ensures ps[k][j] != c {
        assert !IsAt(ps[k], [c], j);
        assert ps[k][j..j + 1] == [ps[k][j]];
      }
    }
  }

  /** The first piece of `split` is the prefix of `s` up to the first occurrence of
      `sep`, or all of `s` when there is none. */
  lemma SplitHead(s: string, sep: string)
    requires sep != []
    ensures var h := Split(s, sep)[0];
      |h| <= |s| && h == s[..|h|] && !Contains(h, sep) && (|h| == |s| || IsAt(s, sep, |h|))
      && forall j :: 0 <= j < |h| ==> !IsAt(s, sep, j)
  {
    match IndexOf(s, sep)
    case None =>
      assert s[..|s|] == s;
    case Some(i) =>
      AbsentInSlice(s, sep, 0, i);
  }

  /** One step of `Split`: the piece before the first occurrence, then the rest. */
  lemma SplitStep(s: string, sep: string, i: nat, rest: seq<string>)
    requires sep != [] && IsAt(s, sep, i)
    requires forall j :: 0 <= j < i ==> !IsAt(s, sep, j)
    requires |rest| >= 1 && Join(rest, sep) == s[i + |sep|..]
    requires forall k, j :: 0 <= k < |rest| ==> !IsAt(rest[k], sep, j)
    ensures var r := [s[..i]] + rest;
      Join(r, sep) == s && forall k, j :: 0 <= k < |r| ==> !IsAt(r[k], sep, j)
  {
    var r := [s[..i]] + rest;
    assert r[1..] == rest;
    assert s[i..i + |sep|] == sep;
    Pieces(s, i, i + |sep|);
    forall k, j | 0 <= k < |r| ensures !IsAt(r[k], sep, j) {
      if k == 0 {
        if IsAt(s[..i], sep, j) {
          IsAtSlice(s, sep, 0, i, j);
        }
      } else {
        assert r[k] == rest[k - 1];
      }
    }
  }

  /** A character that does not occur leaves the string in one piece. */
  lemma SplitAbsent(s: string, c: char)
    requires c !in s
    ensures Split(s, [c]) == [s]
  {
    forall j ensures !IsAt(s, [c], j) {
      if 0 <= j < |s| {
        assert s[j..j + 1][0] == s[j];
      }
    }
  }

  /** `split` undoes `join`: pieces free of `c`, joined by `c`, split back into
      exactly those pieces. */
  lemma {:induction false} SplitUnique(s: string, c: char, ps: seq<string>)
    requires |ps| >= 1 && Join(ps, [c]) == s
    requires forall k :: 0 <= k < |ps| ==> c !in ps[k]
    ensures Split(s, [c]) == ps
    decreases |ps|
  {
    if |ps| == 1 {
      SplitAbsent(s, c);
    } else {
      var i := |ps[0]|;
      var tail := Join(ps[1..], [c]);
      assert s == ps[0] + [c] + tail;
      assert s[..i] == ps[0] && s[i + 1..] == tail;
      assert s[i..i + 1] == [c];
      assert IsAt(s, [c], i);
      forall j | 0 <= j < i ensures !IsAt(s, [c], j) {
        assert s[j..j + 1][0] == ps[0][j];
      }
      assert IndexOf(s, [c]) == Some(i);
      SplitUnique(tail, c, ps[1..]);
      assert Split(s, [c]) == [ps[0]] + ps[1..];
    }
  }

  /** The number of occurrences of `c` in `s` (Python's `s.count(c)`). */
  function CountChar(s: string, c: char): nat
    decreases |s|
  {
    if s == [] then 0 else (if s[0] == c then 1 else 0) + CountChar(s[1..], c)
  }

  lemma {:induction false} CountConcat(a: string, b: string, c: char)
    ensures CountChar(a + b, c) == CountChar(a, c) + CountChar(b, c)
    decreases |a|
  {
    if a != [] {
      assert (a + b)[1..] == a[1..] + b;
      CountConcat(a[1..], b, c);
    } else {
      assert a + b == b;
    }
  }

  lemma CountAbsent(s: string, c: char)
    requires c !in s
    ensures CountChar(s, c) == 0
    decreases |s|
  {
    if s != [] {
      assert c !in s[1..];
      CountAbsent(s[1..], c);
    }
  }

  /** No occurrence of the one-character pattern `[c]` before `i` means no `c` there. */
  lemma NoCharBefore(s: string, c: char, i: nat)
    requires i <= |s|
    requires forall j :: 0 <= j < i ==> !IsAt(s, [c], j)
    ensures c !in s[..i]
  {
    forall k | 0 <= k < i ensures s[k] != c {
      assert !IsAt(s, [c], k);
      assert s[k..k + 1] == [s[k]];
    }
  }

  /** Splitting on one character gives one more piece than it has occurrences. */
  lemma {:induction false} SplitCount(s: string, c: char)
    ensures |Split(s, [c])| == CountChar(s, c) + 1
    decreases |s|
  {
    var r := IndexOf(s, [c]);
    if r.None? {
      NoCharBefore(s, c, |s|);
      assert s[..|s|] == s;
      CountAbsent(s, c);
    } else {
      var i := r.value;
      var rest := s[i + 1..];
      assert Split(s, [c]) == [s[..i]] + Split(rest, [c]);
      SplitCount(rest, c);
      NoCharBefore(s, c, i);
      CountAbsent(s[..i], c);
      assert s[i..i + 1] == [c];
      Pieces(s, i, i + 1);
      Assoc(s[..i], [c], rest);
      CountConcat(s[..i], [c] + rest, c);
      ConsTail(c, rest);
    }
  }

  /** Upper case of one character, on ASCII letters only. */
  function UpperChar(c: char): char
  {
    if 'a' <= c <= 'z' then (c as int - 32) as char else c
  }

  /** `s.upper()` on ASCII letters; every other character is kept. */
  function AsciiUpper(s: string): (r: string)
    ensures |r| == |s| && forall k :: 0 <= k < |s| ==> r[k] == UpperChar(s[k])
  {
    if s == [] then [] else [UpperChar(s[0])] + AsciiUpper(s[1..])
  }

  /** A string without lower-case ASCII letters is its own upper case. */
  lemma AsciiUpperFixed(s: string)
    requires forall k :: 0 <= k < |s| ==> !('a' <= s[k] <= 'z')
    ensures AsciiUpper(s) == s
  {
  }
}
