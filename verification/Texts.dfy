/** Whole-text functions that the streaming comparers must agree with:
    `split_whitespace`, `lines` and `trim_end` over Unicode scalar values. */
module Texts {
  import opened Utf8

  const LF: Scalar := 0x0A
  const CR: Scalar := 0x0D

  /** `char::is_whitespace`: the Unicode property White_Space. */
  predicate IsWhitespace(c: Scalar) {
    || 0x09 <= c <= 0x0D || c == 0x20 || c == 0x85 || c == 0xA0 || c == 0x1680
    || 0x2000 <= c <= 0x200A || c == 0x2028 || c == 0x2029 || c == 0x202F || c == 0x205F || c == 0x3000
  }

  /** Those are the 25 code points of the Unicode Character Database. */
  lemma WhitespaceIs(c: Scalar)
    ensures IsWhitespace(c) <==>
              c in [0x09, 0x0A, 0x0B, 0x0C, 0x0D, 0x20, 0x85, 0xA0, 0x1680, 0x2000, 0x2001, 0x2002, 0x2003, 0x2004, 0x2005,
                    0x2006, 0x2007, 0x2008, 0x2009, 0x200A, 0x2028, 0x2029, 0x202F, 0x205F, 0x3000]
  {
    assert IsWhitespace(c) ==> c in {0x09, 0x0A, 0x0B, 0x0C, 0x0D, 0x20, 0x85, 0xA0, 0x1680}
                               || 0x2000 <= c <= 0x200A || c in {0x2028, 0x2029, 0x202F, 0x205F, 0x3000};
  }

  predicate IsWord(t: Text) {
    t != [] && forall i :: 0 <= i < |t| ==> !IsWhitespace(t[i])
  }

  predicate IsGap(t: Text) {
    forall i :: 0 <= i < |t| ==> IsWhitespace(t[i])
  }

  // ------------------------------------------------------------------ tokens

  /** The length of the word at the start. */
  function RunLength(t: Text): (n: nat)
    ensures n <= |t|
    ensures forall i :: 0 <= i < n ==> !IsWhitespace(t[i])
    ensures n < |t| ==> IsWhitespace(t[n])
  {
    if t == [] || IsWhitespace(t[0]) then 0 else 1 + RunLength(t[1..])
  }

  lemma RunLengthIs(t: Text, n: nat)
    requires n <= |t| && (forall i :: 0 <= i < n ==> !IsWhitespace(t[i]))
    requires n < |t| ==> IsWhitespace(t[n])
    ensures RunLength(t) == n
  {
  }

  function Tokens(t: Text): seq<Text>
    decreases |t|
  {
    if t == [] then []
    else if IsWhitespace(t[0]) then Tokens(t[1..])
    else var n := RunLength(t); [t[..n]] + Tokens(t[n..])
  }

  /** A word that ends the text or is followed by whitespace is its first token. */
  lemma WordFirst(word: Text, rest: Text)
    requires IsWord(word) && (rest == [] || IsWhitespace(rest[0]))
    ensures Tokens(word + rest) == [word] + Tokens(rest)
  {
    var t := word + rest;
    RunLengthIs(t, |word|);
    assert t[0] == word[0] && t[..|word|] == word && t[|word|..] == rest;
  }

  /** Whitespace separates: the tokens on its two sides are found independently. */
  lemma {:induction false} TokensAround(a: Text, c: Scalar, b: Text)
    requires IsWhitespace(c)
    ensures Tokens(a + [c] + b) == Tokens(a) + Tokens(b)
    decreases |a|
  {
    if a == [] {
      assert (a + [c] + b)[1..] == b;
    } else if IsWhitespace(a[0]) {
      assert (a + [c] + b)[1..] == a[1..] + [c] + b;
      TokensAround(a[1..], c, b);
    } else {
      var n := RunLength(a);
      TokensAround(a[n..], c, b);
      TokensAroundWord(a[..n], a[n..], c, b);
      assert a == a[..n] + a[n..];
    }
  }

  lemma TokensAroundWord(word: Text, a: Text, c: Scalar, b: Text)
    requires IsWord(word) && (a == [] || IsWhitespace(a[0])) && IsWhitespace(c)
    requires Tokens(a + [c] + b) == Tokens(a) + Tokens(b)
    ensures Tokens(word + a + [c] + b) == Tokens(word + a) + Tokens(b)
  {
    hide Tokens, IsWord, IsWhitespace;
    var rest := a + [c] + b;
    assert rest[0] == if a == [] then c else a[0];
    WordFirst(word, a);
    WordFirst(word, rest);
    assert word + a + [c] + b == word + rest;
    assert [word] + Tokens(a) + Tokens(b) == [word] + (Tokens(a) + Tokens(b));
  }

  /** `gaps[0] + words[0] + gaps[1] + ... + words[n-1] + gaps[n]` */
  ghost function Interleave(gaps: seq<Text>, words: seq<Text>): Text
    requires |gaps| == |words| + 1
  {
    if words == [] then gaps[0] else gaps[0] + words[0] + Interleave(gaps[1..], words[1..])
  }

  /** `t` is these words with whitespace around and between them. */
  ghost predicate Separates(t: Text, gaps: seq<Text>, words: seq<Text>) {
    && |gaps| == |words| + 1
    && (forall i :: 0 <= i < |words| ==> IsWord(words[i]))
    && (forall i :: 0 <= i < |gaps| ==> IsGap(gaps[i]))
    && (forall i :: 0 < i < |words| ==> gaps[i] != [])
    && t == Interleave(gaps, words)
  }

  lemma {:induction false} TokensSkipGap(gap: Text, t: Text)
    requires IsGap(gap)
    ensures Tokens(gap + t) == Tokens(t)
  {
    if gap == [] {
      assert gap + t == t;
    } else {
      assert (gap + t)[1..] == gap[1..] + t;
      TokensSkipGap(gap[1..], t);
    }
  }

  /** Words separated by whitespace are what tokenizing finds. */
  lemma {:induction false} SeparatedAreTokens(t: Text, gaps: seq<Text>, words: seq<Text>)
    requires Separates(t, gaps, words)
    ensures words == Tokens(t)
    decreases |words|
  {
    if words == [] {
      TokensSkipGap(t, []);
      assert t + [] == t;
    } else {
      var rest := Interleave(gaps[1..], words[1..]);
      assert rest == [] || IsWhitespace(rest[0]) by {
        assert |words| > 1 ==> gaps[1] != [];
      }
      assert t == gaps[0] + (words[0] + rest);
      TokensSkipGap(gaps[0], words[0] + rest);
      WordFirst(words[0], rest);
      SeparatedAreTokens(rest, gaps[1..], words[1..]);
    }
  }

  lemma {:induction false} TokensSeparate(t: Text) returns (gaps: seq<Text>)
    ensures Separates(t, gaps, Tokens(t))
    decreases |t|
  {
    if t == [] {
      gaps := [[]];
    } else if IsWhitespace(t[0]) {
      var g := TokensSeparate(t[1..]);
      gaps := [[t[0]] + g[0]] + g[1..];
      SeparateSpace(t[0], t[1..], g, Tokens(t[1..]));
      assert t == [t[0]] + t[1..];
    } else {
      var n := RunLength(t);
      var g := TokensSeparate(t[n..]);
      gaps := [[]] + g;
      SeparateWord(t[..n], t[n..], g, Tokens(t[n..]));
      assert t == t[..n] + t[n..];
    }
  }

  /** A whitespace character before separated words. */
  lemma SeparateSpace(c: Scalar, t: Text, gaps: seq<Text>, words: seq<Text>)
    requires IsWhitespace(c) && Separates(t, gaps, words)
    ensures Separates([c] + t, [[c] + gaps[0]] + gaps[1..], words)
  {
    var wider := [[c] + gaps[0]] + gaps[1..];
    assert wider[1..] == gaps[1..];
    assert Interleave(wider, words) == [c] + Interleave(gaps, words);
  }

  /** A word before separated words. */
  lemma SeparateWord(word: Text, t: Text, gaps: seq<Text>, words: seq<Text>)
    requires IsWord(word) && Separates(t, gaps, words)
    requires t != [] ==> IsWhitespace(t[0])
    ensures Separates(word + t, [[]] + gaps, [word] + words)
  {
    assert ([[]] + gaps)[1..] == gaps && ([word] + words)[1..] == words;
    assert words != [] ==> t[|gaps[0]|] == words[0][0];
    assert [] + word + Interleave(gaps, words) == word + t;
  }

  /** The tokens of a text are the only words it is made of: `Tokens` meets, and is
      determined by, its description. */
  lemma TokensUnique(t: Text, words: seq<Text>)
    ensures words == Tokens(t) <==> exists gaps :: Separates(t, gaps, words)
  {
    if words == Tokens(t) {
      var gaps := TokensSeparate(t);
    }
    forall gaps | Separates(t, gaps, words)
      ensures words == Tokens(t)
    {
      SeparatedAreTokens(t, gaps, words);
    }
  }

  lemma {:induction false} WordsMakeTokens(t: Text)
    requires t != [] && !IsWhitespace(t[|t| - 1])
    ensures Tokens(t) != []
  {
    if IsWhitespace(t[0]) {
      WordsMakeTokens(t[1..]);
    }
  }

  /** The tokens that a stream can yield which breaks off after `t`, unless it is
      `clean`: a token at the very end may be unfinished. */
  function EmittedTokens(t: Text, clean: bool): seq<Text> {
    if clean || t == [] || IsWhitespace(t[|t| - 1]) then Tokens(t)
    else WordsMakeTokens(t); Tokens(t)[..|Tokens(t)| - 1]
  }

  lemma AllButLast<T>(x: T, s: seq<T>)
    requires s != []
    ensures ([x] + s)[..|s|] == [x] + s[..|s| - 1]
  {
  }

  // ------------------------------------------------------------------- lines

  /** What is left after the whitespace at the end, and nothing else, is gone. */
  function TrimEnd(t: Text): (r: Text)
    ensures r <= t && IsGap(t[|r|..])
    ensures r != [] ==> !IsWhitespace(r[|r| - 1])
  {
    if t != [] && IsWhitespace(t[|t| - 1]) then TrimEnd(t[..|t| - 1]) else t
  }

  function StripCr(t: Text): Text {
    if t != [] && t[|t| - 1] == CR then t[..|t| - 1] else t
  }

  /** The index of the first line feed, or the length. */
  function LineLength(t: Text): (n: nat)
    ensures n <= |t| && LF !in t[..n]
    ensures n < |t| ==> t[n] == LF
  {
    if t == [] || t[0] == LF then 0
    else
      var n := 1 + LineLength(t[1..]);
      assert t[..n] == [t[0]] + t[1..][..n - 1];
      n
  }

  /** `str::lines`: a carriage return is dropped only just before a line feed, and a
      last line without a line feed counts unless it is empty. */
  function RawLines(t: Text): seq<Text>
    decreases |t|
  {
    if t == [] then []
    else
      var n := LineLength(t);
      if n == |t| then [t] else [StripCr(t[..n])] + RawLines(t[n + 1..])
  }

  /** The raw lines that a stream can yield which breaks off after `t`, unless it is
      `clean`: a line without its line feed may be unfinished. */
  function EmittedLines(t: Text, clean: bool): seq<Text> {
    if clean || t == [] || t[|t| - 1] == LF then RawLines(t) else RawLines(t)[..|RawLines(t)| - 1]
  }

  function TrimAll(lines: seq<Text>): (r: seq<Text>)
    ensures |r| == |lines|
  {
    if lines == [] then [] else [TrimEnd(lines[0])] + TrimAll(lines[1..])
  }

  function DropTrailingEmpty(lines: seq<Text>): seq<Text> {
    if lines != [] && lines[|lines| - 1] == [] then DropTrailingEmpty(lines[..|lines| - 1]) else lines
  }

  /** `split_lines_trimmed`, the whole-text comparer's normalization. */
  function NormalLines(t: Text): seq<Text> {
    DropTrailingEmpty(TrimAll(RawLines(t)))
  }

  lemma {:induction false} LineLengthIs(t: Text, n: nat)
    requires n <= |t| && LF !in t[..n] && (n < |t| ==> t[n] == LF)
    ensures LineLength(t) == n
  {
    if n > 0 {
      assert t[..n] == [t[0]] + t[1..][..n - 1];
      LineLengthIs(t[1..], n - 1);
    }
  }

  lemma FirstLine(line: Text, rest: Text)
    requires LF !in line
    ensures RawLines(line + [LF] + rest) == [StripCr(line)] + RawLines(rest)
    ensures RawLines(line) == if line == [] then [] else [line]
  {
    var t := line + [LF] + rest;
    LineLengthIs(t, |line|);
    LineLengthIs(line, |line|);
    assert t[..|line|] == line && t[|line| + 1..] == rest;
  }

  /** A nonempty line keeps every line before it. */
  lemma {:induction false} DropAfter(before: seq<Text>, line: Text, after: seq<Text>)
    requires line != []
    ensures DropTrailingEmpty(before + [line] + after) == before + [line] + DropTrailingEmpty(after)
    decreases |after|
  {
    var all := before + [line] + after;
    if after == [] {
      assert all == before + [line];
      assert before + [line] + DropTrailingEmpty(after) == before + [line];
    } else {
      var n := |after| - 1;
      assert all[|all| - 1] == after[n];
      assert all[..|all| - 1] == before + [line] + after[..n];
      if after[n] == [] {
        DropAfter(before, line, after[..n]);
      }
    }
  }

  lemma {:induction false} DropAllEmpty(n: nat)
    ensures DropTrailingEmpty(Blanks(n)) == []
  {
    if n > 0 {
      assert Blanks(n)[..n - 1] == Blanks(n - 1);
      DropAllEmpty(n - 1);
    }
  }

  function Blanks(n: nat): seq<Text> { seq(n, _ => []) }

  /** Splitting at every line feed, nothing else: the pieces between them. */
  function Pieces(t: Text): (ps: seq<Text>)
    ensures ps != []
    decreases |t|
  {
    var n := LineLength(t);
    if n == |t| then [t] else [t[..n]] + Pieces(t[n + 1..])
  }

  lemma TrimAbsorbsCr(t: Text)
    ensures TrimEnd(StripCr(t)) == TrimEnd(t)
  {
  }

  /** The treatment of carriage returns and of a missing last line feed makes no
      difference to normalized lines: they are the trimmed pieces between line feeds
      without the empty ones at the end. */
  lemma {:induction false} NormalLinesArePieces(t: Text)
    ensures NormalLines(t) == DropTrailingEmpty(TrimAll(Pieces(t)))
    decreases |t|
  {
    if t == [] {
      assert TrimAll([t])[..0] == [];
    } else if LineLength(t) < |t| {
      var line, rest := t[..LineLength(t)], t[LineLength(t) + 1..];
      NormalLinesArePieces(rest);
      assert RawLines(t) == [StripCr(line)] + RawLines(rest);
      assert Pieces(t) == [line] + Pieces(rest);
      OneMoreLine(line, RawLines(rest), Pieces(rest));
    }
  }

  lemma OneMoreLine(line: Text, raw: seq<Text>, pieces: seq<Text>)
    requires DropTrailingEmpty(TrimAll(raw)) == DropTrailingEmpty(TrimAll(pieces))
    ensures DropTrailingEmpty(TrimAll([StripCr(line)] + raw)) == DropTrailingEmpty(TrimAll([line] + pieces))
  {
    TrimAbsorbsCr(line);
    TrimAllFirst(StripCr(line), raw);
    TrimAllFirst(line, pieces);
    hide *;
    DropOneMore(TrimEnd(line), TrimAll(raw));
    DropOneMore(TrimEnd(line), TrimAll(pieces));
  }

  lemma TrimAllFirst(line: Text, lines: seq<Text>)
    ensures TrimAll([line] + lines) == [TrimEnd(line)] + TrimAll(lines)
  {
  }

  /** Dropping works from the end: a first line survives unless all after it go. */
  lemma {:induction false} DropOneMore(first: Text, lines: seq<Text>)
    ensures DropTrailingEmpty([first] + lines)
         == if DropTrailingEmpty(lines) == [] && first == [] then [] else [first] + DropTrailingEmpty(lines)
    decreases |lines|
  {
    var all := [first] + lines;
    if lines == [] {
      assert all == [first];
      assert all[..0] == [];
    } else {
      assert all[|all| - 1] == lines[|lines| - 1];
      assert all[..|all| - 1] == [first] + lines[..|lines| - 1];
      if lines[|lines| - 1] == [] {
        DropOneMore(first, lines[..|lines| - 1]);
      }
    }
  }

  // ------------------------------------------------- what normalizing ignores

  function Joined(pieces: seq<Text>): Text {
    if pieces == [] then [] else if |pieces| == 1 then pieces[0] else pieces[0] + [LF] + Joined(pieces[1..])
  }

  /** The pieces hold no line feed, and with line feeds between them they make the text. */
  lemma {:induction false} PiecesJoin(t: Text)
    ensures Joined(Pieces(t)) == t && forall p :: p in Pieces(t) ==> LF !in p
    decreases |t|
  {
    var n := LineLength(t);
    var line := t[..n];
    if n == |t| {
      assert line == t;
    } else {
      var rest := t[n + 1..];
      assert t == line + [LF] + rest;
      PiecesJoin(rest);
      assert Pieces(t) == [line] + Pieces(rest);
      hide Pieces, LineLength;
      JoinedMore(line, Pieces(rest));
    }
  }

  lemma JoinedMore(line: Text, pieces: seq<Text>)
    requires pieces != []
    ensures Joined([line] + pieces) == line + [LF] + Joined(pieces)
  {
    assert ([line] + pieces)[1..] == pieces;
  }

  /** Two pieces differ at most in whitespace at their ends. */
  ghost predicate SameButGaps(x: Text, y: Text) {
    exists n: nat :: n <= |x| && n <= |y| && x[..n] == y[..n] && IsGap(x[n..]) && IsGap(y[n..])
  }

  lemma TrimmedSame(x: Text, y: Text)
    ensures TrimEnd(x) == TrimEnd(y) <==> SameButGaps(x, y)
  {
    if TrimEnd(x) == TrimEnd(y) {
      var n := |TrimEnd(x)|;
      assert x[..n] == TrimEnd(x) == y[..n];
    }
    forall n: nat | n <= |x| && n <= |y| && x[..n] == y[..n] && IsGap(x[n..]) && IsGap(y[n..])
      ensures TrimEnd(x) == TrimEnd(y)
    {
      GapAfter(x, n);
      GapAfter(y, n);
      TrimGap(x[..n], x);
      TrimGap(y[..n], y);
    }
  }

  lemma TrimmedAt(t: Text)
    ensures var k := |TrimEnd(t)|;
            && TrimEnd(t) <= t && (k > 0 ==> !IsWhitespace(t[k - 1]))
            && forall i :: k <= i < |t| ==> IsWhitespace(t[i])
  {
    var k := |TrimEnd(t)|;
    assert IsGap(t[k..]);
    hide TrimEnd, IsWhitespace;
    forall i | k <= i < |t| ensures IsWhitespace(t[i]) {
      assert t[k..][i - k] == t[i];
    }
  }

  lemma TrimmedLength(t: Text, m: nat)
    requires m <= |t| && (m > 0 ==> !IsWhitespace(t[m - 1]))
    requires forall i :: m <= i < |t| ==> IsWhitespace(t[i])
    ensures TrimEnd(t) == t[..m]
  {
    TrimmedAt(t);
    hide TrimEnd, IsWhitespace;
    assert |TrimEnd(t)| == m;
  }

  /** Whitespace at the end makes no difference to trimming. */
  lemma TrimGap(t: Text, longer: Text)
    requires t <= longer && forall i :: |t| <= i < |longer| ==> IsWhitespace(longer[i])
    ensures TrimEnd(longer) == TrimEnd(t)
  {
    TrimmedAt(t);
    hide TrimEnd, IsWhitespace;
    var m := |TrimEnd(t)|;
    TrimmedLength(longer, m);
    assert longer[..m] == t[..m];
  }

  lemma GapAfter(t: Text, n: nat)
    requires n <= |t| && IsGap(t[n..])
    ensures forall i :: n <= i < |t| ==> IsWhitespace(t[i])
  {
    hide IsWhitespace;
    forall i | n <= i < |t| ensures IsWhitespace(t[i]) {
      assert t[n..][i - n] == t[i];
    }
  }

  /** The `i`th line of a list that goes on with blank ones. */
  function At(lines: seq<Text>, i: nat): Text { if i < |lines| then lines[i] else [] }

  lemma {:induction false} DropMeans(lines: seq<Text>)
    ensures var kept := DropTrailingEmpty(lines);
            && kept <= lines && (kept != [] ==> kept[|kept| - 1] != [])
            && forall i: nat :: At(kept, i) == At(lines, i)
    decreases |lines|
  {
    if lines != [] && lines[|lines| - 1] == [] {
      DropMeans(lines[..|lines| - 1]);
    }
  }

  lemma DroppedSame(a: seq<Text>, b: seq<Text>)
    ensures DropTrailingEmpty(a) == DropTrailingEmpty(b) <==> forall i: nat :: At(a, i) == At(b, i)
  {
    DropMeans(a);
    DropMeans(b);
    hide DropTrailingEmpty;
    var c, d := DropTrailingEmpty(a), DropTrailingEmpty(b);
    if c == d {
      forall i: nat ensures At(a, i) == At(b, i) {
        assert At(a, i) == At(c, i) == At(b, i);
      }
    }
    if forall i: nat :: At(a, i) == At(b, i) {
      assert forall i: nat :: At(c, i) == At(a, i) == At(b, i) == At(d, i);
      assert c != [] ==> At(c, |c| - 1) == At(d, |c| - 1) != [];
      assert d != [] ==> At(d, |d| - 1) == At(c, |d| - 1) != [];
      assert |c| == |d|;
      assert forall i :: 0 <= i < |c| ==> c[i] == At(c, i) == At(d, i) == d[i];
    }
  }

  lemma {:induction false} TrimAllAt(lines: seq<Text>, i: nat)
    ensures At(TrimAll(lines), i) == TrimEnd(At(lines, i))
  {
    if lines != [] && i > 0 {
      TrimAllAt(lines[1..], i - 1);
    }
  }

  /** Two texts have the same pieces between line feeds but for whitespace at the ends of
      pieces, and for blank pieces at the end. */
  ghost predicate SameLines(t: Text, u: Text) {
    forall i: nat :: SameButGaps(At(Pieces(t), i), At(Pieces(u), i))
  }

  /** Normalizing ignores exactly that. */
  lemma NormalLinesIgnore(t: Text, u: Text)
    ensures NormalLines(t) == NormalLines(u) <==> SameLines(t, u)
  {
    NormalLinesArePieces(t);
    NormalLinesArePieces(u);
    DroppedSame(TrimAll(Pieces(t)), TrimAll(Pieces(u)));
    hide NormalLines, DropTrailingEmpty, TrimAll, TrimEnd, Pieces, SameButGaps, At;
    forall i: nat
      ensures At(TrimAll(Pieces(t)), i) == At(TrimAll(Pieces(u)), i) <==> SameButGaps(At(Pieces(t), i), At(Pieces(u), i))
    {
      TrimAllAt(Pieces(t), i);
      TrimAllAt(Pieces(u), i);
      TrimmedSame(At(Pieces(t), i), At(Pieces(u), i));
    }
  }

  // ------------------------------------------- what a text that breaks off shows

  /** The tokens of a text that breaks off are those up to its last whitespace. */
  lemma FinishedTokens(t: Text, unfinished: Text)
    requires t == [] || IsWhitespace(t[|t| - 1])
    requires forall i :: 0 <= i < |unfinished| ==> !IsWhitespace(unfinished[i])
    ensures EmittedTokens(t + unfinished, false) == Tokens(t)
  {
    hide IsWhitespace, Tokens;
    if unfinished == [] {
      assert t + unfinished == t;
    } else {
      LastToken(t, unfinished);
      var all := t + unfinished;
      assert all[|all| - 1] == unfinished[|unfinished| - 1];
      assert (Tokens(t) + [unfinished])[..|Tokens(t)|] == Tokens(t);
    }
  }

  lemma LastToken(t: Text, last: Text)
    requires (t == [] || IsWhitespace(t[|t| - 1])) && IsWord(last)
    ensures Tokens(t + last) == Tokens(t) + [last]
  {
    WordFirst(last, []);
    assert last + [] == last && Tokens([]) == [];
    hide Tokens, IsWhitespace;
    if t == [] {
      assert t + last == last;
    } else {
      var n := |t| - 1;
      TokensAround(t[..n], t[n], last);
      TokensAround(t[..n], t[n], []);
      assert t == t[..n] + [t[n]] && t[..n] + [t[n]] + [] == t;
    }
  }

  /** And its lines are those up to its last line feed. */
  lemma FinishedLines(t: Text, unfinished: Text)
    requires t == [] || t[|t| - 1] == LF
    requires LF !in unfinished
    ensures EmittedLines(t + unfinished, false) == RawLines(t)
  {
    hide RawLines;
    if unfinished == [] {
      assert t + unfinished == t;
    } else {
      LastLine(t, unfinished);
      var all := t + unfinished;
      assert all[|all| - 1] == unfinished[|unfinished| - 1] && unfinished[|unfinished| - 1] in unfinished;
      assert (RawLines(t) + [unfinished])[..|RawLines(t)|] == RawLines(t);
    }
  }

  lemma {:induction false} LastLine(t: Text, last: Text)
    requires (t == [] || t[|t| - 1] == LF) && last != [] && LF !in last
    ensures RawLines(t + last) == RawLines(t) + [last]
    decreases |t|
  {
    if t == [] {
      FirstLine(last, []);
      assert t + last == last;
      assert RawLines(t) + [last] == [last];
    } else {
      var line, rest := SplitAtLf(t);
      assert rest != [] ==> rest[|rest| - 1] == t[|t| - 1];
      LastLine(rest, last);
      hide RawLines, StripCr;
      Regrouped(line + [LF], rest, last);
      FirstLine(line, rest);
      FirstLine(line, rest + last);
      Regrouped([StripCr(line)], RawLines(rest), [last]);
    }
  }

  lemma SplitAtLf(t: Text) returns (line: Text, rest: Text)
    requires t != [] && t[|t| - 1] == LF
    ensures t == line + [LF] + rest && LF !in line
  {
    var n := LineLength(t);
    assert t[..|t|] == t && t[|t| - 1] in t;
    line, rest := t[..n], t[n + 1..];
  }

  lemma Regrouped<T>(a: seq<T>, b: seq<T>, c: seq<T>)
    ensures (a + b) + c == a + (b + c)
  {
  }

  // -------------------------------------------------------- tokens of lines

  function TokensOfAll(lines: seq<Text>): seq<Text> {
    if lines == [] then [] else Tokens(lines[0]) + TokensOfAll(lines[1..])
  }

  lemma {:induction false} TokensOfTrimmed(t: Text)
    ensures Tokens(TrimEnd(t)) == Tokens(t)
    decreases |t|
  {
    if t != [] && IsWhitespace(t[|t| - 1]) {
      var n := |t| - 1;
      TokensOfTrimmed(t[..n]);
      TokensAround(t[..n], t[n], []);
      assert t[..n] + [t[n]] + [] == t;
    }
  }

  lemma {:induction false} TokensOfPieces(t: Text)
    ensures Tokens(t) == TokensOfAll(TrimAll(Pieces(t)))
    decreases |t|
  {
    var n := LineLength(t);
    TokensOfTrimmed(t[..n]);
    if n == |t| {
      assert t[..n] == t;
      assert TokensOfAll([TrimEnd(t)]) == Tokens(TrimEnd(t)) + [];
    } else {
      assert t == t[..n] + [LF] + t[n + 1..];
      TokensAround(t[..n], LF, t[n + 1..]);
      TokensOfPieces(t[n + 1..]);
    }
  }

  lemma {:induction false} TokensDespiteDrop(lines: seq<Text>)
    ensures TokensOfAll(DropTrailingEmpty(lines)) == TokensOfAll(lines)
  {
    if lines != [] {
      TokensDespiteDrop(lines[1..]);
      assert lines == [lines[0]] + lines[1..];
      DropOneMore(lines[0], lines[1..]);
    }
  }

  /** Tokens never straddle lines: those of a text are those of its normalized lines
      one after the other. */
  lemma TokensOfNormalLines(t: Text)
    ensures Tokens(t) == TokensOfAll(NormalLines(t))
  {
    NormalLinesArePieces(t);
    TokensOfPieces(t);
    TokensDespiteDrop(TrimAll(Pieces(t)));
  }
}
