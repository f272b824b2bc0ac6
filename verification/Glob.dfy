/** The file-name glob of the development watcher: `*` and `?` by backtracking. */
module Glob {
  import opened Utf8

  const STAR: Scalar := 0x2A
  const ONE_CHAR: Scalar := 0x3F

  /** The program panics when it slices the text inside a character. */
  datatype Result = Matched | Unmatched | Panicked

  predicate Ascii(t: Text) { forall c :: c in t ==> c < 0x80 }

  // ------------------------------------------------------- what is to be matched

  /** `piece` is what one pattern character may stand for. */
  predicate Stands(p: Scalar, piece: Text) {
    p == STAR || (|piece| == 1 && (p == ONE_CHAR || piece[0] == p))
  }

  function Join(pieces: seq<Text>): Text {
    if pieces == [] then [] else pieces[0] + Join(pieces[1..])
  }

  /** The text is one piece for each pattern character. */
  ghost predicate Matches(pattern: Text, text: Text) {
    exists pieces: seq<Text> :: Fits(pattern, text, pieces)
  }

  ghost predicate Fits(pattern: Text, text: Text, pieces: seq<Text>) {
    |pieces| == |pattern| && text == Join(pieces) && forall i :: 0 <= i < |pattern| ==> Stands(pattern[i], pieces[i])
  }

  lemma MatchesNothing(text: Text)
    ensures Matches([], text) <==> text == []
  {
    if text == [] {
      assert Fits([], text, []);
    }
  }

  lemma MatchesStep(pattern: Text, text: Text)
    requires pattern != []
    ensures Matches(pattern, text)
       <==> exists n :: 0 <= n <= |text| && Stands(pattern[0], text[..n]) && Matches(pattern[1..], text[n..])
  {
    if Matches(pattern, text) {
      var pieces :| Fits(pattern, text, pieces);
      var n := |pieces[0]|;
      assert text[..n] == pieces[0] && text[n..] == Join(pieces[1..]);
      assert Fits(pattern[1..], text[n..], pieces[1..]);
    }
    forall n | 0 <= n <= |text| && Stands(pattern[0], text[..n]) && Matches(pattern[1..], text[n..])
      ensures Matches(pattern, text)
    {
      var rest :| Fits(pattern[1..], text[n..], rest);
      var pieces := [text[..n]] + rest;
      assert pieces[1..] == rest && text == text[..n] + text[n..];
      forall i | 0 <= i < |pattern| ensures Stands(pattern[i], pieces[i]) {
        assert i > 0 ==> pattern[i] == pattern[1..][i - 1] && pieces[i] == rest[i - 1];
      }
      assert Fits(pattern, text, pieces);
    }
  }

  /** A pattern that does not start with a star consumes one character. */
  lemma MatchesOne(pattern: Text, text: Text)
    requires pattern != [] && pattern[0] != STAR
    ensures Matches(pattern, text) <==>
              text != [] && (pattern[0] == ONE_CHAR || text[0] == pattern[0]) && Matches(pattern[1..], text[1..])
  {
    hide Matches;
    MatchesStep(pattern, text);
    if text != [] {
      assert text[..1] == [text[0]];
    }
  }

  lemma MatchesStar(pattern: Text, text: Text)
    requires pattern != [] && pattern[0] == STAR
    ensures Matches(pattern, text) <==> exists n :: 0 <= n <= |text| && Matches(pattern[1..], text[n..])
  {
    hide Matches;
    MatchesStep(pattern, text);
    forall n | 0 <= n <= |text| ensures Stands(pattern[0], text[..n]) {
    }
  }

  // ------------------------------------------------------------------ the matcher

  function Size(c: Scalar): nat { |Encode(c)| }

  lemma SizeBounds(c: Scalar)
    ensures 1 <= Size(c) <= 4 && (Size(c) == 1 <==> c < 0x80)
  {
  }

  /** The length of the text in bytes. */
  function ByteLength(t: Text): nat {
    if t == [] then 0 else Size(t[0]) + ByteLength(t[1..])
  }

  datatype Boundary = Inside | At(chars: nat)

  /** How many characters lie before byte `i`, if a character starts or the text ends
      there: slicing anywhere else panics. */
  function BoundaryAt(t: Text, i: nat): (b: Boundary)
    ensures b.At? ==> b.chars <= |t|
  {
    if i == 0 then At(0)
    else if t == [] || i < Size(t[0]) then Inside
    else match BoundaryAt(t[1..], i - Size(t[0]))
      case Inside => Inside
      case At(n) => At(n + 1)
  }

  /** What the matcher returns. */
  function Glob(pattern: Text, text: Text): Result
    decreases |pattern|, 1, 0
  {
    if pattern == [] then if text == [] then Matched else Unmatched
    else if pattern[0] == STAR then
      if |pattern| == 1 then Matched else TryFrom(pattern[1..], text, 0)
    else if text == [] || (pattern[0] != ONE_CHAR && text[0] != pattern[0]) then Unmatched
    else Glob(pattern[1..], text[1..])
  }

  /** Try the pattern on the text from each byte offset in turn, starting at `i`. */
  function TryFrom(pattern: Text, text: Text, i: nat): Result
    decreases |pattern|, 2, ByteLength(text) + 1 - i
  {
    if i > ByteLength(text) then Unmatched
    else match BoundaryAt(text, i)
      case Inside => Panicked
      case At(n) =>
        var r := Glob(pattern, text[n..]);
        if r != Unmatched then r else TryFrom(pattern, text, i + 1)
  }

  /** Two iterators advance together; a star hands what is left to a recursive call for
      each byte offset in turn. */
  method GlobMatch(pattern: Text, text: Text) returns (r: Result)
    ensures r == Glob(pattern, text)
    decreases |pattern|
  {
    var p, t := pattern, text;
    while p != [] || t != []
      invariant |p| <= |pattern|
      invariant Glob(pattern, text) == Glob(p, t)
      decreases |p| + |t|
    {
      if p == [] {
        return Unmatched;
      }
      if p[0] == STAR {
        p := p[1..];
        if p == [] {
          return Matched;
        }
        for i := 0 to ByteLength(t) + 1
          invariant Glob(pattern, text) == TryFrom(p, t, i)
        {
          var start := BoundaryAt(t, i);
          if start.Inside? {
            return Panicked;
          }
          var rest := GlobMatch(p, t[start.chars..]);
          if rest != Unmatched {
            return rest;
          }
        }
        return Unmatched;
      }
      if t == [] || (p[0] != ONE_CHAR && t[0] != p[0]) {
        return Unmatched;
      }
      p, t := p[1..], t[1..];
    }
    return Matched;
  }

  // ---------------------------------------------------------- what it decides

  /** Every character starts at some byte offset. */
  lemma {:induction false} OffsetOf(t: Text, n: nat) returns (i: nat)
    requires n <= |t|
    ensures i <= ByteLength(t) && BoundaryAt(t, i) == At(n)
  {
    if n == 0 {
      i := 0;
    } else {
      SizeBounds(t[0]);
      var j := OffsetOf(t[1..], n - 1);
      i := j + Size(t[0]);
    }
  }

  /** Unless it panics, the matcher decides whether the text matches. */
  lemma {:induction false} GlobDecides(pattern: Text, text: Text)
    ensures Glob(pattern, text) != Panicked ==> (Glob(pattern, text) == Matched <==> Matches(pattern, text))
    decreases |pattern|, 1, 0
  {
    hide Matches;
    if pattern == [] {
      MatchesNothing(text);
    } else if pattern[0] == STAR {
      MatchesStar(pattern, text);
      if |pattern| == 1 {
        MatchesNothing(text[|text|..]);
        assert pattern[1..] == [] && Matches(pattern[1..], text[|text|..]);
      } else {
        TryDecides(pattern[1..], text, 0);
        if n: nat :| n <= |text| && Matches(pattern[1..], text[n..]) {
          var i := OffsetOf(text, n);
          assert StartsMatch(pattern[1..], text, i);
        }
      }
    } else {
      MatchesOne(pattern, text);
      if text != [] {
        GlobDecides(pattern[1..], text[1..]);
      }
    }
  }

  /** The pattern matches from the character at byte `i`. */
  ghost predicate StartsMatch(pattern: Text, text: Text, i: nat) {
    BoundaryAt(text, i).At? && Matches(pattern, text[BoundaryAt(text, i).chars..])
  }

  lemma {:induction false} TryDecides(pattern: Text, text: Text, i: nat)
    ensures TryFrom(pattern, text, i) != Panicked ==>
              (TryFrom(pattern, text, i) == Matched
               <==> exists j: nat :: i <= j <= ByteLength(text) && StartsMatch(pattern, text, j))
    decreases |pattern|, 2, ByteLength(text) + 1 - i
  {
    hide Matches;
    if i <= ByteLength(text) && BoundaryAt(text, i).At? {
      GlobDecides(pattern, text[BoundaryAt(text, i).chars..]);
      TryDecides(pattern, text, i + 1);
      var matched := Glob(pattern, text[BoundaryAt(text, i).chars..]) == Matched;
      assert matched ==> StartsMatch(pattern, text, i);
      if j: nat :| i <= j <= ByteLength(text) && StartsMatch(pattern, text, j) {
        assert j == i || i + 1 <= j <= ByteLength(text);
      }
    }
  }

  lemma {:induction false} AsciiOffsets(t: Text, i: nat)
    requires Ascii(t) && i <= ByteLength(t)
    ensures BoundaryAt(t, i).At?
  {
    if i > 0 {
      SizeBounds(t[0]);
      assert t[0] in t && forall c :: c in t[1..] ==> c in t;
      AsciiOffsets(t[1..], i - 1);
    }
  }

  lemma {:induction false} AsciiNeverPanics(pattern: Text, text: Text)
    requires Ascii(text)
    ensures Glob(pattern, text) != Panicked
    decreases |pattern|, 1, 0
  {
    if pattern != [] && pattern[0] == STAR && |pattern| > 1 {
      AsciiTriesNeverPanic(pattern[1..], text, 0);
    } else if pattern != [] && text != [] {
      assert forall c :: c in text[1..] ==> c in text;
      AsciiNeverPanics(pattern[1..], text[1..]);
    }
  }

  lemma {:induction false} AsciiTriesNeverPanic(pattern: Text, text: Text, i: nat)
    requires Ascii(text)
    ensures TryFrom(pattern, text, i) != Panicked
    decreases |pattern|, 2, ByteLength(text) + 1 - i
  {
    if i <= ByteLength(text) {
      AsciiOffsets(text, i);
      var rest := text[BoundaryAt(text, i).chars..];
      assert forall c :: c in rest ==> c in text;
      AsciiNeverPanics(pattern, rest);
      AsciiTriesNeverPanic(pattern, text, i + 1);
    }
  }

  /** As many single-character wildcards. */
  function Wildcards(n: nat): Text { seq(n, _ => ONE_CHAR) }

  lemma {:induction false} TooManyWildcards(n: nat, text: Text)
    requires n > |text|
    ensures Glob(Wildcards(n), text) == Unmatched
    decreases n
  {
    if text != [] {
      assert Wildcards(n)[1..] == Wildcards(n - 1);
      TooManyWildcards(n - 1, text[1..]);
    }
  }

  lemma {:induction false} OffsetInside(t: Text) returns (i: nat)
    requires !Ascii(t)
    ensures i <= ByteLength(t) && BoundaryAt(t, i) == Inside
  {
    SizeBounds(t[0]);
    if t[0] >= 0x80 {
      i := 1;
    } else {
      assert t == [t[0]] + t[1..];
      var j := OffsetInside(t[1..]);
      i := j + 1;
      assert BoundaryAt(t[1..], 0) == At(0);
    }
  }

  lemma {:induction false} TriesPanic(n: nat, text: Text, i: nat, inside: nat)
    requires n > |text| && i <= inside <= ByteLength(text) && BoundaryAt(text, inside) == Inside
    ensures TryFrom(Wildcards(n), text, i) == Panicked
    decreases inside - i
  {
    if BoundaryAt(text, i).At? {
      TooManyWildcards(n, text[BoundaryAt(text, i).chars..]);
      TriesPanic(n, text, i + 1, inside);
    }
  }

  /** The matcher slices the text at byte offsets, so it is safe for every pattern on
      exactly the ASCII texts. */
  lemma SafeIffAscii(text: Text)
    ensures Ascii(text) <==> forall pattern: Text :: Glob(pattern, text) != Panicked
  {
    if Ascii(text) {
      forall pattern: Text ensures Glob(pattern, text) != Panicked {
        AsciiNeverPanics(pattern, text);
      }
    } else {
      var inside := OffsetInside(text);
      var n := |text| + 1;
      var pattern := [STAR] + Wildcards(n);
      TriesPanic(n, text, 0, inside);
      assert pattern[1..] == Wildcards(n);
      assert Glob(pattern, text) == Panicked;
    }
  }

  /** On ASCII texts the matcher returns exactly whether the text matches. */
  lemma GlobOnAscii(pattern: Text, text: Text)
    requires Ascii(text)
    ensures Glob(pattern, text) == if Matches(pattern, text) then Matched else Unmatched
  {
    AsciiNeverPanics(pattern, text);
    GlobDecides(pattern, text);
  }
}
