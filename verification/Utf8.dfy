/** UTF-8 as RFC 3629 defines it: the encoding of section 3, the byte syntax of
    section 4, and `std::str::from_utf8` as a decoder for that syntax. */
module Utf8 {
  type Byte = b: int | 0 <= b < 0x100
  type Scalar = c: int | 0 <= c < 0xD800 || 0xE000 <= c < 0x110000
  type Text = seq<Scalar>

  // ---------------------------------------------------------------- encoding

  /** The octets of one scalar value (RFC 3629, section 3): six bits to each
      trailing octet, the last ones first. */
  function Encode(c: Scalar): seq<Byte> {
    var last := 0x80 + c % 0x40;
    var c1 := c / 0x40;
    var c2 := c1 / 0x40;
    if c < 0x80 then [c]
    else if c < 0x800 then [0xC0 + c1, last]
    else if c < 0x10000 then [0xE0 + c2, 0x80 + c1 % 0x40, last]
    else [0xF0 + c2 / 0x40, 0x80 + c2 % 0x40, 0x80 + c1 % 0x40, last]
  }

  function EncodeAll(t: Text): seq<Byte> {
    if t == [] then [] else Encode(t[0]) + EncodeAll(t[1..])
  }

  ghost predicate IsUtf8(v: seq<Byte>) {
    exists t: Text :: EncodeAll(t) == v
  }

  // ---------------------------------------------------------------- decoding

  /** How a nonempty byte sequence begins: with one whole scalar value, with
      octets no scalar value starts with, or with an unfinished scalar value. */
  datatype Lead = One(c: Scalar, width: nat) | Bad | Short

  predicate Tail(b: Byte) { 0x80 <= b <= 0xBF }

  function Width(b: Byte): nat {
    if b <= 0x7F then 1
    else if 0xC2 <= b <= 0xDF then 2
    else if 0xE0 <= b <= 0xEF then 3
    else if 0xF0 <= b <= 0xF4 then 4
    else 0
  }

  /** The second octet has a narrower range after E0, ED, F0 and F4. */
  predicate SecondFits(first: Byte, second: Byte) {
    if first == 0xE0 then 0xA0 <= second <= 0xBF
    else if first == 0xED then 0x80 <= second <= 0x9F
    else if first == 0xF0 then 0x90 <= second <= 0xBF
    else if first == 0xF4 then 0x80 <= second <= 0x8F
    else Tail(second)
  }

  /** Six more bits from a trailing octet. */
  function Extend(high: int, b: Byte): int { high * 0x40 + (b - 0x80) }

  function First(s: seq<Byte>): (lead: Lead)
    requires s != []
    ensures lead.One? ==> 0 < lead.width <= |s|
  {
    var w := Width(s[0]);
    if w == 0 then Bad
    else if w == 1 then One(s[0], 1)
    else if |s| == 1 then Short
    else if !SecondFits(s[0], s[1]) then Bad
    else if w == 2 then One(Extend(s[0] - 0xC0, s[1]), 2)
    else if |s| == 2 then Short
    else if !Tail(s[2]) then Bad
    else if w == 3 then One(Extend(Extend(s[0] - 0xE0, s[1]), s[2]), 3)
    else if |s| == 3 then Short
    else if !Tail(s[3]) then Bad
    else One(Extend(Extend(Extend(s[0] - 0xF0, s[1]), s[2]), s[3]), 4)
  }

  /** What a byte sequence says: the characters of its longest valid prefix, how
      it goes on after them, and the bytes that are left. */
  datatype End = Clean | Truncated | Malformed
  datatype Decoded = Decoded(chars: Text, end: End, rest: seq<Byte>)

  function Decode(v: seq<Byte>): Decoded
    decreases |v|
  {
    if v == [] then Decoded([], Clean, [])
    else match First(v)
      case One(c, w) => Decode(v[w..]).(chars := [c] + Decode(v[w..]).chars)
      case Bad => Decoded([], Malformed, v)
      case Short => Decoded([], Truncated, v)
  }

  /** `std::str::from_utf8`: on error, where the valid part ends and whether
      `Utf8Error::error_len` is `Some` (it is `None` for a mere truncation). */
  datatype Str = Utf8Ok(chars: Text) | Utf8Error(validUpTo: int, hasErrorLen: bool)

  function FromUtf8(v: seq<Byte>): Str {
    var d := Decode(v);
    if d.end.Clean? then Utf8Ok(d.chars)
    else Utf8Error(|v| - |d.rest|, d.end.Malformed?)
  }

  // ------------------------------------------------- decoder against encoding

  lemma FirstOfEncoding(c: Scalar, rest: seq<Byte>)
    ensures First(Encode(c) + rest) == One(c, |Encode(c)|)
  {
    var s := Encode(c) + rest;
    var c1 := c / 0x40;
    var c2 := c1 / 0x40;
    if c < 0x800 {
      assert c == Extend(c1, 0x80 + c % 0x40);
    } else if c < 0x10000 {
      assert c == Extend(Extend(c2, 0x80 + c1 % 0x40), 0x80 + c % 0x40);
      assert s[..3] == Encode(c);
    } else {
      assert c == Extend(Extend(Extend(c2 / 0x40, 0x80 + c2 % 0x40), 0x80 + c1 % 0x40), 0x80 + c % 0x40);
      assert s[..4] == Encode(c);
    }
  }

  lemma ExtendInverse(high: int, b: Byte)
    requires Tail(b)
    ensures Extend(high, b) / 0x40 == high && 0x80 + Extend(high, b) % 0x40 == b
  {
  }

  lemma FirstIsEncoding(s: seq<Byte>)
    requires s != [] && First(s).One?
    ensures 0 < First(s).width <= |s| && s[..First(s).width] == Encode(First(s).c)
  {
    var w := First(s).width;
    if w == 2 {
      ExtendInverse(s[0] - 0xC0, s[1]);
    } else if w == 3 {
      ExtendInverse(s[0] - 0xE0, s[1]);
      ExtendInverse(Extend(s[0] - 0xE0, s[1]), s[2]);
    } else if w == 4 {
      ExtendInverse(s[0] - 0xF0, s[1]);
      ExtendInverse(Extend(s[0] - 0xF0, s[1]), s[2]);
      ExtendInverse(Extend(Extend(s[0] - 0xF0, s[1]), s[2]), s[3]);
    }
    assert s[..w] == Encode(First(s).c);
  }

  /** An unfinished start is a proper prefix of some scalar value's octets. */
  lemma ShortIsUnfinished(s: seq<Byte>) returns (c: Scalar)
    requires s != [] && First(s).Short?
    ensures s < Encode(c)
  {
    var w := Width(s[0]);
    var b1 := if |s| > 1 then s[1] else if s[0] == 0xE0 then 0xA0 else if s[0] == 0xF0 then 0x90 else 0x80;
    var b2 := if |s| > 2 then s[2] else 0x80;
    var whole := if w == 2 then [s[0], b1] else if w == 3 then [s[0], b1, b2] else [s[0], b1, b2, 0x80];
    c := First(whole).c;
    FirstIsEncoding(whole);
  }

  lemma UnfinishedIsShort(s: seq<Byte>, c: Scalar)
    requires s != [] && s < Encode(c)
    ensures First(s).Short?
  {
    FirstOfEncoding(c, []);
    assert Encode(c) + [] == Encode(c);
  }

  lemma BadStaysBad(s: seq<Byte>, more: seq<Byte>)
    requires s != [] && First(s).Bad?
    ensures First(s + more).Bad?
  {
  }

  // ----------------------------------------------------------- whole sequences

  lemma EncodeAllAppend(a: Text, b: Text)
    ensures EncodeAll(a + b) == EncodeAll(a) + EncodeAll(b)
  {
    hide Encode;
    if a == [] {
      assert a + b == b;
    } else {
      EncodeAllAppend(a[1..], b);
      assert (a + b)[1..] == a[1..] + b;
    }
  }

  lemma DecodeOne(c: Scalar, after: seq<Byte>)
    ensures Decode(Encode(c) + after) == Decode(after).(chars := [c] + Decode(after).chars)
  {
    hide Encode, First;
    FirstOfEncoding(c, after);
    assert (Encode(c) + after)[|Encode(c)|..] == after;
  }

  /** Encoding then decoding gives the text back, whatever follows it. */
  lemma {:induction false} DecodeOfEncoding(t: Text, rest: seq<Byte>)
    ensures Decode(EncodeAll(t) + rest) == Decode(rest).(chars := t + Decode(rest).chars)
  {
    hide Encode, Decode;
    if t == [] {
      assert EncodeAll(t) + rest == rest;
      assert t + Decode(rest).chars == Decode(rest).chars;
    } else {
      var after := EncodeAll(t[1..]) + rest;
      assert EncodeAll(t) + rest == Encode(t[0]) + after;
      DecodeOne(t[0], after);
      DecodeOfEncoding(t[1..], rest);
      assert t + Decode(rest).chars == [t[0]] + (t[1..] + Decode(rest).chars);
    }
  }

  /** Decoding splits a sequence into encoded characters and a rest, and the rest
      is empty, unfinished or malformed. */
  lemma {:induction false} DecodeSplits(v: seq<Byte>)
    ensures var d := Decode(v);
            && v == EncodeAll(d.chars) + d.rest
            && match d.end
               case Clean => d.rest == []
               case Truncated => d.rest != [] && First(d.rest).Short?
               case Malformed => d.rest != [] && First(d.rest).Bad?
    decreases |v|
  {
    hide Encode, First;
    if v != [] && First(v).One? {
      FirstIsEncoding(v);
      var w := First(v).width;
      DecodeSplits(v[w..]);
      var d := Decode(v[w..]);
      EncodeAllFirst(First(v).c, d.chars);
      Glue(v, w, EncodeAll(d.chars), d.rest);
    }
  }

  lemma Glue(v: seq<Byte>, n: nat, middle: seq<Byte>, end: seq<Byte>)
    requires n <= |v| && v[n..] == middle + end
    ensures v == v[..n] + middle + end
  {
    assert v == v[..n] + v[n..];
  }

  lemma EncodeAllFirst(c: Scalar, t: Text)
    ensures EncodeAll([c] + t) == Encode(c) + EncodeAll(t)
  {
    hide Encode;
    assert ([c] + t)[1..] == t;
  }

  /** Decoding succeeds on exactly the encodings of texts, and says which text. */
  lemma CleanIffUtf8(v: seq<Byte>)
    ensures Decode(v).end.Clean? <==> IsUtf8(v)
    ensures forall t: Text :: EncodeAll(t) == v ==> Decode(v) == Decoded(t, Clean, [])
  {
    DecodeSplits(v);
    if Decode(v).end.Clean? {
      assert EncodeAll(Decode(v).chars) == v;
    }
    forall t: Text | EncodeAll(t) == v
      ensures Decode(v) == Decoded(t, Clean, [])
    {
      DecodeOfEncoding(t, []);
      assert EncodeAll(t) + [] == v;
      assert t + [] == t;
    }
  }

  /** More bytes after a malformed sequence change nothing but the rest; after any
      other sequence they continue from its undecoded rest. */
  lemma DecodeMore(v: seq<Byte>, more: seq<Byte>)
    ensures Decode(v).end.Malformed? ==> Decode(v + more) == Decode(v).(rest := Decode(v).rest + more)
    ensures !Decode(v).end.Malformed? ==>
              var d := Decode(Decode(v).rest + more);
              Decode(v + more) == d.(chars := Decode(v).chars + d.chars)
  {
    hide Encode, First;
    var d := Decode(v);
    DecodeSplits(v);
    DecodeOfEncoding(d.chars, d.rest + more);
    assert v + more == EncodeAll(d.chars) + (d.rest + more);
    if d.end.Malformed? {
      BadStaysBad(d.rest, more);
      assert d.chars + [] == d.chars;
    }
  }

  /** Bytes that complete a truncated sequence. */
  lemma Repair(v: seq<Byte>) returns (more: seq<Byte>)
    requires Decode(v).end.Truncated?
    ensures IsUtf8(v + more)
  {
    hide Encode, First;
    var d := Decode(v);
    DecodeSplits(v);
    var c := ShortIsUnfinished(d.rest);
    more := Encode(c)[|d.rest|..];
    EncodeAllAppend(d.chars, [c]);
    assert EncodeAll([c]) == d.rest + more;
    assert EncodeAll(d.chars + [c]) == v + more;
  }

  /** `from_utf8` reports an error length exactly when no further bytes could
      repair the sequence. */
  lemma ErrorLenMeansBeyondRepair(v: seq<Byte>)
    requires FromUtf8(v).Utf8Error?
    ensures FromUtf8(v).hasErrorLen <==> forall more: seq<Byte> :: !IsUtf8(v + more)
  {
    hide Encode, First, IsUtf8;
    if FromUtf8(v).hasErrorLen {
      forall more: seq<Byte> ensures !IsUtf8(v + more) {
        DecodeMore(v, more);
        CleanIffUtf8(v + more);
      }
    } else {
      var more := Repair(v);
    }
  }

  /** The prefix `from_utf8` calls valid holds the characters before the error. */
  lemma ValidPrefix(v: seq<Byte>)
    requires FromUtf8(v).Utf8Error?
    ensures var n := FromUtf8(v).validUpTo;
            0 <= n < |v| && v[n..] == Decode(v).rest && FromUtf8(v[..n]) == Utf8Ok(Decode(v).chars)
  {
    hide Encode, First;
    DecodeSplits(v);
    var n := FromUtf8(v).validUpTo;
    assert v[..n] == EncodeAll(Decode(v).chars);
    CleanIffUtf8(v[..n]);
  }

  /** Decoding stops for want of bytes exactly when what is left is a proper prefix
      of one character's octets, so at most three bytes. */
  lemma TruncatedMeansUnfinished(v: seq<Byte>)
    ensures Decode(v).end.Truncated? <==> Decode(v).rest != [] && exists c: Scalar :: Decode(v).rest < Encode(c)
    ensures Decode(v).end.Truncated? ==> |Decode(v).rest| <= 3
  {
    hide Encode;
    DecodeSplits(v);
    var rest := Decode(v).rest;
    if Decode(v).end.Truncated? {
      var c := ShortIsUnfinished(rest);
    } else if rest != [] {
      forall c: Scalar ensures !(rest < Encode(c)) {
        if rest < Encode(c) {
          UnfinishedIsShort(rest, c);
        }
      }
    }
  }
}
