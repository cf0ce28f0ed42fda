/**
 * Base64 encoding with the standard alphabet and `=` padding, as defined in
 * section 4 of RFC 4648. This is what the browser's `btoa` computes for a
 * string whose characters are all below U+0100, read as bytes.
 *
 * Encoding is split in two steps: octets to 6-bit groups (`Sextets`), and
 * groups to characters (`Symbols`), followed by the padding. A decoder that
 * undoes both steps is given beside the encoder so that the encoding can be
 * shown to lose nothing: `Decode(Encode(b)) == Some(b)`.
 */
module Base64 {
  import opened Wrappers

  /** A 6-bit group, the unit one base64 character stands for. */
  type Sextet = x: int | 0 <= x < 64

  const Pad: char := '='

  predicate IsSymbol(c: char)
  {
    ('A' <= c <= 'Z') || ('a' <= c <= 'z') || ('0' <= c <= '9') || c == '+' || c == '/'
  }

  /** The character of the base64 alphabet for value `v` (Table 1 of RFC 4648). */
  function Symbol(v: Sextet): (c: char)
    ensures IsSymbol(c) && c != Pad
  {
    if v < 26 then ('A' as int + v) as char
    else if v < 52 then ('a' as int + (v - 26)) as char
    else if v < 62 then ('0' as int + (v - 52)) as char
    else if v == 62 then '+'
    else '/'
  }

  /** The value a character of the alphabet stands for; None for any other character. */
  function ValueOf(c: char): (r: Option<Sextet>)
    ensures r.Some? <==> IsSymbol(c)
  {
    if 'A' <= c <= 'Z' then Some(c as int - 'A' as int)
    else if 'a' <= c <= 'z' then Some(c as int - 'a' as int + 26)
    else if '0' <= c <= '9' then Some(c as int - '0' as int + 52)
    else if c == '+' then Some(62)
    else if c == '/' then Some(63)
    else None
  }

  lemma SymbolValue(v: Sextet)
    ensures ValueOf(Symbol(v)) == Some(v)
  {
  }

  /** The four sextets of the 24 bits `b0 b1 b2`, most significant first. */
  function Sextet0(b0: Byte): Sextet { b0 / 4 }
  function Sextet1(b0: Byte, b1: Byte): Sextet { (b0 % 4) * 16 + b1 / 16 }
  function Sextet2(b1: Byte, b2: Byte): Sextet { (b1 % 16) * 4 + b2 / 64 }
  function Sextet3(b2: Byte): Sextet { b2 % 64 }

  /**
   * The 6-bit groups of `b`: every three octets give four groups; a final
   * one or two octets are padded with zero bits to two or three groups.
   */
  function Sextets(b: seq<Byte>): seq<Sextet>
    decreases |b|
  {
    if |b| == 0 then []
    else if |b| == 1 then [Sextet0(b[0]), Sextet1(b[0], 0)]
    else if |b| == 2 then [Sextet0(b[0]), Sextet1(b[0], b[1]), Sextet2(b[1], 0)]
    else [Sextet0(b[0]), Sextet1(b[0], b[1]), Sextet2(b[1], b[2]), Sextet3(b[2])] + Sextets(b[3..])
  }

  /** The characters for a sequence of 6-bit groups. */
  function Symbols(vs: seq<Sextet>): (s: seq<char>)
    ensures |s| == |vs|
    ensures forall i :: 0 <= i < |vs| ==> s[i] == Symbol(vs[i])
  {
    seq(|vs|, i requires 0 <= i < |vs| => Symbol(vs[i]))
  }

  /** The `=` characters that complete the last group of four for `n` octets. */
  function Padding(n: nat): seq<char>
  {
    if n % 3 == 1 then [Pad, Pad] else if n % 3 == 2 then [Pad] else []
  }

  /** Four sextets per group of three octets, and two or three for a last group of one or two. */
  lemma {:induction false} SextetsLength(b: seq<Byte>)
    ensures |Sextets(b)| == (4 * |b| + 2) / 3
    decreases |b|
  {
    if |b| >= 3 {
      SextetsLength(b[3..]);
    }
  }

  /**
   * The base64 text of `b`: four characters per started group of three
   * octets, each from the alphabet or `=`.
   */
  function Encode(b: seq<Byte>): (s: seq<char>)
    ensures |s| == 4 * ((|b| + 2) / 3)
    ensures forall i :: 0 <= i < |s| ==> IsSymbol(s[i]) || s[i] == Pad
  {
    SextetsLength(b);
    Symbols(Sextets(b)) + Padding(|b|)
  }

  /** The first, second and third octet of a group, from its sextets. */
  function Octet0(v0: Sextet, v1: Sextet): Byte { v0 * 4 + v1 / 16 }
  function Octet1(v1: Sextet, v2: Sextet): Byte { (v1 % 16) * 16 + v2 / 4 }
  function Octet2(v2: Sextet, v3: Sextet): Byte { (v2 % 4) * 64 + v3 }

  /** The octets carried by a sequence of 6-bit groups; None when a group is left over alone. */
  function Octets(vs: seq<Sextet>): Option<seq<Byte>>
    decreases |vs|
  {
    if |vs| == 0 then Some([])
    else if |vs| == 1 then None
    else if |vs| == 2 then Some([Octet0(vs[0], vs[1])])
    else if |vs| == 3 then Some([Octet0(vs[0], vs[1]), Octet1(vs[1], vs[2])])
    else
      match Octets(vs[4..])
      case None => None
      case Some(rest) =>
        Some([Octet0(vs[0], vs[1]), Octet1(vs[1], vs[2]), Octet2(vs[2], vs[3])] + rest)
  }

  /** The values of a run of alphabet characters; None when one is not in the alphabet. */
  function Values(s: seq<char>): (r: Option<seq<Sextet>>)
    ensures r.Some? ==> |r.value| == |s|
  {
    if forall i :: 0 <= i < |s| ==> IsSymbol(s[i])
    then Some(seq(|s|, i requires 0 <= i < |s| => ValueOf(s[i]).value))
    else None
  }

  /** The number of `=` at the end of `s`, counting at most two. */
  function PadCount(s: seq<char>): (p: nat)
    ensures p <= 2 && p <= |s|
  {
    if |s| >= 2 && s[|s| - 2] == Pad && s[|s| - 1] == Pad then 2
    else if |s| >= 1 && s[|s| - 1] == Pad then 1
    else 0
  }

  /** The octets whose base64 text is `s`; None when `s` is not well formed. */
  function Decode(s: seq<char>): Option<seq<Byte>>
  {
    if |s| % 4 != 0 then None
    else
      match Values(s[..|s| - PadCount(s)])
      case None => None
      case Some(vs) => Octets(vs)
  }

  /** Reading back the characters of a sequence of groups gives the groups. */
  lemma ValuesOfSymbols(vs: seq<Sextet>)
    ensures Values(Symbols(vs)) == Some(vs)
  {
    var s := Symbols(vs);
    forall i | 0 <= i < |vs| ensures ValueOf(s[i]) == Some(vs[i]) {
      SymbolValue(vs[i]);
    }
    assert seq(|s|, i requires 0 <= i < |s| => ValueOf(s[i]).value) == vs;
  }

  /** The arithmetic of one group: splitting 24 bits into sextets and joining them back. */
  lemma GroupRoundTrip(b0: Byte, b1: Byte, b2: Byte)
    ensures Octet0(Sextet0(b0), Sextet1(b0, b1)) == b0
    ensures Octet1(Sextet1(b0, b1), Sextet2(b1, b2)) == b1
    ensures Octet2(Sextet2(b1, b2), Sextet3(b2)) == b2
  {
    var v1 := Sextet1(b0, b1);
    var v2 := Sextet2(b1, b2);
    assert v1 / 16 == b0 % 4 && v1 % 16 == b1 / 16;
    assert v2 / 4 == b1 % 16 && v2 % 4 == b2 / 64;
  }

  /** Two sextets carry one octet. */
  lemma OctetsOfPair(vs: seq<Sextet>)
    requires |vs| == 2
    ensures Octets(vs) == Some([Octet0(vs[0], vs[1])])
  {
  }

  /** Three sextets carry two octets. */
  lemma OctetsOfTriple(vs: seq<Sextet>)
    requires |vs| == 3
    ensures Octets(vs) == Some([Octet0(vs[0], vs[1]), Octet1(vs[1], vs[2])])
  {
  }

  /** A last group of one octet joins back to that octet. */
  lemma LastGroupOfOne(b0: Byte)
    ensures Octets(Sextets([b0])) == Some([b0])
  {
    var vs := Sextets([b0]);
    assert vs == [Sextet0(b0), Sextet1(b0, 0)];
    OctetsOfPair(vs);
    GroupRoundTrip(b0, 0, 0);
  }

  /** A last group of two octets joins back to those octets. */
  lemma LastGroupOfTwo(b0: Byte, b1: Byte)
    ensures Octets(Sextets([b0, b1])) == Some([b0, b1])
  {
    var vs := Sextets([b0, b1]);
    assert vs == [Sextet0(b0), Sextet1(b0, b1), Sextet2(b1, 0)];
    OctetsOfTriple(vs);
    GroupRoundTrip(b0, b1, 0);
  }

  /** Joining the groups of an octet string gives the octets back. */
  lemma {:induction false} OctetsOfSextets(b: seq<Byte>)
    ensures Octets(Sextets(b)) == Some(b)
    decreases |b|
  {
    if |b| >= 3 {
      GroupRoundTrip(b[0], b[1], b[2]);
      var vs := Sextets(b);
      assert vs[4..] == Sextets(b[3..]);
      OctetsOfSextets(b[3..]);
      assert b == [b[0], b[1], b[2]] + b[3..];
    } else if |b| == 2 {
      LastGroupOfTwo(b[0], b[1]);
      assert b == [b[0], b[1]];
    } else if |b| == 1 {
      LastGroupOfOne(b[0]);
      assert b == [b[0]];
    }
  }

  /** The padding of an encoding is recognised as such, and only the padding. */
  lemma PadCountOfEncode(b: seq<Byte>)
    ensures PadCount(Encode(b)) == |Padding(|b|)|
  {
    var vs := Sextets(b);
    var s := Encode(b);
    if |vs| > 0 {
      assert s[|vs| - 1] == Symbol(vs[|vs| - 1]);
    }
  }

  /** Decoding strips the padding, reads the characters back as groups and joins the groups. */
  lemma DecodeSteps(s: seq<char>, vs: seq<Sextet>)
    requires |s| % 4 == 0
    requires Values(s[..|s| - PadCount(s)]) == Some(vs)
    ensures Decode(s) == Octets(vs)
  {
  }

  /** Decoding the encoding of any octet string gives that string back. */
  lemma RoundTrip(b: seq<Byte>)
    ensures Decode(Encode(b)) == Some(b)
  {
    var s := Encode(b);
    var vs := Sextets(b);
    PadCountOfEncode(b);
    assert s[..|s| - PadCount(s)] == Symbols(vs);
    ValuesOfSymbols(vs);
    DecodeSteps(s, vs);
    OctetsOfSextets(b);
  }
}
