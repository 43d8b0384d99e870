/**
 * Base 64 encoding as defined in section 4 of RFC 4648: the standard
 * alphabet `A-Z a-z 0-9 + /` and `=` padding.  The decoder is the encoder's
 * partner; it rejects non-alphabet characters, misplaced padding and
 * non-zero pad bits (section 3.5 of RFC 4648).
 */
module Base64 {
  import opened Wrappers

  type byte = x: int | 0 <= x < 256

  /** The character for a 6-bit value (Table 1 of RFC 4648). */
  function Sym(i: int): (c: char)
    requires 0 <= i < 64
  {
    if i < 26 then ('A' as int + i) as char
    else if i < 52 then ('a' as int + (i - 26)) as char
    else if i < 62 then ('0' as int + (i - 52)) as char
    else if i == 62 then '+'
    else '/'
  }

  /** The 6-bit value of an alphabet character; `None` for any other character. */
  function Value(c: char): (r: Option<int>)
    ensures r.Some? ==> 0 <= r.value < 64 && Sym(r.value) == c
  {
    if 'A' <= c <= 'Z' then Some(c as int - 'A' as int)
    else if 'a' <= c <= 'z' then Some(c as int - 'a' as int + 26)
    else if '0' <= c <= '9' then Some(c as int - '0' as int + 52)
    else if c == '+' then Some(62)
    else if c == '/' then Some(63)
    else None
  }

  /** Every alphabet character decodes back to its own value. */
  lemma ValueSym(i: int)
    requires 0 <= i < 64
    ensures Value(Sym(i)) == Some(i)
  {
  }

  predicate IsAlphabet(c: char) {
    Value(c).Some?
  }

  /** One 24-bit group of three bytes, as four characters. */
  function Quad(b0: byte, b1: byte, b2: byte): string {
    [Sym(b0 / 4), Sym((b0 % 4) * 16 + b1 / 16), Sym((b1 % 16) * 4 + b2 / 64), Sym(b2 % 64)]
  }

  /** Base 64 encoding with padding: every started group of three bytes becomes four characters. */
  function Encode(b: seq<byte>): (r: string)
    ensures |r| == 4 * ((|b| + 2) / 3)
    decreases |b|
  {
    if |b| == 0 then []
    else if |b| == 1 then [Sym(b[0] / 4), Sym((b[0] % 4) * 16), '=', '=']
    else if |b| == 2 then [Sym(b[0] / 4), Sym((b[0] % 4) * 16 + b[1] / 16), Sym((b[1] % 16) * 4), '=']
    else Quad(b[0], b[1], b[2]) + Encode(b[3..])
  }

  lemma EncodeOne(b0: byte)
    ensures Encode([b0]) == [Sym(b0 / 4), Sym((b0 % 4) * 16), '=', '=']
  {
  }

  lemma EncodeTwo(b0: byte, b1: byte)
    ensures Encode([b0, b1]) == [Sym(b0 / 4), Sym((b0 % 4) * 16 + b1 / 16), Sym((b1 % 16) * 4), '=']
  {
  }

  /** The encoding uses only the alphabet and the pad character. */
  lemma {:induction false} EncodeAlphabet(b: seq<byte>)
    ensures forall k :: 0 <= k < |Encode(b)| ==> IsAlphabet(Encode(b)[k]) || Encode(b)[k] == '='
    decreases |b|
  {
    var r := Encode(b);
    if |b| == 1 {
      assert b == [b[0]];
      EncodeOne(b[0]);
      ValueSym(b[0] / 4);
      ValueSym((b[0] % 4) * 16);
    } else if |b| == 2 {
      assert b == [b[0], b[1]];
      EncodeTwo(b[0], b[1]);
      ValueSym(b[0] / 4);
      ValueSym((b[0] % 4) * 16 + b[1] / 16);
      ValueSym((b[1] % 16) * 4);
    } else if |b| >= 3 {
      var q := Quad(b[0], b[1], b[2]);
      QuadRoundTrip(b[0], b[1], b[2]);
      EncodeAlphabet(b[3..]);
      assert r == q + Encode(b[3..]);
      forall k | 0 <= k < |r| ensures IsAlphabet(r[k]) || r[k] == '=' {
        if k >= 4 {
          assert r[k] == Encode(b[3..])[k - 4];
        }
      }
    }
  }

  /**
   * Decodes one four-character group.  Padding (`=` in the last one or two
   * positions) is accepted only when `last` holds, that is for the final group.
   */
  function DecodeGroup(g: string, last: bool): (r: Option<seq<byte>>)
    requires |g| == 4
  {
    var c0, c1 := Value(g[0]), Value(g[1]);
    if c0.None? || c1.None? then None
    else if last && g[2] == '=' && g[3] == '=' then
      if c1.value % 16 == 0 then Some([c0.value * 4 + c1.value / 16]) else None
    else if last && g[3] == '=' then
      var c2 := Value(g[2]);
      if c2.None? || c2.value % 4 != 0 then None
      else Some([c0.value * 4 + c1.value / 16, (c1.value % 16) * 16 + c2.value / 4])
    else
      var c2, c3 := Value(g[2]), Value(g[3]);
      if c2.None? || c3.None? then None
      else Some([c0.value * 4 + c1.value / 16, (c1.value % 16) * 16 + c2.value / 4, (c2.value % 4) * 64 + c3.value])
  }

  function Decode(s: string): (r: Option<seq<byte>>)
    decreases |s|
  {
    if |s| == 0 then Some([])
    else if |s| < 4 then None
    else match DecodeGroup(s[..4], |s| == 4)
      case None => None
      case Some(g) =>
        match Decode(s[4..])
        case None => None
        case Some(rest) => Some(g + rest)
  }

  lemma QuadRoundTrip(b0: byte, b1: byte, b2: byte)
    ensures var q := Quad(b0, b1, b2);
            Value(q[0]) == Some(b0 / 4)
            && Value(q[1]) == Some((b0 % 4) * 16 + b1 / 16)
            && Value(q[2]) == Some((b1 % 16) * 4 + b2 / 64)
            && Value(q[3]) == Some(b2 % 64)
    ensures (b0 / 4) * 4 + ((b0 % 4) * 16 + b1 / 16) / 16 == b0
    ensures (((b0 % 4) * 16 + b1 / 16) % 16) * 16 + ((b1 % 16) * 4 + b2 / 64) / 4 == b1
    ensures (((b1 % 16) * 4 + b2 / 64) % 4) * 64 + b2 % 64 == b2
  {
    ValueSym(b0 / 4);
    ValueSym((b0 % 4) * 16 + b1 / 16);
    ValueSym((b1 % 16) * 4 + b2 / 64);
    ValueSym(b2 % 64);
  }

  /** Splitting a value into its high and low bits and joining them again. */
  lemma JoinBits(hi: int, lo: int, n: int)
    requires n == 4 || n == 16
    requires 0 <= lo < n && 0 <= hi
    ensures (hi * n + lo) / n == hi && (hi * n + lo) % n == lo
  {
  }

  lemma DecodeOne(b0: byte)
    ensures DecodeGroup([Sym(b0 / 4), Sym((b0 % 4) * 16), '=', '='], true) == Some([b0])
  {
    ValueSym(b0 / 4);
    ValueSym((b0 % 4) * 16);
    JoinBits(b0 % 4, 0, 16);
  }

  lemma DecodeTwo(b0: byte, b1: byte)
    ensures DecodeGroup([Sym(b0 / 4), Sym((b0 % 4) * 16 + b1 / 16), Sym((b1 % 16) * 4), '='], true) == Some([b0, b1])
  {
    var c0, c1, c2 := b0 / 4, (b0 % 4) * 16 + b1 / 16, (b1 % 16) * 4;
    ValueSym(c0);
    ValueSym(c1);
    ValueSym(c2);
    JoinBits(b0 % 4, b1 / 16, 16);
    JoinBits(b1 % 16, 0, 4);
    assert c0 * 4 + c1 / 16 == b0;
    assert (c1 % 16) * 16 + c2 / 4 == b1;
  }

  lemma DecodeThree(b0: byte, b1: byte, b2: byte, last: bool)
    ensures DecodeGroup(Quad(b0, b1, b2), last) == Some([b0, b1, b2])
  {
    QuadRoundTrip(b0, b1, b2);
  }

  /** Decoding a single group followed by the decoding of the rest. */
  lemma DecodeCons(s: string, g: seq<byte>, rest: seq<byte>)
    requires |s| >= 4
    requires DecodeGroup(s[..4], |s| == 4) == Some(g)
    requires Decode(s[4..]) == Some(rest)
    ensures Decode(s) == Some(g + rest)
  {
  }

  lemma SplitGroup(b: seq<byte>)
    requires |b| >= 3
    ensures b == [b[0], b[1], b[2]] + b[3..]
  {
  }

  /** A single final group decodes on its own. */
  lemma DecodeSingle(g: string, x: seq<byte>)
    requires |g| == 4 && DecodeGroup(g, true) == Some(x)
    ensures Decode(g) == Some(x)
  {
    assert g[..4] == g;
    assert g[4..] == [];
    assert x + [] == x;
  }

  lemma DecodeEncodeOne(b: seq<byte>)
    requires |b| == 1
    ensures Decode(Encode(b)) == Some(b)
  {
    var b0 := b[0];
    assert b == [b0];
    EncodeOne(b0);
    DecodeOne(b0);
    DecodeSingle([Sym(b0 / 4), Sym((b0 % 4) * 16), '=', '='], b);
  }

  lemma DecodeEncodeTwo(b: seq<byte>)
    requires |b| == 2
    ensures Decode(Encode(b)) == Some(b)
  {
    var b0, b1 := b[0], b[1];
    assert b == [b0, b1];
    EncodeTwo(b0, b1);
    DecodeTwo(b0, b1);
    DecodeSingle([Sym(b0 / 4), Sym((b0 % 4) * 16 + b1 / 16), Sym((b1 % 16) * 4), '='], b);
  }

  lemma DecodeEncodeStep(b: seq<byte>)
    requires |b| >= 3
    requires Decode(Encode(b[3..])) == Some(b[3..])
    ensures Decode(Encode(b)) == Some(b)
  {
    var e := Encode(b);
    var q := Quad(b[0], b[1], b[2]);
    assert e == q + Encode(b[3..]);
    DecodeThree(b[0], b[1], b[2], |e| == 4);
    assert e[..4] == q;
    assert e[4..] == Encode(b[3..]);
    SplitGroup(b);
    DecodeCons(e, [b[0], b[1], b[2]], b[3..]);
  }

  /** Decoding an encoding gives back the original bytes. */
  lemma {:induction false} DecodeEncode(b: seq<byte>)
    ensures Decode(Encode(b)) == Some(b)
    decreases |b|
  {
    if |b| == 0 {
    } else if |b| == 1 {
      DecodeEncodeOne(b);
    } else if |b| == 2 {
      DecodeEncodeTwo(b);
    } else {
      DecodeEncode(b[3..]);
      DecodeEncodeStep(b);
    }
  }

  /** Distinct byte strings have distinct encodings. */
  lemma EncodeInjective(a: seq<byte>, b: seq<byte>)
    requires Encode(a) == Encode(b)
    ensures a == b
  {
    DecodeEncode(a);
    DecodeEncode(b);
  }
}
