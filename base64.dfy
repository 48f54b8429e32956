/**
 * `encode64` of static/js/upload.webworker.js: base64 in the alphabet of
 * section 4 of RFC 4648, taken over the code units of `escape(input)`. `escape`
 * emits ASCII only, so each code unit is a byte here and `escape` itself is not
 * part of this model. Reading past the end gives NaN, which the bitwise
 * operators turn into 0; the loop is a do-while, so even an empty input yields
 * one group.
 */
module Base64 {
  import opened Wrappers
  import opened Bytes

  /** `keyStr`: the 64 symbols and the pad `=` at index 64. */
  const KEY_STR: string := "ABCDEFGHIJKLMNOP" + "QRSTUVWXYZabcdef" + "ghijklmnopqrstuv" + "wxyz0123456789+/" + "="
  const PAD: nat := 64

  /** `keyStr.charAt(k)`, by character ranges (`KeyStrBySymbols` shows it is the same table). */
  function Symbol(k: nat): char
    requires k <= PAD
  {
    if k < 26 then ('A' as int + k) as char
    else if k < 52 then ('a' as int + (k - 26)) as char
    else if k < 62 then ('0' as int + (k - 52)) as char
    else if k == 62 then '+'
    else if k == 63 then '/'
    else '='
  }

  lemma KeyStrBySymbols()
    ensures KEY_STR == seq(PAD + 1, k requires 0 <= k <= PAD => Symbol(k))
  {
  }

  /** `charCodeAt`: the code unit at `i`, or NaN (`None`) past the end. */
  function CodeAt(s: seq<byte>, i: nat): Option<byte>
  {
    if i < |s| then Some(s[i]) else None
  }

  /** ToInt32 as the bitwise operators apply it: NaN becomes 0. */
  function Bits(c: Option<byte>): nat
  {
    if c.Some? then c.value as nat else 0
  }

  /** One pass of the loop body over three code units (or NaNs). */
  function Group(c1: Option<byte>, c2: Option<byte>, c3: Option<byte>): (g: string)
    ensures |g| == 4
  {
    var enc1 := Bits(c1) / 4;
    var enc2 := (Bits(c1) % 4) * 16 + Bits(c2) / 16;
    var enc3 := if c2.None? then PAD else (Bits(c2) % 16) * 4 + Bits(c3) / 64;
    var enc4 := if c2.None? || c3.None? then PAD else Bits(c3) % 64;
    [Symbol(enc1), Symbol(enc2), Symbol(enc3), Symbol(enc4)]
  }

  /** What the do-while loop computes: one group per started triple, and one for empty input. */
  function Encoded(s: seq<byte>): (t: string)
    ensures |t| % 4 == 0 && |t| >= 4
    decreases |s|
  {
    Group(CodeAt(s, 0), CodeAt(s, 1), CodeAt(s, 2)) + (if |s| <= 3 then "" else Encoded(s[3..]))
  }

  /** Four characters per started group of three bytes, and one group for the empty input. */
  lemma {:induction false} EncodedLength(s: seq<byte>)
    ensures |Encoded(s)| == 4 * (if s == [] then 1 else (|s| + 2) / 3)
    decreases |s|
  {
    EncodedFirstGroup(s);
    if |s| > 3 {
      EncodedLength(s[3..]);
      assert (|s| - 3 + 2) / 3 + 1 == (|s| + 2) / 3;
    }
  }

  /** The loop body's arithmetic: four symbols from three code units, padding for NaNs. */
  method EncodeGroup(chr1: Option<byte>, chr2: Option<byte>, chr3: Option<byte>) returns (group: string)
    ensures group == Group(chr1, chr2, chr3)
  {
    var enc1 := Bits(chr1) / 4;
    var enc2 := (Bits(chr1) % 4) * 16 + Bits(chr2) / 16;
    var enc3 := (Bits(chr2) % 16) * 4 + Bits(chr3) / 64;
    var enc4 := Bits(chr3) % 64;
    if chr2.None? {
      enc3, enc4 := PAD, PAD;
    } else if chr3.None? {
      enc4 := PAD;
    }
    group := [Symbol(enc1), Symbol(enc2), Symbol(enc3), Symbol(enc4)];
  }

  /** `encode64` over the escaped code units. */
  method Encode64(input: seq<byte>) returns (output: string)
    ensures output == Encoded(input)
  {
    output := "";
    var i := 0;
    while true
      invariant i == 0 || i < |input|
      invariant output + Encoded(input[i..]) == Encoded(input)
      decreases |input| - i
    {
      ghost var rest := input[i..];
      var chr1 := CodeAt(input, i);
      var chr2 := CodeAt(input, i + 1);
      var chr3 := CodeAt(input, i + 2);
      assert chr1 == CodeAt(rest, 0) && chr2 == CodeAt(rest, 1) && chr3 == CodeAt(rest, 2);
      i := i + 3;
      var group := EncodeGroup(chr1, chr2, chr3);
      EncodedFirstGroup(rest);
      ghost var before := output;
      output := output + group;
      if i >= |input| {
        assert Encoded(rest) == group;
        break;
      }
      assert rest[3..] == input[i..];
      AppendAssociates(before, group, Encoded(input[i..]));
    }
  }

  lemma AppendAssociates(a: string, b: string, c: string)
    ensures (a + b) + c == a + (b + c)
  {
  }

  // ---- Decoding, the inverse ----

  /** The index of a symbol of the alphabet; anything else reads as the pad. */
  function SymbolValue(ch: char): nat
  {
    if 'A' <= ch <= 'Z' then ch as nat - 'A' as nat
    else if 'a' <= ch <= 'z' then ch as nat - 'a' as nat + 26
    else if '0' <= ch <= '9' then ch as nat - '0' as nat + 52
    else if ch == '+' then 62
    else if ch == '/' then 63
    else PAD
  }

  lemma SymbolValueOfKey(k: nat)
    requires k <= PAD
    ensures SymbolValue(Symbol(k)) == k
  {
  }

  /** One group of four symbols back to one, two or three bytes; a malformed group is `None`. */
  function DecodeGroup(g: string): Option<Bytes>
    requires |g| == 4
  {
    var v1, v2, v3, v4 := SymbolValue(g[0]), SymbolValue(g[1]), SymbolValue(g[2]), SymbolValue(g[3]);
    if v1 == PAD || v2 == PAD || (v3 == PAD && v4 != PAD) then None
    else if v3 == PAD then Some([(v1 * 4 + v2 / 16) as byte])
    else if v4 == PAD then Some([(v1 * 4 + v2 / 16) as byte, ((v2 % 16) * 16 + v3 / 4) as byte])
    else Some([(v1 * 4 + v2 / 16) as byte, ((v2 % 16) * 16 + v3 / 4) as byte, ((v3 % 4) * 64 + v4) as byte])
  }

  /** Base64 decoding, group by group. */
  function Decode(t: string): Option<Bytes>
    requires |t| % 4 == 0
    decreases |t|
  {
    if t == [] then Some([])
    else match (DecodeGroup(t[..4]), Decode(t[4..]))
      case (Some(a), Some(b)) => Some(a + b)
      case _ => None
  }

  /** Splitting a byte into its top six and low two bits, and back. */
  lemma SplitHigh(c1: nat, c2: nat)
    requires c1 < 256 && c2 < 256
    ensures (c1 / 4) * 4 + ((c1 % 4) * 16 + c2 / 16) / 16 == c1
    ensures ((c1 % 4) * 16 + c2 / 16) % 16 == c2 / 16
  {
  }

  lemma SplitMiddle(c2: nat, c3: nat)
    requires c2 < 256 && c3 < 256
    ensures (c2 / 16) * 16 + ((c2 % 16) * 4 + c3 / 64) / 4 == c2
    ensures ((c2 % 16) * 4 + c3 / 64) % 4 == c3 / 64
    ensures (c2 % 16) * 4 + c3 / 64 < 64
  {
  }

  lemma SplitLow(c3: nat)
    requires c3 < 256
    ensures (c3 / 64) * 64 + c3 % 64 == c3
  {
  }

  /** Decoding a group followed by more groups. */
  lemma DecodeFirstGroup(g: string, r: string, a: Bytes, b: Bytes)
    requires |g| == 4 && |r| % 4 == 0
    requires DecodeGroup(g) == Some(a) && Decode(r) == Some(b)
    ensures Decode(g + r) == Some(a + b)
  {
    var t := g + r;
    assert t[..4] == g && t[4..] == r;
  }

  lemma RoundTripOne(b1: byte)
    ensures DecodeGroup(Group(Some(b1), None, None)) == Some([b1])
  {
    var c1 := b1 as nat;
    var g := Group(Some(b1), None, None);
    SplitHigh(c1, 0);
    SymbolValueOfKey(c1 / 4);
    SymbolValueOfKey((c1 % 4) * 16);
    SymbolValueOfKey(PAD);
    assert SymbolValue(g[0]) == c1 / 4 && SymbolValue(g[1]) == (c1 % 4) * 16;
    assert SymbolValue(g[2]) == PAD && SymbolValue(g[3]) == PAD;
  }

  lemma RoundTripTwo(b1: byte, b2: byte)
    ensures DecodeGroup(Group(Some(b1), Some(b2), None)) == Some([b1, b2])
  {
    var c1, c2 := b1 as nat, b2 as nat;
    var g := Group(Some(b1), Some(b2), None);
    var enc2 := (c1 % 4) * 16 + c2 / 16;
    var enc3 := (c2 % 16) * 4;
    SplitHigh(c1, c2);
    SplitMiddle(c2, 0);
    SymbolValueOfKey(c1 / 4);
    SymbolValueOfKey(enc2);
    SymbolValueOfKey(enc3);
    SymbolValueOfKey(PAD);
    assert SymbolValue(g[0]) == c1 / 4 && SymbolValue(g[1]) == enc2;
    assert SymbolValue(g[2]) == enc3 && SymbolValue(g[3]) == PAD;
  }

  lemma RoundTripThree(b1: byte, b2: byte, b3: byte)
    ensures DecodeGroup(Group(Some(b1), Some(b2), Some(b3))) == Some([b1, b2, b3])
  {
    var c1, c2, c3 := b1 as nat, b2 as nat, b3 as nat;
    var g := Group(Some(b1), Some(b2), Some(b3));
    var enc2 := (c1 % 4) * 16 + c2 / 16;
    var enc3 := (c2 % 16) * 4 + c3 / 64;
    SplitHigh(c1, c2);
    SplitMiddle(c2, c3);
    SplitLow(c3);
    SymbolValueOfKey(c1 / 4);
    SymbolValueOfKey(enc2);
    SymbolValueOfKey(enc3);
    SymbolValueOfKey(c3 % 64);
    assert SymbolValue(g[0]) == c1 / 4 && SymbolValue(g[1]) == enc2;
    assert SymbolValue(g[2]) == enc3 && SymbolValue(g[3]) == c3 % 64;
  }

  /** A group decodes to the one, two or three bytes it encodes. */
  lemma GroupRoundTrip(s: seq<byte>)
    requires s != []
    ensures DecodeGroup(Group(CodeAt(s, 0), CodeAt(s, 1), CodeAt(s, 2))) == Some(s[..if |s| < 3 then |s| else 3])
  {
    if |s| == 1 {
      RoundTripOne(s[0]);
      assert s[..1] == [s[0]];
    } else if |s| == 2 {
      RoundTripTwo(s[0], s[1]);
      assert s[..2] == [s[0], s[1]];
    } else {
      RoundTripThree(s[0], s[1], s[2]);
      assert s[..3] == [s[0], s[1], s[2]];
    }
  }

  lemma EncodedFirstGroup(s: seq<byte>)
    ensures |s| <= 3 ==> Encoded(s) == Group(CodeAt(s, 0), CodeAt(s, 1), CodeAt(s, 2))
    ensures |s| > 3 ==> Encoded(s) == Group(CodeAt(s, 0), CodeAt(s, 1), CodeAt(s, 2)) + Encoded(s[3..])
  {
  }

  lemma LastGroupRoundTrip(s: seq<byte>)
    requires 0 < |s| <= 3
    ensures Decode(Encoded(s)) == Some(s)
  {
    var g := Group(CodeAt(s, 0), CodeAt(s, 1), CodeAt(s, 2));
    GroupRoundTrip(s);
    EncodedFirstGroup(s);
    assert s[..if |s| < 3 then |s| else 3] == s;
    DecodeFirstGroup(g, "", s, []);
    assert g + "" == g && s + [] == s;
  }

  /** Round trip: decoding what `encode64` produced gives back every non-empty input. */
  lemma {:induction false} DecodeInvertsEncode(s: seq<byte>)
    requires s != []
    ensures Decode(Encoded(s)) == Some(s)
    decreases |s|
  {
    if |s| <= 3 {
      LastGroupRoundTrip(s);
    } else {
      var g := Group(CodeAt(s, 0), CodeAt(s, 1), CodeAt(s, 2));
      GroupRoundTrip(s);
      EncodedFirstGroup(s);
      DecodeInvertsEncode(s[3..]);
      DecodeFirstGroup(g, Encoded(s[3..]), s[..3], s[3..]);
      assert s == s[..3] + s[3..];
    }
  }

  /** The do-while makes the empty input encode to one group, which decodes to a single NUL byte. */
  lemma EmptyInputEncodesNul()
    ensures Encoded([]) == "AA=="
    ensures Decode(Encoded([])) == Some([0 as byte])
  {
    assert Symbol(0) == 'A' && Symbol(PAD) == '=';
    assert Encoded([]) == "AA==" + "";
    assert SymbolValue('A') == 0 && SymbolValue('=') == PAD;
    DecodeFirstGroup("AA==", "", [0 as byte], []);
    assert [0 as byte] + [] == [0 as byte];
  }

  lemma SymbolIsNotPad(k: nat)
    requires k < PAD
    ensures Symbol(k) != '='
  {
  }

  /** Within one group: the pad appears in the third place for one byte, in the fourth for one or two. */
  lemma GroupPadding(s: seq<byte>)
    requires s != []
    ensures var g := Group(CodeAt(s, 0), CodeAt(s, 1), CodeAt(s, 2));
      g[0] != '=' && g[1] != '=' && (g[2] == '=' <==> |s| == 1) && (g[3] == '=' <==> |s| <= 2)
  {
    var c1, c2, c3 := Bits(CodeAt(s, 0)), Bits(CodeAt(s, 1)), Bits(CodeAt(s, 2));
    SymbolIsNotPad(c1 / 4);
    SplitHigh(c1, c2);
    SymbolIsNotPad((c1 % 4) * 16 + c2 / 16);
    SplitMiddle(c2, c3);
    SymbolIsNotPad((c2 % 16) * 4 + c3 / 64);
    SymbolIsNotPad(c3 % 64);
  }

  /**
   * The pad layout of an encoding when `rem` bytes are left over: `==` at the
   * end for one, a single `=` for two, and no other symbol is a pad.
   */
  predicate PaddedFor(t: string, rem: nat)
  {
    |t| >= 4 &&
    (t[|t| - 1] == '=' <==> rem != 0) &&
    (t[|t| - 2] == '=' <==> rem == 1) &&
    forall k :: 0 <= k < |t| - 2 ==> t[k] != '='
  }

  /** Padding: the encoding's pads are exactly those `PaddedFor` the remainder of the length by three. */
  lemma {:induction false} PaddingMatchesRemainder(s: seq<byte>)
    requires s != []
    ensures PaddedFor(Encoded(s), |s| % 3)
    decreases |s|
  {
    GroupPadding(s);
    EncodedFirstGroup(s);
    if |s| > 3 {
      PaddingMatchesRemainder(s[3..]);
      PadsOnlyAtEnd(Group(CodeAt(s, 0), CodeAt(s, 1), CodeAt(s, 2)), Encoded(s[3..]), |s| % 3);
    }
  }

  /** A group without pads in front of an encoding of the rest leaves the pads where the rest has them. */
  lemma PadsOnlyAtEnd(g: string, r: string, rem: nat)
    requires |g| == 4 && forall k :: 0 <= k < 4 ==> g[k] != '='
    requires PaddedFor(r, rem)
    ensures PaddedFor(g + r, rem)
  {
    var t := g + r;
    assert t[|t| - 1] == r[|r| - 1] && t[|t| - 2] == r[|r| - 2];
    forall k | 0 <= k < |t| - 2
      ensures t[k] != '='
    {
      if k >= 4 {
        assert t[k] == r[k - 4];
      } else {
        assert t[k] == g[k];
      }
    }
  }

}
