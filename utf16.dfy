/**
 * JavaScript strings as the language has them: sequences of UTF-16 code units,
 * in which a surrogate may stand alone. `length`, `substring` and regular
 * expressions without the `u` flag all work on code units, and
 * `Buffer.from(s, 'utf8')` encodes a surrogate pair as one four-byte sequence
 * and every lone surrogate as U+FFFD (EF BF BD).
 *
 * A Dafny `char` is a Unicode scalar value; `Units` gives the code units of a
 * Dafny string, which are always well-formed.
 */
module Utf16 {
  import opened Wrappers
  import opened Bytes

  /** A UTF-16 code unit. */
  type Unit = u: int | 0 <= u < 0x1_0000

  /** A JavaScript string value. */
  type JsString = seq<Unit>

  predicate IsHigh(u: Unit)
  {
    0xD800 <= u <= 0xDBFF
  }

  predicate IsLow(u: Unit)
  {
    0xDC00 <= u <= 0xDFFF
  }

  predicate IsSurrogate(u: Unit)
  {
    0xD800 <= u <= 0xDFFF
  }

  /** No lone surrogate: each high surrogate is followed by a low one, and each low one follows a high one. */
  predicate WellFormed(s: JsString)
    decreases |s|
  {
    if s == [] then true
    else if IsHigh(s[0]) then |s| >= 2 && IsLow(s[1]) && WellFormed(s[2..])
    else !IsLow(s[0]) && WellFormed(s[1..])
  }

  /** The code units of one scalar value; anything that is not a scalar value becomes U+FFFD. */
  function ScalarUnits(v: int): (u: JsString)
    ensures 1 <= |u| <= 2
  {
    if 0 <= v < 0x1_0000 then [v]
    else if 0x1_0000 <= v < 0x11_0000 then [0xD800 + (v - 0x1_0000) / 0x400, 0xDC00 + (v - 0x1_0000) % 0x400]
    else [REPLACEMENT]
  }

  const REPLACEMENT: Unit := 0xFFFD

  /** The code units of a Dafny string: astral characters take two units. */
  function Units(s: string): (u: JsString)
    ensures |u| >= |s|
  {
    if s == [] then [] else ScalarUnits(s[0] as int) + Units(s[1..])
  }

  /** The scalar value of a surrogate pair. */
  function PairValue(hi: Unit, lo: Unit): (v: int)
    requires IsHigh(hi) && IsLow(lo)
    ensures 0x1_0000 <= v < 0x11_0000
  {
    0x1_0000 + (hi - 0xD800) * 0x400 + (lo - 0xDC00)
  }

  /** The UTF-8 bytes of a scalar value below 0x110000. */
  function Scalar8(v: int): (b: Bytes)
    requires 0 <= v < 0x11_0000
    ensures 1 <= |b| <= 4
  {
    if v < 0x80 then [v as byte]
    else if v < 0x800 then [(0xC0 + v / 64) as byte, (0x80 + v % 64) as byte]
    else if v < 0x1_0000 then
      [(0xE0 + v / 64 / 64) as byte, (0x80 + v / 64 % 64) as byte, (0x80 + v % 64) as byte]
    else
      [(0xF0 + v / 64 / 64 / 64) as byte, (0x80 + v / 64 / 64 % 64) as byte,
       (0x80 + v / 64 % 64) as byte, (0x80 + v % 64) as byte]
  }

  /** `Buffer.from(s, 'utf8')`. */
  function Utf8(s: JsString): (b: Bytes)
    ensures |b| >= |s| / 2
    decreases |s|
  {
    if s == [] then []
    else if IsHigh(s[0]) && |s| >= 2 && IsLow(s[1]) then Scalar8(PairValue(s[0], s[1])) + Utf8(s[2..])
    else if IsSurrogate(s[0]) then Scalar8(REPLACEMENT) + Utf8(s[1..])
    else Scalar8(s[0]) + Utf8(s[1..])
  }

  // ---- A decoder, to show that the encoding loses nothing on well-formed strings ----

  /** The length of the sequence a lead byte starts. */
  function LeadLength(b: byte): nat
  {
    if b < 0x80 then 1 else if b < 0xE0 then 2 else if b < 0xF0 then 3 else 4
  }

  /** The value of one byte sequence, whose length its lead byte gives. */
  function SequenceValue(b: Bytes): int
    requires 1 <= |b| && |b| == LeadLength(b[0])
  {
    if |b| == 1 then b[0] as int
    else if |b| == 2 then (b[0] as int - 0xC0) * 64 + (b[1] as int - 0x80)
    else if |b| == 3 then ((b[0] as int - 0xE0) * 64 + (b[1] as int - 0x80)) * 64 + (b[2] as int - 0x80)
    else (((b[0] as int - 0xF0) * 64 + (b[1] as int - 0x80)) * 64 + (b[2] as int - 0x80)) * 64 + (b[3] as int - 0x80)
  }

  function Decode8(b: Bytes): Option<JsString>
    decreases |b|
  {
    if b == [] then Some([])
    else
      var n := LeadLength(b[0]);
      if |b| < n then None
      else
        var rest := Decode8(b[n..]);
        if rest.None? then None else Some(ScalarUnits(SequenceValue(b[..n])) + rest.value)
  }

  lemma ScalarRoundTrip(v: int)
    requires 0 <= v < 0x11_0000
    ensures LeadLength(Scalar8(v)[0]) == |Scalar8(v)| && SequenceValue(Scalar8(v)) == v
  {
    if 0x800 <= v < 0x1_0000 {
      var q := v / 64;
      assert v == q * 64 + v % 64;
      assert q == q / 64 * 64 + q % 64;
    } else if 0x1_0000 <= v {
      var q := v / 64;
      var r := q / 64;
      assert v == q * 64 + v % 64;
      assert q == r * 64 + q % 64;
      assert r == r / 64 * 64 + r % 64;
    }
  }

  lemma DecodeFirst(v: int, rest: Bytes)
    requires 0 <= v < 0x11_0000
    ensures Decode8(Scalar8(v) + rest) ==
      if Decode8(rest).None? then None else Some(ScalarUnits(v) + Decode8(rest).value)
  {
    var p := Scalar8(v);
    ScalarRoundTrip(v);
    var b := p + rest;
    assert b[0] == p[0];
    assert b[..|p|] == p && b[|p|..] == rest;
  }

  lemma PairRoundTrip(hi: Unit, lo: Unit)
    requires IsHigh(hi) && IsLow(lo)
    ensures ScalarUnits(PairValue(hi, lo)) == [hi, lo]
  {
    var x := PairValue(hi, lo) - 0x1_0000;
    assert x == (hi - 0xD800) * 0x400 + (lo - 0xDC00);
    assert x / 0x400 == hi - 0xD800 && x % 0x400 == lo - 0xDC00;
  }

  /** Decoding the UTF-8 of a well-formed string gives the string back. */
  lemma {:induction false} DecodeInvertsUtf8(s: JsString)
    requires WellFormed(s)
    ensures Decode8(Utf8(s)) == Some(s)
    decreases |s|
  {
    if s != [] {
      if IsHigh(s[0]) {
        DecodeInvertsUtf8(s[2..]);
        DecodeFirst(PairValue(s[0], s[1]), Utf8(s[2..]));
        PairRoundTrip(s[0], s[1]);
        assert s == [s[0], s[1]] + s[2..];
      } else {
        DecodeInvertsUtf8(s[1..]);
        DecodeFirst(s[0], Utf8(s[1..]));
        assert s == [s[0]] + s[1..];
      }
    }
  }

  /** Two well-formed strings with the same UTF-8 bytes are the same string. */
  lemma Utf8Injective(a: JsString, b: JsString)
    requires WellFormed(a) && WellFormed(b) && Utf8(a) == Utf8(b)
    ensures a == b
  {
    DecodeInvertsUtf8(a);
    DecodeInvertsUtf8(b);
  }

  /** Different lone surrogates have the same UTF-8 bytes: both become U+FFFD. */
  lemma LoneSurrogatesCollide(u: Unit, w: Unit)
    requires IsSurrogate(u) && IsSurrogate(w)
    ensures Utf8([u]) == Utf8([w]) == Scalar8(REPLACEMENT)
    ensures !WellFormed([u])
  {
    assert [u][1..] == [] && [w][1..] == [];
  }

  /** Well-formed strings stay well-formed when joined. */
  lemma {:induction false} WellFormedAppend(a: JsString, b: JsString)
    requires WellFormed(a) && WellFormed(b)
    ensures WellFormed(a + b)
    decreases |a|
  {
    if a != [] {
      assert (a + b)[0] == a[0];
      if IsHigh(a[0]) {
        WellFormedAppend(a[2..], b);
        assert (a + b)[1] == a[1];
        assert (a + b)[2..] == a[2..] + b;
      } else {
        WellFormedAppend(a[1..], b);
        assert (a + b)[1..] == a[1..] + b;
      }
    } else {
      assert a + b == b;
    }
  }

  /** A string without surrogates is well-formed. */
  lemma {:induction false} NoSurrogatesWellFormed(s: JsString)
    requires forall i :: 0 <= i < |s| ==> !IsSurrogate(s[i])
    ensures WellFormed(s)
    decreases |s|
  {
    if s != [] {
      assert forall i :: 0 <= i < |s[1..]| ==> s[1..][i] == s[i + 1];
      NoSurrogatesWellFormed(s[1..]);
    }
  }

  /** The code units of every Dafny string are well-formed. */
  lemma {:induction false} UnitsWellFormed(s: string)
    ensures WellFormed(Units(s))
    decreases |s|
  {
    if s != [] {
      UnitsWellFormed(s[1..]);
      var c := ScalarUnits(s[0] as int);
      if |c| == 1 {
        NoSurrogatesWellFormed(c);
      } else {
        assert c[2..] == [];
      }
      WellFormedAppend(c, Units(s[1..]));
    }
  }

  const GRINNING_FACE: char := '\U{1F600}'

  /** n copies of U+1F600 are 2n code units, alternating 0xD83D and 0xDE00. */
  lemma {:induction false} RepeatedAstralUnits(n: nat)
    ensures Units(seq(n, _ => GRINNING_FACE)) == seq(2 * n, i => if i % 2 == 0 then 0xD83D else 0xDE00)
  {
    var s := seq(n, _ => GRINNING_FACE);
    var t := seq(2 * n, i => if i % 2 == 0 then 0xD83D else 0xDE00);
    if n > 0 {
      RepeatedAstralUnits(n - 1);
      assert s[1..] == seq(n - 1, _ => GRINNING_FACE);
      assert ScalarUnits(s[0] as int) == [0xD83D, 0xDE00];
      var u := seq(2 * (n - 1), i => if i % 2 == 0 then 0xD83D else 0xDE00);
      assert Units(s) == [0xD83D, 0xDE00] + u;
      forall i | 0 <= i < 2 * n ensures ([0xD83D, 0xDE00] + u)[i] == t[i] {
        if i >= 2 {
          assert u[i - 2] == t[i];
        }
      }
    }
  }
}
