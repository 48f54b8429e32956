/**
 * The two secret-handling helpers of index.js: the padded constant-time string
 * comparison `timingSafeEqual` (index.js:209-225), used for the configured user
 * name, and the uploader fingerprint `hashIP` (index.js:229-241).
 *
 * `timingSafeEqual` pads both JavaScript strings with NUL code units to the
 * longer length and compares their UTF-8 buffers. Buffers of different byte
 * lengths make `crypto.timingSafeEqual` throw, caught as false; equal lengths
 * compare byte by byte, so the result is equality of the two buffers. UTF-8 is
 * injective on well-formed strings but maps every lone surrogate to U+FFFD.
 * SHA-256 is a parameter.
 */
module Secrets {
  import opened Wrappers
  import opened Utf16

  const NUL: Unit := 0

  /** `s.padEnd(n, '\0')`. */
  function PadEnd(s: JsString, n: nat): (r: JsString)
    ensures |r| == if |s| >= n then |s| else n
    ensures r[..|s|] == s
    ensures forall i :: |s| <= i < |r| ==> r[i] == NUL
  {
    if |s| >= n then s else s + seq(n - |s|, _ => NUL)
  }

  function MaxLen(a: JsString, b: JsString): nat
  {
    if |a| >= |b| then |a| else |b|
  }

  predicate AllNul(s: JsString)
  {
    forall i :: 0 <= i < |s| ==> s[i] == NUL
  }

  /** `None` stands for a value that is not a string. */
  function TimingSafeEqual(a: Option<JsString>, b: Option<JsString>): (equal: bool)
    ensures equal ==> a.Some? && b.Some?
    ensures a.Some? && b.Some? && PadEnd(a.value, MaxLen(a.value, b.value)) == PadEnd(b.value, MaxLen(a.value, b.value)) ==> equal
  {
    a.Some? && b.Some?
    && Utf8(PadEnd(a.value, MaxLen(a.value, b.value))) == Utf8(PadEnd(b.value, MaxLen(a.value, b.value)))
  }

  /** Reference reading: the shorter string is a prefix of the longer one and the rest is all NUL. */
  predicate EqualUpToTrailingNul(a: JsString, b: JsString)
  {
    if |a| <= |b| then b[..|a|] == a && AllNul(b[|a|..]) else a[..|b|] == b && AllNul(a[|b|..])
  }

  /** Padding both strings to the longer length makes them equal exactly when they agree up to trailing NULs. */
  lemma PaddedEqualMeaning(x: JsString, y: JsString)
    ensures PadEnd(x, MaxLen(x, y)) == PadEnd(y, MaxLen(x, y)) <==> EqualUpToTrailingNul(x, y)
  {
    var m := MaxLen(x, y);
    var px, py := PadEnd(x, m), PadEnd(y, m);
    if |x| <= |y| {
      if px == py {
        assert py == y;
        assert y[..|x|] == px[..|x|] == x;
        forall i | 0 <= i < |y[|x|..]| ensures y[|x|..][i] == NUL {
          assert y[|x|..][i] == px[|x| + i];
        }
      }
      if y[..|x|] == x && AllNul(y[|x|..]) {
        assert py == y;
        forall i | 0 <= i < |y| ensures px[i] == y[i] {
          if i >= |x| {
            assert y[i] == y[|x|..][i - |x|];
          } else {
            assert px[i] == px[..|x|][i];
            assert y[i] == y[..|x|][i];
          }
        }
      }
    } else {
      if px == py {
        assert px == x;
        assert x[..|y|] == py[..|y|] == y;
        forall i | 0 <= i < |x[|y|..]| ensures x[|y|..][i] == NUL {
          assert x[|y|..][i] == py[|y| + i];
        }
      }
      if x[..|y|] == y && AllNul(x[|y|..]) {
        assert px == x;
        forall i | 0 <= i < |x| ensures py[i] == x[i] {
          if i >= |y| {
            assert x[i] == x[|y|..][i - |y|];
          } else {
            assert py[i] == py[..|y|][i];
            assert x[i] == x[..|y|][i];
          }
        }
      }
    }
  }

  /** NUL padding keeps a string well-formed. */
  lemma PadEndWellFormed(s: JsString, n: nat)
    requires WellFormed(s)
    ensures WellFormed(PadEnd(s, n))
  {
    if |s| < n {
      var z := seq(n - |s|, _ => NUL);
      NoSurrogatesWellFormed(z);
      WellFormedAppend(s, z);
    }
  }

  /**
   * Strings that agree up to trailing NULs always compare equal; for well-formed
   * strings (no lone surrogate) that is also the only way to compare equal.
   */
  lemma TimingSafeEqualMeaning(a: Option<JsString>, b: Option<JsString>)
    ensures a.Some? && b.Some? && EqualUpToTrailingNul(a.value, b.value) ==> TimingSafeEqual(a, b)
    ensures TimingSafeEqual(a, b) ==>
      a.Some? && b.Some? && (WellFormed(a.value) && WellFormed(b.value) ==> EqualUpToTrailingNul(a.value, b.value))
  {
    if a.Some? && b.Some? {
      var x, y := a.value, b.value;
      var m := MaxLen(x, y);
      PaddedEqualMeaning(x, y);
      if TimingSafeEqual(a, b) && WellFormed(x) && WellFormed(y) {
        PadEndWellFormed(x, m);
        PadEndWellFormed(y, m);
        Utf8Injective(PadEnd(x, m), PadEnd(y, m));
      }
    }
  }

  /** The comparison accepts any string followed by NUL code units as equal to that string. */
  lemma TimingSafeEqualAcceptsNulSuffix(s: JsString, k: nat)
    requires k > 0
    ensures s + seq(k, _ => NUL) != s
    ensures TimingSafeEqual(Some(s + seq(k, _ => NUL)), Some(s))
  {
    var t := s + seq(k, _ => NUL);
    assert |t| != |s|;
    assert t[..|s|] == s;
    assert t[|s|..] == seq(k, _ => NUL);
    TimingSafeEqualMeaning(Some(t), Some(s));
  }

  /** Any two different lone surrogates compare equal: both encode as U+FFFD. */
  lemma TimingSafeEqualConflatesLoneSurrogates(u: Unit, w: Unit)
    requires IsSurrogate(u) && IsSurrogate(w) && u != w
    ensures [u] != [w] && TimingSafeEqual(Some([u]), Some([w]))
  {
    assert PadEnd([u], 1) == [u] && PadEnd([w], 1) == [w];
    LoneSurrogatesCollide(u, w);
  }

  /** The comparison with a length check added, on the code units themselves: equal exactly when the strings are. */
  function ConstantTimeEqual(a: Option<JsString>, b: Option<JsString>): bool
  {
    a.Some? && b.Some? && |a.value| == |b.value|
    && PadEnd(a.value, MaxLen(a.value, b.value)) == PadEnd(b.value, MaxLen(a.value, b.value))
  }

  lemma ConstantTimeEqualIsEquality(a: Option<JsString>, b: Option<JsString>)
    ensures ConstantTimeEqual(a, b) <==> a.Some? && b.Some? && a.value == b.value
  {
  }

  // ---- Uploader fingerprint ----

  const UNKNOWN_FINGERPRINT: string := "unknown"

  /** `hashIP`: a missing or empty address maps to 'unknown', any other to the hex digest of address and secret. */
  function HashIp(ip: Option<string>, secret: string, sha256: string -> string): (fp: string)
    ensures ip.None? || ip.value == [] ==> fp == UNKNOWN_FINGERPRINT
    ensures ip.Some? && ip.value != [] ==> fp == sha256(ip.value + secret)
  {
    if ip.None? || ip.value == [] then UNKNOWN_FINGERPRINT else sha256(ip.value + secret)
  }

  /**
   * With a digest that is injective on addresses under this secret and never
   * yields 'unknown' (a SHA-256 hex digest has 64 characters), distinct addresses
   * get distinct fingerprints, and 'unknown' is exactly the missing address.
   */
  lemma HashIpSeparatesAddresses(a: Option<string>, b: Option<string>, secret: string, sha256: string -> string)
    requires a.Some? && a.value != [] ==> |sha256(a.value + secret)| == 64
    requires b.Some? && b.value != [] ==> |sha256(b.value + secret)| == 64
    requires a.Some? && b.Some? && a.value != b.value ==> sha256(a.value + secret) != sha256(b.value + secret)
    ensures HashIp(a, secret, sha256) == UNKNOWN_FINGERPRINT <==> a.None? || a.value == []
    ensures HashIp(a, secret, sha256) == HashIp(b, secret, sha256) <==>
      (if a.None? || a.value == [] then b.None? || b.value == [] else b.Some? && a.value == b.value)
  {
    assert |UNKNOWN_FINGERPRINT| == 7;
  }
}
