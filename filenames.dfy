/**
 * File-name handling of the download route: `sanitizeFilename` (index.js:183-206),
 * which turns the stored original name into a safe Content-Disposition name, and
 * the extension strip applied to the `/d/:fileName/` parameter (index.js:997).
 *
 * `sanitizeFilename` works on a JavaScript string: its regular expressions (no
 * `u` flag), `length` and `substring` all count UTF-16 code units, so the model
 * works on `Utf16.JsString`. The 255-unit cut can fall between the two halves of
 * a surrogate pair; `CorrectedSanitizedName` is the cut that does not.
 */
module Filenames {
  import opened Wrappers
  import opened Utf16

  const MAX_NAME_LENGTH: nat := 255
  const DOT: Unit := 0x2E
  const SLASH: Unit := 0x2F
  const BACKSLASH: Unit := 0x5C
  const UNDERSCORE: Unit := 0x5F

  /** "download". */
  const FALLBACK_NAME: JsString := [0x64, 0x6F, 0x77, 0x6E, 0x6C, 0x6F, 0x61, 0x64]

  /** The class `[\x00-\x1f\x7f-\x9f]`: C0 controls, DEL and C1 controls. */
  predicate IsControl(c: Unit)
  {
    0 <= c <= 0x1f || 0x7f <= c <= 0x9f
  }

  /** `replace(/[\x00-\x1f\x7f-\x9f]/g, '')`. */
  function RemoveControls(s: JsString): (r: JsString)
    ensures forall c :: c in r <==> c in s && !IsControl(c)
    ensures |r| <= |s|
  {
    if s == [] then []
    else if IsControl(s[0]) then RemoveControls(s[1..])
    else [s[0]] + RemoveControls(s[1..])
  }

  /**
   * The filter keeps every non-control unit, as often as it occurs and in its
   * original order, and drops every control unit.
   */
  lemma {:induction false} RemoveControlsKeepsOrder(s: JsString)
    ensures var r := RemoveControls(s);
      (forall c :: multiset(r)[c] == if IsControl(c) then 0 else multiset(s)[c]) && IsSubsequence(r, s)
    decreases |s|
  {
    if s != [] {
      var rest := RemoveControls(s[1..]);
      RemoveControlsKeepsOrder(s[1..]);
      MultisetOfCons(s[0], s[1..]);
      assert s == [s[0]] + s[1..];
      if IsControl(s[0]) {
        SubsequenceDrop(s[0], rest, s[1..]);
      } else {
        MultisetOfCons(s[0], rest);
        SubsequenceKeep(s[0], rest, s[1..]);
      }
    }
  }

  /** `replace(/[\/\\]/g, '_')`: each separator becomes one underscore. */
  function ReplaceSeparators(s: JsString): (r: JsString)
    ensures |r| == |s|
    ensures forall i :: 0 <= i < |s| ==> r[i] == (if s[i] == SLASH || s[i] == BACKSLASH then UNDERSCORE else s[i])
  {
    if s == [] then []
    else [if s[0] == SLASH || s[0] == BACKSLASH then UNDERSCORE else s[0]] + ReplaceSeparators(s[1..])
  }

  /** Some two adjacent units are both dots. */
  predicate HasDotDot(s: JsString)
  {
    exists i :: 0 <= i < |s| - 1 && s[i] == DOT && s[i + 1] == DOT
  }

  /** `replace(/\.\./g, '_')`: non-overlapping pairs of dots, scanned left to right, become one underscore. */
  function ReplaceDotDot(s: JsString): (r: JsString)
    ensures |r| <= |s|
    ensures |r| == 0 <==> |s| == 0
    ensures |r| > 0 ==> r[0] == (if |s| >= 2 && s[0] == DOT && s[1] == DOT then UNDERSCORE else s[0])
    ensures forall c :: c in r ==> c in s || c == UNDERSCORE
  {
    if |s| >= 2 && s[0] == DOT && s[1] == DOT then [UNDERSCORE] + ReplaceDotDot(s[2..])
    else if s == [] then []
    else [s[0]] + ReplaceDotDot(s[1..])
  }

  /** A string without `..` is left unchanged. */
  lemma {:induction false} ReplaceDotDotKeepsPlain(s: JsString)
    requires !HasDotDot(s)
    ensures ReplaceDotDot(s) == s
    decreases |s|
  {
    if s != [] {
      assert !(|s| >= 2 && s[0] == DOT && s[1] == DOT);
      NoDotDotTail(s);
      ReplaceDotDotKeepsPlain(s[1..]);
      assert s == [s[0]] + s[1..];
    }
  }

  /**
   * `r` has the units of `s` except that `|s| - |r|` pairs of dots were traded
   * for one underscore each.
   */
  ghost predicate TradesPairs(s: JsString, r: JsString)
  {
    multiset(r)[UNDERSCORE] == multiset(s)[UNDERSCORE] + (|s| - |r|)
    && multiset(r)[DOT] + 2 * (|s| - |r|) == multiset(s)[DOT]
    && forall c :: c != DOT && c != UNDERSCORE ==> multiset(r)[c] == multiset(s)[c]
  }

  /** What the rewrite keeps and what it trades: each rewritten pair of dots becomes one underscore. */
  lemma {:induction false} ReplaceDotDotCounts(s: JsString)
    ensures TradesPairs(s, ReplaceDotDot(s))
    decreases |s|
  {
    if |s| >= 2 && s[0] == DOT && s[1] == DOT {
      ReplaceDotDotCounts(s[2..]);
      PairCounts(s, ReplaceDotDot(s[2..]));
    } else if s != [] {
      ReplaceDotDotCounts(s[1..]);
      UnitCounts(s, ReplaceDotDot(s[1..]));
    }
  }

  /** One step of `ReplaceDotDotCounts` over a leading pair. */
  lemma PairCounts(s: JsString, rest: JsString)
    requires |s| >= 2 && s[0] == DOT && s[1] == DOT && TradesPairs(s[2..], rest)
    ensures TradesPairs(s, [UNDERSCORE] + rest)
  {
    var t := s[2..];
    assert s == [DOT] + ([DOT] + t);
    MultisetOfCons(DOT, [DOT] + t);
    MultisetOfCons(DOT, t);
    MultisetOfCons(UNDERSCORE, rest);
  }

  /** One step of `ReplaceDotDotCounts` over a unit that does not start a pair. */
  lemma UnitCounts(s: JsString, rest: JsString)
    requires s != [] && TradesPairs(s[1..], rest)
    ensures TradesPairs(s, [s[0]] + rest)
  {
    assert s == [s[0]] + s[1..];
    MultisetOfCons(s[0], s[1..]);
    MultisetOfCons(s[0], rest);
  }

  /** A `..` after the first unit is a `..` of the whole string. */
  lemma NoDotDotTail(s: JsString)
    requires s != []
    ensures HasDotDot(s[1..]) ==> HasDotDot(s)
  {
    if HasDotDot(s[1..]) {
      var i :| 0 <= i < |s[1..]| - 1 && s[1..][i] == DOT && s[1..][i + 1] == DOT;
      assert s[i + 1] == DOT && s[i + 2] == DOT;
    }
  }

  /**
   * The rewrite works piece by piece: a piece that does not end in a dot
   * cannot start a pair with what follows it.
   */
  lemma {:induction false} ReplaceDotDotJoin(a: JsString, b: JsString)
    requires a == [] || a[|a| - 1] != DOT
    ensures ReplaceDotDot(a + b) == ReplaceDotDot(a) + ReplaceDotDot(b)
    decreases |a|
  {
    if a == [] {
      assert a + b == b;
    } else if |a| >= 2 && a[0] == DOT && a[1] == DOT {
      var t := a[2..];
      assert t == [] || t[|t| - 1] == a[|a| - 1];
      ReplaceDotDotJoin(t, b);
      JoinPairStep(a, b);
    } else {
      var t := a[1..];
      assert t == [] || t[|t| - 1] == a[|a| - 1];
      ReplaceDotDotJoin(t, b);
      JoinUnitStep(a, b);
    }
  }

  lemma JoinPairStep(a: JsString, b: JsString)
    requires |a| >= 2 && a[0] == DOT && a[1] == DOT
    requires ReplaceDotDot(a[2..] + b) == ReplaceDotDot(a[2..]) + ReplaceDotDot(b)
    ensures ReplaceDotDot(a + b) == ReplaceDotDot(a) + ReplaceDotDot(b)
  {
    var x, y := ReplaceDotDot(a[2..]), ReplaceDotDot(b);
    assert (a + b)[2..] == a[2..] + b;
    assert ReplaceDotDot(a + b) == [UNDERSCORE] + ReplaceDotDot(a[2..] + b);
    assert ReplaceDotDot(a) == [UNDERSCORE] + x;
    ConcatAssoc([UNDERSCORE], x, y);
  }

  lemma JoinUnitStep(a: JsString, b: JsString)
    requires a != [] && a[|a| - 1] != DOT && !(|a| >= 2 && a[0] == DOT && a[1] == DOT)
    requires ReplaceDotDot(a[1..] + b) == ReplaceDotDot(a[1..]) + ReplaceDotDot(b)
    ensures ReplaceDotDot(a + b) == ReplaceDotDot(a) + ReplaceDotDot(b)
  {
    var x, y := ReplaceDotDot(a[1..]), ReplaceDotDot(b);
    assert (a + b)[0] == a[0] && (a + b)[1..] == a[1..] + b;
    assert !(|a + b| >= 2 && (a + b)[0] == DOT && (a + b)[1] == DOT) by {
      if |a| >= 2 {
        assert (a + b)[1] == a[1];
      }
    }
    assert ReplaceDotDot(a + b) == [a[0]] + ReplaceDotDot(a[1..] + b);
    assert ReplaceDotDot(a) == [a[0]] + x;
    ConcatAssoc([a[0]], x, y);
  }

  /** A run of `2n` dots becomes `n` underscores, and a run of `2n + 1` dots leaves its last dot. */
  lemma {:induction false} ReplaceDotDotRun(n: nat)
    ensures ReplaceDotDot(seq(2 * n, _ => DOT)) == seq(n, _ => UNDERSCORE)
    ensures ReplaceDotDot(seq(2 * n + 1, _ => DOT)) == seq(n, _ => UNDERSCORE) + [DOT]
  {
    if n > 0 {
      ReplaceDotDotRun(n - 1);
      var even := seq(2 * n, _ => DOT);
      var odd := seq(2 * n + 1, _ => DOT);
      assert even[0] == DOT && even[1] == DOT && even[2..] == seq(2 * (n - 1), _ => DOT);
      assert odd[0] == DOT && odd[1] == DOT && odd[2..] == seq(2 * (n - 1) + 1, _ => DOT);
      assert seq(n, _ => UNDERSCORE) == [UNDERSCORE] + seq(n - 1, _ => UNDERSCORE);
    } else {
      assert seq(1, _ => DOT) == [DOT] && seq(1, _ => DOT)[1..] == [];
    }
  }

  /** After the pass no two dots are adjacent any more. */
  lemma {:induction false} ReplaceDotDotLeavesNoDotDot(s: JsString)
    ensures !HasDotDot(ReplaceDotDot(s))
  {
    if |s| >= 2 && s[0] == DOT && s[1] == DOT {
      ReplaceDotDotLeavesNoDotDot(s[2..]);
      var r := ReplaceDotDot(s);
      assert r == [UNDERSCORE] + ReplaceDotDot(s[2..]);
      forall i | 0 <= i < |r| - 1 ensures !(r[i] == DOT && r[i + 1] == DOT) {
        if i > 0 {
          assert r[i] == ReplaceDotDot(s[2..])[i - 1] && r[i + 1] == ReplaceDotDot(s[2..])[i];
        }
      }
    } else if s != [] {
      ReplaceDotDotLeavesNoDotDot(s[1..]);
      var r := ReplaceDotDot(s);
      var t := ReplaceDotDot(s[1..]);
      assert r == [s[0]] + t;
      forall i | 0 <= i < |r| - 1 ensures !(r[i] == DOT && r[i + 1] == DOT) {
        if i > 0 {
          assert r[i] == t[i - 1] && r[i + 1] == t[i];
        } else if s[0] == DOT {
          assert r[1] == t[0];
          assert s[1..][0] != DOT;
        }
      }
    }
  }

  /** `replace(/^\.+/, '')`. */
  function StripLeadingDots(s: JsString): (r: JsString)
    ensures r == [] || r[0] != DOT
    ensures |r| <= |s| && forall i :: 0 <= i < |r| ==> r[i] == s[|s| - |r| + i]
    ensures forall i :: 0 <= i < |s| - |r| ==> s[i] == DOT
  {
    if s != [] && s[0] == DOT then StripLeadingDots(s[1..]) else s
  }

  /** Index of the last dot of `s`, if any. */
  function LastDot(s: JsString): (k: Option<nat>)
    ensures k.Some? ==> k.value < |s| && s[k.value] == DOT && forall i :: k.value < i < |s| ==> s[i] != DOT
    ensures k.None? ==> forall i :: 0 <= i < |s| ==> s[i] != DOT
  {
    if s == [] then None
    else if s[|s| - 1] == DOT then Some(|s| - 1)
    else LastDot(s[..|s| - 1])
  }

  /** `match(/\.[^.]+$/)?.[0] || ''`: the final dot and the non-empty dot-free run after it. */
  function Extension(s: JsString): (ext: JsString)
    ensures ext == [] || (|ext| >= 2 && ext[0] == DOT && forall i :: 1 <= i < |ext| ==> ext[i] != DOT)
    ensures |ext| <= |s| && ext == s[|s| - |ext|..]
  {
    var k := LastDot(s);
    if k.Some? && k.value < |s| - 1 then s[k.value..] else []
  }

  /** No run of the form `\.[^.]+` ends the string exactly when `Extension` is empty. */
  lemma ExtensionIsLongestDotSuffix(s: JsString, j: nat)
    requires j < |s| - 1 && s[j] == DOT && forall i :: j < i < |s| ==> s[i] != DOT
    ensures Extension(s) == s[j..]
  {
  }

  /** How many leading units `substring(0, 255 - ext.length)` keeps: a negative end clamps to 0. */
  function KeptPrefix(ext: JsString): nat
  {
    if |ext| <= MAX_NAME_LENGTH then MAX_NAME_LENGTH - |ext| else 0
  }

  /** `substring(0, 255 - ext.length) + ext` when the name is longer than 255 code units. */
  function Truncate(s: JsString): (r: JsString)
    ensures |s| <= MAX_NAME_LENGTH ==> r == s
    ensures |s| > MAX_NAME_LENGTH ==>
      |r| == (if |Extension(s)| <= MAX_NAME_LENGTH then MAX_NAME_LENGTH else |Extension(s)|)
      && r[|r| - |Extension(s)|..] == Extension(s)
  {
    if |s| > MAX_NAME_LENGTH then
      var ext := Extension(s);
      var r := s[..KeptPrefix(ext)] + ext;
      assert r[|r| - |ext|..] == ext;
      r
    else s
  }

  /** The four rewriting passes, before the length limit. */
  function Cleaned(name: JsString): JsString
  {
    StripLeadingDots(ReplaceDotDot(ReplaceSeparators(RemoveControls(name))))
  }

  predicate IsSafeChar(c: Unit)
  {
    !IsControl(c) && c != SLASH && c != BACKSLASH
  }

  /** What `sanitizeFilename` returns; `None` stands for a non-string argument. */
  function SanitizedName(filename: Option<JsString>): (safe: JsString)
    ensures safe != []
  {
    if filename.None? || filename.value == [] then FALLBACK_NAME
    else
      var t := Truncate(Cleaned(filename.value));
      if t == [] then FALLBACK_NAME else t
  }

  /** Every unit of a slice occurs in the whole string. */
  lemma SliceChars(s: JsString, lo: nat, hi: nat)
    requires lo <= hi <= |s|
    ensures forall c :: c in s[lo..hi] ==> c in s
  {
    forall c | c in s[lo..hi] ensures c in s {
      var i :| 0 <= i < hi - lo && s[lo..hi][i] == c;
      assert s[lo + i] == c;
    }
  }

  lemma SeparatorsSafe(a: JsString)
    requires forall x :: x in a ==> !IsControl(x)
    ensures forall x :: x in ReplaceSeparators(a) ==> IsSafeChar(x)
  {
    var b := ReplaceSeparators(a);
    forall x | x in b ensures IsSafeChar(x) {
      var i :| 0 <= i < |b| && b[i] == x;
      assert a[i] in a;
    }
  }

  lemma {:induction false} StripSafe(c: JsString)
    requires forall x :: x in c ==> IsSafeChar(x)
    ensures forall x :: x in StripLeadingDots(c) ==> IsSafeChar(x)
    decreases |c|
  {
    if c != [] && c[0] == DOT {
      var t := c[1..];
      assert forall k :: 0 <= k < |t| ==> t[k] == c[k + 1];
      assert forall x :: x in t ==> x in c;
      StripSafe(t);
    }
  }

  lemma {:induction false} StripNoDotDot(c: JsString)
    requires !HasDotDot(c)
    ensures !HasDotDot(StripLeadingDots(c))
    decreases |c|
  {
    if c != [] && c[0] == DOT {
      var t := c[1..];
      forall k | 0 <= k < |t| - 1 ensures !(t[k] == DOT && t[k + 1] == DOT) {
        assert t[k] == c[k + 1] && t[k + 1] == c[k + 2];
      }
      StripNoDotDot(t);
    }
  }

  lemma CleanedIsSafe(name: JsString)
    ensures forall c :: c in Cleaned(name) ==> IsSafeChar(c)
    ensures Cleaned(name) == [] || Cleaned(name)[0] != DOT
    ensures !HasDotDot(Cleaned(name))
  {
    var a := RemoveControls(name);
    var b := ReplaceSeparators(a);
    var c := ReplaceDotDot(b);
    SeparatorsSafe(a);
    assert forall x :: x in c ==> IsSafeChar(x);
    StripSafe(c);
    ReplaceDotDotLeavesNoDotDot(b);
    StripNoDotDot(c);
  }

  /** Truncation introduces no unit: it keeps a prefix of the name and a suffix of it. */
  lemma TruncateKeepsCharacters(s: JsString)
    ensures forall c :: c in Truncate(s) ==> c in s
  {
    if |s| > MAX_NAME_LENGTH {
      var ext := Extension(s);
      var keep := KeptPrefix(ext);
      var t := s[..keep] + ext;
      assert Truncate(s) == t;
      SliceChars(s, 0, keep);
      assert s[0..keep] == s[..keep];
      SliceChars(s, |s| - |ext|, |s|);
      assert s[|s| - |ext|..|s|] == ext;
      forall c | c in t ensures c in s {
        if c !in s[..keep] {
          assert c in ext;
        }
      }
    }
  }

  /** No unit of the result is a control character, DEL, a C1 control, '/' or '\'. */
  lemma SanitizedNameIsSafe(filename: Option<JsString>)
    ensures forall c :: c in SanitizedName(filename) ==> IsSafeChar(c)
  {
    if filename.Some? && filename.value != [] {
      CleanedIsSafe(filename.value);
      TruncateKeepsCharacters(Cleaned(filename.value));
    }
  }

  /**
   * A cleaned name longer than 255 code units becomes exactly 255 code units: a
   * prefix of the name followed by its last extension, provided that extension
   * has at most 255 units.
   */
  lemma SanitizedNameKeepsExtension(name: JsString)
    requires name != []
    requires |Cleaned(name)| > MAX_NAME_LENGTH && |Extension(Cleaned(name))| <= MAX_NAME_LENGTH
    ensures var safe := SanitizedName(Some(name)); var ext := Extension(Cleaned(name));
      |safe| == MAX_NAME_LENGTH
      && safe[MAX_NAME_LENGTH - |ext|..] == ext
      && safe[..MAX_NAME_LENGTH - |ext|] == Cleaned(name)[..MAX_NAME_LENGTH - |ext|]
  {
    SanitizedNameOfLongName(name);
    TruncateKeepsExtension(Cleaned(name));
  }

  lemma SanitizedNameOfLongName(name: JsString)
    requires name != [] && |Cleaned(name)| > MAX_NAME_LENGTH
    ensures SanitizedName(Some(name)) == Truncate(Cleaned(name))
  {
  }

  lemma TruncateKeepsExtension(c: JsString)
    requires |c| > MAX_NAME_LENGTH && |Extension(c)| <= MAX_NAME_LENGTH
    ensures var t := Truncate(c); var ext := Extension(c);
      |t| == MAX_NAME_LENGTH && t[MAX_NAME_LENGTH - |ext|..] == ext && t[..MAX_NAME_LENGTH - |ext|] == c[..MAX_NAME_LENGTH - |ext|]
  {
    var ext := Extension(c);
    var keep := MAX_NAME_LENGTH - |ext|;
    var t := c[..keep] + ext;
    assert Truncate(c) == t;
    assert t[keep..] == ext && t[..keep] == c[..keep];
  }

  /** A cleaned name of at most 255 code units is returned as it is (or the fallback when nothing is left). */
  lemma SanitizedNameShortUnchanged(name: JsString)
    requires name != [] && |Cleaned(name)| <= MAX_NAME_LENGTH
    ensures SanitizedName(Some(name)) == if Cleaned(name) == [] then FALLBACK_NAME else Cleaned(name)
  {
  }

  /** The imperative form of the source: `sanitized` is reassigned pass after pass. */
  method SanitizeFilename(filename: Option<JsString>) returns (safe: JsString)
    ensures safe == SanitizedName(filename)
    ensures safe != [] && forall c :: c in safe ==> IsSafeChar(c)
    ensures (filename.None? || filename.value == []) ==> safe == FALLBACK_NAME
  {
    if filename.None? || filename.value == [] {
      SanitizedNameIsSafe(filename);
      return FALLBACK_NAME;
    }
    var sanitized := RemoveControls(filename.value);
    sanitized := ReplaceSeparators(sanitized);
    sanitized := ReplaceDotDot(sanitized);
    sanitized := StripLeadingDots(sanitized);
    ghost var cleaned := sanitized;
    assert cleaned == Cleaned(filename.value);
    if |sanitized| > MAX_NAME_LENGTH {
      var ext := Extension(sanitized);
      var keep := if |ext| <= MAX_NAME_LENGTH then MAX_NAME_LENGTH - |ext| else 0;
      assert keep == KeptPrefix(ext);
      TruncateCuts(cleaned);
      sanitized := sanitized[..keep] + ext;
      assert sanitized == Truncate(cleaned);
    } else {
      assert sanitized == Truncate(cleaned);
    }
    safe := if sanitized == [] then FALLBACK_NAME else sanitized;
    SanitizedNameIsSafe(filename);
  }

  /** The long case of `Truncate`, named so that callers need not unfold it. */
  lemma TruncateCuts(s: JsString)
    requires |s| > MAX_NAME_LENGTH
    ensures Truncate(s) == s[..KeptPrefix(Extension(s))] + Extension(s)
  {
  }

  // ---- Surrogate pairs and the 255-unit cut ----

  /** A name made only of safe units other than the dot goes through the four passes untouched. */
  lemma {:induction false} CleanedKeepsPlainNames(s: JsString)
    requires forall i :: 0 <= i < |s| ==> IsSafeChar(s[i]) && s[i] != DOT
    ensures Cleaned(s) == s
    decreases |s|
  {
    PlainPassesKeep(s);
    assert ReplaceSeparators(s) == s;
  }

  lemma PlainPassesKeep(s: JsString)
    requires forall i :: 0 <= i < |s| ==> IsSafeChar(s[i]) && s[i] != DOT
    ensures RemoveControls(s) == s && ReplaceDotDot(s) == s
  {
    SafeKeepsControls(s);
    assert !HasDotDot(s);
    ReplaceDotDotKeepsPlain(s);
  }

  lemma {:induction false} SafeKeepsControls(s: JsString)
    requires forall i :: 0 <= i < |s| ==> IsSafeChar(s[i])
    ensures RemoveControls(s) == s
    decreases |s|
  {
    if s != [] {
      assert forall i :: 0 <= i < |s[1..]| ==> s[1..][i] == s[i + 1];
      SafeKeepsControls(s[1..]);
      assert s == [s[0]] + s[1..];
    }
  }

  /**
   * A stored name of 128 copies of U+1F600 is 256 code units with no dot, so it
   * is cut to 255 units, which ends in the high half of a surrogate pair.
   */
  lemma SanitizedNameSplitsSurrogatePair()
    ensures var name := Units(seq(128, _ => GRINNING_FACE));
      |name| == 256 && WellFormed(name)
      && |SanitizedName(Some(name))| == MAX_NAME_LENGTH && !WellFormed(SanitizedName(Some(name)))
  {
    var name := Units(seq(128, _ => GRINNING_FACE));
    RepeatedAstralUnits(128);
    UnitsWellFormed(seq(128, _ => GRINNING_FACE));
    assert forall i :: 0 <= i < |name| ==> name[i] == 0xD83D || name[i] == 0xDE00;
    assert name[MAX_NAME_LENGTH - 1] == 0xD83D;
    CleanedKeepsPlainNames(name);
    PlainTruncateCutsPair(name);
    SanitizedNameOfLongCleanName(name);
  }

  /** A long dot-free name whose 255th unit is a high surrogate is cut right after that unit. */
  lemma PlainTruncateCutsPair(name: JsString)
    requires |name| > MAX_NAME_LENGTH && IsHigh(name[MAX_NAME_LENGTH - 1])
    requires forall i :: 0 <= i < |name| ==> name[i] != DOT
    ensures Truncate(name) == name[..MAX_NAME_LENGTH]
    ensures !WellFormed(name[..MAX_NAME_LENGTH])
  {
    NoDotNoExtension(name);
    PlainTruncate(name);
    var t := name[..MAX_NAME_LENGTH];
    assert t[|t| - 1] == name[MAX_NAME_LENGTH - 1];
    EndsHighNotWellFormed(t);
  }

  lemma NoDotNoExtension(s: JsString)
    requires forall i :: 0 <= i < |s| ==> s[i] != DOT
    ensures Extension(s) == []
  {
    assert LastDot(s).None?;
  }

  lemma PlainTruncate(s: JsString)
    requires |s| > MAX_NAME_LENGTH && Extension(s) == []
    ensures Truncate(s) == s[..MAX_NAME_LENGTH]
  {
  }

  lemma SanitizedNameOfLongCleanName(name: JsString)
    requires |name| > MAX_NAME_LENGTH && Cleaned(name) == name
    ensures SanitizedName(Some(name)) == Truncate(name)
  {
  }

  /** A well-formed string never ends with a high surrogate. */
  lemma {:induction false} EndsHighNotWellFormed(s: JsString)
    requires s != [] && IsHigh(s[|s| - 1])
    ensures !WellFormed(s)
    decreases |s|
  {
    if |s| > 2 && IsHigh(s[0]) {
      EndsHighNotWellFormed(s[2..]);
    } else if |s| > 1 && !IsHigh(s[0]) {
      EndsHighNotWellFormed(s[1..]);
    }
  }

  /** The cut the code evidently intends: one unit shorter when it would fall inside a surrogate pair. */
  function CorrectedTruncate(s: JsString): (r: JsString)
    ensures |s| <= MAX_NAME_LENGTH ==> r == s
    ensures |s| > MAX_NAME_LENGTH ==>
      (|r| <= MAX_NAME_LENGTH || |Extension(s)| > MAX_NAME_LENGTH)
      && |Extension(s)| <= |r| && r[|r| - |Extension(s)|..] == Extension(s)
  {
    if |s| > MAX_NAME_LENGTH then
      var ext := Extension(s);
      var r := s[..WholePrefix(s)] + ext;
      assert r[|r| - |ext|..] == ext;
      r
    else s
  }

  /** The kept prefix, one unit shorter when its last unit is the high half of a pair. */
  function WholePrefix(s: JsString): (k: nat)
    requires |s| > MAX_NAME_LENGTH
    ensures k <= KeptPrefix(Extension(s)) && k <= |s| - |Extension(s)|
  {
    WholeCut(s, KeptPrefix(Extension(s)))
  }

  /** A cut after `keep` units, moved back by one when it would split a surrogate pair. */
  function WholeCut(s: JsString, keep: nat): (k: nat)
    requires keep <= |s|
    ensures k <= keep && keep <= k + 1
  {
    if keep > 0 && IsHigh(s[keep - 1]) then keep - 1 else keep
  }

  function CorrectedSanitizedName(filename: Option<JsString>): (safe: JsString)
    ensures safe != []
  {
    if filename.None? || filename.value == [] then FALLBACK_NAME
    else
      var t := CorrectedTruncate(Cleaned(filename.value));
      if t == [] then FALLBACK_NAME else t
  }

  /** The corrected name of a well-formed name is well-formed, so `encodeURIComponent` accepts it. */
  lemma CorrectedSanitizedNameWellFormed(name: JsString)
    requires WellFormed(name)
    ensures WellFormed(CorrectedSanitizedName(Some(name)))
    ensures |CorrectedSanitizedName(Some(name))| <= MAX_NAME_LENGTH || |Extension(Cleaned(name))| > MAX_NAME_LENGTH
  {
    if name != [] {
      CleanedWellFormed(name);
      CorrectedTruncateWellFormed(Cleaned(name));
    }
    FallbackWellFormed();
  }

  lemma FallbackWellFormed()
    ensures WellFormed(FALLBACK_NAME)
  {
    NoSurrogatesWellFormed(FALLBACK_NAME);
  }

  lemma CorrectedTruncateWellFormed(c: JsString)
    requires WellFormed(c)
    ensures WellFormed(CorrectedTruncate(c))
  {
    if |c| > MAX_NAME_LENGTH {
      var j := |c| - |Extension(c)|;
      assert CorrectedTruncate(c) == c[..WholePrefix(c)] + c[j..];
      WholePrefixEndsPair(c);
      ExtensionStartsWithDot(c);
      WellFormedCut(c, WholePrefix(c), j);
    }
  }

  lemma WholePrefixEndsPair(c: JsString)
    requires WellFormed(c) && |c| > MAX_NAME_LENGTH
    ensures WholePrefix(c) == 0 || !IsHigh(c[WholePrefix(c) - 1])
  {
    CutOffHigh(c, KeptPrefix(Extension(c)));
  }

  /** Moving a cut back past a high surrogate puts it between whole characters of a well-formed string. */
  lemma CutOffHigh(c: JsString, keep: nat)
    requires WellFormed(c) && keep <= |c|
    ensures WholeCut(c, keep) == 0 || !IsHigh(c[WholeCut(c, keep) - 1])
  {
    if keep > 1 && IsHigh(c[keep - 1]) && IsHigh(c[keep - 2]) {
      HighIsPaired(c, keep - 2);
    }
  }

  lemma ExtensionStartsWithDot(c: JsString)
    ensures |Extension(c)| == 0 || c[|c| - |Extension(c)|] == DOT
  {
    var ext := Extension(c);
    if ext != [] {
      assert c[|c| - |ext|..][0] == ext[0];
    }
  }

  /** Cutting a well-formed string between pairs and joining the ends gives a well-formed string. */
  lemma WellFormedCut(c: JsString, i: nat, j: nat)
    requires WellFormed(c) && i <= j <= |c|
    requires i == 0 || !IsHigh(c[i - 1])
    requires j == |c| || !IsLow(c[j])
    ensures WellFormed(c[..i] + c[j..])
  {
    WellFormedPrefix(c, i);
    WellFormedSuffix(c, j);
    WellFormedAppend(c[..i], c[j..]);
  }

  /** In a well-formed string a high surrogate is followed by a low one. */
  lemma {:induction false} HighIsPaired(s: JsString, k: nat)
    requires WellFormed(s) && k < |s| && IsHigh(s[k])
    ensures k + 1 < |s| && IsLow(s[k + 1])
    decreases |s|
  {
    if k > 0 {
      if IsHigh(s[0]) {
        if k == 1 {
          assert false;
        }
        HighIsPaired(s[2..], k - 2);
      } else {
        HighIsPaired(s[1..], k - 1);
      }
    }
  }

  /** A prefix that does not end inside a surrogate pair of a well-formed string is well-formed. */
  lemma {:induction false} WellFormedPrefix(s: JsString, k: nat)
    requires WellFormed(s) && k <= |s|
    requires k == 0 || !IsHigh(s[k - 1])
    ensures WellFormed(s[..k])
    decreases |s|
  {
    if k > 0 {
      if IsHigh(s[0]) {
        assert k >= 2;
        WellFormedPrefix(s[2..], k - 2);
        assert s[..k][2..] == s[2..][..k - 2];
      } else {
        WellFormedPrefix(s[1..], k - 1);
        assert s[..k][1..] == s[1..][..k - 1];
      }
    }
  }

  /** A suffix that does not start inside a surrogate pair of a well-formed string is well-formed. */
  lemma {:induction false} WellFormedSuffix(s: JsString, k: nat)
    requires WellFormed(s) && k <= |s|
    requires k == |s| || !IsLow(s[k])
    ensures WellFormed(s[k..])
    decreases |s|
  {
    if k > 0 {
      if IsHigh(s[0]) {
        if k == 1 {
          assert false;
        }
        WellFormedSuffix(s[2..], k - 2);
        assert s[2..][k - 2..] == s[k..];
      } else {
        WellFormedSuffix(s[1..], k - 1);
        assert s[1..][k - 1..] == s[k..];
      }
    }
  }

  /** The four passes delete or replace only units that are not surrogates, so they keep a name well-formed. */
  lemma CleanedWellFormed(name: JsString)
    requires WellFormed(name)
    ensures WellFormed(Cleaned(name))
  {
    RemoveControlsWellFormed(name);
    var a := RemoveControls(name);
    ReplaceSeparatorsWellFormed(a);
    var b := ReplaceSeparators(a);
    ReplaceDotDotWellFormed(b);
    StripLeadingDotsWellFormed(ReplaceDotDot(b));
  }

  lemma {:induction false} RemoveControlsWellFormed(s: JsString)
    requires WellFormed(s)
    ensures WellFormed(RemoveControls(s))
    decreases |s|
  {
    if s != [] {
      if IsHigh(s[0]) {
        RemoveControlsWellFormed(s[2..]);
        RemoveControlsOfPair(s);
        PairThenWellFormed(s[0], s[1], RemoveControls(s[2..]));
      } else {
        RemoveControlsWellFormed(s[1..]);
        if !IsControl(s[0]) {
          UnitThenWellFormed(s[0], RemoveControls(s[1..]));
        }
      }
    }
  }

  /** A surrogate pair is no control character, so it survives as a whole. */
  lemma RemoveControlsOfPair(s: JsString)
    requires |s| >= 2 && IsHigh(s[0]) && IsLow(s[1])
    ensures RemoveControls(s) == [s[0]] + ([s[1]] + RemoveControls(s[2..]))
  {
    var t := s[1..];
    assert !IsControl(s[0]) && !IsControl(t[0]);
    assert RemoveControls(s) == [s[0]] + RemoveControls(t);
    assert t[1..] == s[2..];
    assert RemoveControls(t) == [t[0]] + RemoveControls(s[2..]);
  }

  lemma {:induction false} ReplaceSeparatorsWellFormed(s: JsString)
    requires WellFormed(s)
    ensures WellFormed(ReplaceSeparators(s))
    decreases |s|
  {
    if s != [] {
      if IsHigh(s[0]) {
        ReplaceSeparatorsWellFormed(s[2..]);
        ReplaceSeparatorsOfPair(s);
        PairThenWellFormed(s[0], s[1], ReplaceSeparators(s[2..]));
      } else {
        ReplaceSeparatorsWellFormed(s[1..]);
        UnitThenWellFormed(if s[0] == SLASH || s[0] == BACKSLASH then UNDERSCORE else s[0], ReplaceSeparators(s[1..]));
      }
    }
  }

  lemma {:induction false} ReplaceDotDotWellFormed(s: JsString)
    requires WellFormed(s)
    ensures WellFormed(ReplaceDotDot(s))
    decreases |s|
  {
    if |s| >= 2 && s[0] == DOT && s[1] == DOT {
      ReplaceDotDotWellFormed(s[2..]);
      UnitThenWellFormed(UNDERSCORE, ReplaceDotDot(s[2..]));
    } else if s != [] {
      if IsHigh(s[0]) {
        ReplaceDotDotWellFormed(s[2..]);
        ReplaceDotDotOfPair(s);
        PairThenWellFormed(s[0], s[1], ReplaceDotDot(s[2..]));
      } else {
        ReplaceDotDotWellFormed(s[1..]);
        UnitThenWellFormed(s[0], ReplaceDotDot(s[1..]));
      }
    }
  }

  lemma {:induction false} StripLeadingDotsWellFormed(s: JsString)
    requires WellFormed(s)
    ensures WellFormed(StripLeadingDots(s))
    decreases |s|
  {
    if s != [] && s[0] == DOT {
      StripLeadingDotsWellFormed(s[1..]);
    }
  }

  lemma ReplaceSeparatorsOfPair(s: JsString)
    requires |s| >= 2 && IsHigh(s[0]) && IsLow(s[1])
    ensures ReplaceSeparators(s) == [s[0]] + ([s[1]] + ReplaceSeparators(s[2..]))
  {
    assert s[1..][1..] == s[2..];
  }

  lemma ReplaceDotDotOfPair(s: JsString)
    requires |s| >= 2 && IsHigh(s[0]) && IsLow(s[1])
    ensures ReplaceDotDot(s) == [s[0]] + ([s[1]] + ReplaceDotDot(s[2..]))
  {
    assert s[1..][1..] == s[2..];
  }

  /** A surrogate pair in front of a well-formed string. */
  lemma PairThenWellFormed(hi: Unit, lo: Unit, rest: JsString)
    requires IsHigh(hi) && IsLow(lo) && WellFormed(rest)
    ensures WellFormed([hi] + ([lo] + rest))
  {
    var t := [hi] + ([lo] + rest);
    assert t[0] == hi && t[1] == lo && t[2..] == rest;
  }

  /** A unit that is not a surrogate in front of a well-formed string. */
  lemma UnitThenWellFormed(x: Unit, rest: JsString)
    requires !IsSurrogate(x) && WellFormed(rest)
    ensures WellFormed([x] + rest)
  {
    var t := [x] + rest;
    assert t[0] == x && t[1..] == rest;
  }

  // ---- The download parameter ----

  predicate IsAlnum(c: char)
  {
    'A' <= c <= 'Z' || 'a' <= c <= 'z' || '0' <= c <= '9'
  }

  /** `replace(/\.[A-Za-z0-9]{3}$/, "")`: a trailing '.' plus three letters or digits is dropped. */
  function StripDownloadExtension(name: string): (key: string)
    ensures key == name || (|name| >= 4 && key == name[..|name| - 4])
    ensures key != name <==>
      |name| >= 4 && name[|name| - 4] == '.'
      && IsAlnum(name[|name| - 3]) && IsAlnum(name[|name| - 2]) && IsAlnum(name[|name| - 1])
  {
    var n := |name|;
    if n >= 4 && name[n - 4] == '.' && IsAlnum(name[n - 3]) && IsAlnum(name[n - 2]) && IsAlnum(name[n - 1])
    then name[..n - 4]
    else name
  }
}
