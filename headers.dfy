/**
 * Node's check of an HTTP header value, made by `setHeader` and `writeHead`
 * alike: every UTF-16 code unit of the value must be a tab, a printable ASCII
 * character or a unit in 0x80-0xFF, and anything else throws
 * `ERR_INVALID_CHAR`. Both download routes put a stored original name into a
 * Content-Disposition value, so a name with a character above U+00FF (any CJK
 * or emoji name) makes the header throw.
 */
module Headers {
  import opened Wrappers
  import opened Utf16
  import Filenames

  const QUESTION_MARK: Unit := 0x3F

  predicate HeaderUnit(u: Unit)
  {
    u == 0x09 || 0x20 <= u <= 0x7E || 0x80 <= u <= 0xFF
  }

  /** A value `setHeader` accepts. */
  predicate HeaderSafe(s: JsString)
  {
    forall i :: 0 <= i < |s| ==> HeaderUnit(s[i])
  }

  predicate HeaderChar(c: char)
  {
    c == '\t' || ' ' <= c <= '~' || '\U{80}' <= c <= '\U{FF}'
  }

  /** The same rule on a Dafny string: a character up to U+00FF is one unit of the same value. */
  predicate HeaderSafeText(s: string)
  {
    forall i :: 0 <= i < |s| ==> HeaderChar(s[i])
  }

  /** The two forms of the rule agree: a character above U+00FF always yields a unit above 0xFF. */
  lemma {:induction false} HeaderSafeTextUnits(s: string)
    ensures HeaderSafeText(s) <==> HeaderSafe(Units(s))
    decreases |s|
  {
    if s != [] {
      HeaderSafeTextUnits(s[1..]);
      var head := ScalarUnits(s[0] as int);
      var rest := Units(s[1..]);
      assert Units(s) == head + rest;
      HeaderSafeAppend(head, rest);
      assert HeaderSafeText(s) <==> HeaderSafeText([s[0]]) && HeaderSafeText(s[1..]) by {
        assert s == [s[0]] + s[1..];
        HeaderSafeTextAppend([s[0]], s[1..]);
      }
      assert HeaderSafe(head) <==> HeaderSafeText([s[0]]) by {
        assert HeaderSafeText([s[0]]) <==> HeaderChar(s[0]) by {
          assert [s[0]][0] == s[0];
        }
        if s[0] as int < 0x1_0000 {
          HeaderCharUnit(s[0]);
          assert head == [s[0] as int] && head[0] == s[0] as int;
        } else {
          assert !HeaderUnit(head[0]) && !HeaderChar(s[0]);
        }
      }
    }
  }

  lemma HeaderCharUnit(c: char)
    requires c as int < 0x1_0000
    ensures HeaderChar(c) <==> HeaderUnit(c as int)
  {
  }

  lemma HeaderSafeAppend(a: JsString, b: JsString)
    ensures HeaderSafe(a + b) <==> HeaderSafe(a) && HeaderSafe(b)
  {
    if HeaderSafe(a + b) {
      forall i | 0 <= i < |a| ensures HeaderUnit(a[i]) {
        assert (a + b)[i] == a[i];
      }
      forall i | 0 <= i < |b| ensures HeaderUnit(b[i]) {
        assert (a + b)[|a| + i] == b[i];
      }
    }
    if HeaderSafe(a) && HeaderSafe(b) {
      forall i | 0 <= i < |a + b| ensures HeaderUnit((a + b)[i]) {
        if i < |a| {
          assert (a + b)[i] == a[i];
        } else {
          assert (a + b)[i] == b[i - |a|];
        }
      }
    }
  }

  lemma HeaderSafeTextAppend(a: string, b: string)
    ensures HeaderSafeText(a + b) <==> HeaderSafeText(a) && HeaderSafeText(b)
  {
    if HeaderSafeText(a + b) {
      forall i | 0 <= i < |a| ensures HeaderChar(a[i]) {
        assert (a + b)[i] == a[i];
      }
      forall i | 0 <= i < |b| ensures HeaderChar(b[i]) {
        assert (a + b)[|a| + i] == b[i];
      }
    }
    if HeaderSafeText(a) && HeaderSafeText(b) {
      forall i | 0 <= i < |a + b| ensures HeaderChar((a + b)[i]) {
        if i < |a| {
          assert (a + b)[i] == a[i];
        } else {
          assert (a + b)[i] == b[i - |a|];
        }
      }
    }
  }

  /**
   * A sanitised name has no control unit, so it passes the check exactly when
   * none of its units is above 0xFF.
   */
  lemma SanitizedHeaderSafeIff(filename: Option<JsString>)
    ensures var safe := Filenames.SanitizedName(filename);
      HeaderSafe(safe) <==> forall i :: 0 <= i < |safe| ==> safe[i] <= 0xFF
  {
    var safe := Filenames.SanitizedName(filename);
    Filenames.SanitizedNameIsSafe(filename);
    forall i | 0 <= i < |safe| && safe[i] <= 0xFF ensures HeaderUnit(safe[i]) {
      assert Filenames.IsSafeChar(safe[i]);
    }
  }

  /**
   * The quoted `filename="..."` parameter as the code evidently intends it: the
   * full name travels in `filename*=`, so the plain parameter only needs a
   * fallback, with every unit the header cannot carry shown as '?'.
   */
  function Latin1Fallback(s: JsString): (r: JsString)
    ensures |r| == |s|
    ensures forall i :: 0 <= i < |s| ==> r[i] == if s[i] <= 0xFF then s[i] else QUESTION_MARK
  {
    if s == [] then [] else [if s[0] <= 0xFF then s[0] else QUESTION_MARK] + Latin1Fallback(s[1..])
  }

  /** Without control units the fallback always passes the header check. */
  lemma Latin1FallbackIsHeaderSafe(s: JsString)
    requires forall i :: 0 <= i < |s| ==> !Filenames.IsControl(s[i])
    ensures HeaderSafe(Latin1Fallback(s))
  {
    var r := Latin1Fallback(s);
    forall i | 0 <= i < |r| ensures HeaderUnit(r[i]) {
      assert !Filenames.IsControl(s[i]);
    }
  }

  /** On a value the header accepts the fallback changes nothing. */
  lemma Latin1FallbackKeepsSafe(s: JsString)
    requires HeaderSafe(s)
    ensures Latin1Fallback(s) == s
  {
    var r := Latin1Fallback(s);
    forall i | 0 <= i < |s| ensures r[i] == s[i] {
      assert HeaderUnit(s[i]);
    }
  }

  /**
   * The corrected quoted name always passes the header check, and a name that
   * already passed it is unchanged.
   */
  lemma CorrectedInlineNameIsHeaderSafe(filename: Option<JsString>)
    ensures var safe := Filenames.SanitizedName(filename);
      HeaderSafe(Latin1Fallback(safe)) && (HeaderSafe(safe) ==> Latin1Fallback(safe) == safe)
  {
    var safe := Filenames.SanitizedName(filename);
    Filenames.SanitizedNameIsSafe(filename);
    forall i | 0 <= i < |safe| ensures !Filenames.IsControl(safe[i]) {
      assert Filenames.IsSafeChar(safe[i]);
    }
    Latin1FallbackIsHeaderSafe(safe);
    if HeaderSafe(safe) {
      Latin1FallbackKeepsSafe(safe);
    }
  }
}
