/**
 * JavaScript's `String.prototype.split` with a one-character separator, as
 * the legacy router and handlers use it (`pathString.split('/')`,
 * `pathname.split('/')`, `contents.split(',')`), and `pop()` on the result.
 */
module Splitting {
  import Wrappers

  /** `s.split(sep)`: the maximal runs between separators; `"".split(sep)` is `[""]`. */
  function Split(s: string, sep: char): (parts: seq<string>)
    ensures |parts| >= 1
    ensures forall i :: 0 <= i < |parts| ==> sep !in parts[i]
    decreases |s|
  {
    if |s| == 0 then [""]
    else if s[0] == sep then [""] + Split(s[1..], sep)
    else
      var rest := Split(s[1..], sep);
      [[s[0]] + rest[0]] + rest[1..]
  }

  /** `parts.join(sep)`, the inverse of `Split`. */
  function Join(parts: seq<string>, sep: char): string
    requires |parts| >= 1
  {
    if |parts| == 1 then parts[0] else parts[0] + [sep] + Join(parts[1..], sep)
  }

  /** `s.split(sep).pop()`: the text after the last separator. */
  function LastPart(s: string, sep: char): string
  {
    var parts := Split(s, sep);
    parts[|parts| - 1]
  }

  /** Splitting loses nothing: joining the parts again gives the string back. */
  lemma {:induction false} JoinSplit(s: string, sep: char)
    ensures Join(Split(s, sep), sep) == s
    decreases |s|
  {
    if |s| > 0 {
      var rest := Split(s[1..], sep);
      JoinSplit(s[1..], sep);
      if s[0] == sep {
        assert Split(s, sep) == [""] + rest;
        assert ([""] + rest)[1..] == rest;
      } else {
        var parts := [[s[0]] + rest[0]] + rest[1..];
        assert Split(s, sep) == parts;
        if |rest| > 1 {
          assert parts[1..] == rest[1..];
          assert Join(rest, sep) == rest[0] + [sep] + Join(rest[1..], sep);
        }
      }
    }
  }

  /** A separator between two strings splits them apart independently. */
  lemma {:induction false} SplitConcat(x: string, y: string, sep: char)
    ensures Split(x + [sep] + y, sep) == Split(x, sep) + Split(y, sep)
    decreases |x|
  {
    var s := x + [sep] + y;
    if |x| == 0 {
      assert s == [sep] + y;
      assert s[1..] == y;
    } else {
      assert s[1..] == x[1..] + [sep] + y;
      SplitConcat(x[1..], y, sep);
      SplitConcatStep(x, y, sep);
    }
  }

  /** One step of `SplitConcat`: the first unit of `x` opens a part or joins the first one. */
  lemma SplitConcatStep(x: string, y: string, sep: char)
    requires x != []
    requires Split(x[1..] + [sep] + y, sep) == Split(x[1..], sep) + Split(y, sep)
    ensures Split(x + [sep] + y, sep) == Split(x, sep) + Split(y, sep)
  {
    var s := x + [sep] + y;
    var a := Split(x[1..], sep);
    var b := Split(y, sep);
    assert s[0] == x[0] && s[1..] == x[1..] + [sep] + y;
    if x[0] == sep {
      SplitSepHead(s, sep);
      SplitSepHead(x, sep);
      Wrappers.ConcatAssoc([""], a, b);
    } else {
      SplitCharHead(s, sep);
      SplitCharHead(x, sep);
      HeadTailOfConcat(a, b);
      Wrappers.ConcatAssoc([[x[0]] + a[0]], a[1..], b);
    }
  }

  /** A leading separator opens an empty part. */
  lemma SplitSepHead(s: string, sep: char)
    requires s != [] && s[0] == sep
    ensures Split(s, sep) == [""] + Split(s[1..], sep)
  {
  }

  /** Any other leading unit joins the first part of the tail. */
  lemma SplitCharHead(s: string, sep: char)
    requires s != [] && s[0] != sep
    ensures var r := Split(s[1..], sep); Split(s, sep) == [[s[0]] + r[0]] + r[1..]
  {
  }

  /** The head and tail of a concatenation whose left side is not empty. */
  lemma HeadTailOfConcat<T>(a: seq<T>, b: seq<T>)
    requires a != []
    ensures (a + b)[0] == a[0] && (a + b)[1..] == a[1..] + b
  {
  }

  /** A string without the separator is a single part. */
  lemma {:induction false} SplitWithoutSep(s: string, sep: char)
    requires sep !in s
    ensures Split(s, sep) == [s]
    decreases |s|
  {
    if |s| > 0 {
      assert s[0] != sep;
      assert sep !in s[1..];
      SplitWithoutSep(s[1..], sep);
      assert [s[0]] + s[1..] == s;
    }
  }

  /** Splitting undoes joining parts that hold no separator. */
  lemma {:induction false} SplitJoin(parts: seq<string>, sep: char)
    requires |parts| >= 1
    requires forall i :: 0 <= i < |parts| ==> sep !in parts[i]
    ensures Split(Join(parts, sep), sep) == parts
    decreases |parts|
  {
    if |parts| == 1 {
      SplitWithoutSep(parts[0], sep);
    } else {
      SplitJoin(parts[1..], sep);
      SplitConcat(parts[0], Join(parts[1..], sep), sep);
      SplitWithoutSep(parts[0], sep);
    }
  }

  /** The last part is what follows the last separator. */
  lemma LastPartAfterLastSep(x: string, y: string, sep: char)
    requires sep !in y
    ensures LastPart(x + [sep] + y, sep) == y
  {
    SplitConcat(x, y, sep);
    SplitWithoutSep(y, sep);
  }

  /** Without a separator, the last part is the whole string. */
  lemma LastPartWithoutSep(s: string, sep: char)
    requires sep !in s
    ensures LastPart(s, sep) == s
  {
    SplitWithoutSep(s, sep);
  }

  /** The last part holds no separator and is a suffix of the string. */
  lemma {:induction false} LastPartIsSuffix(s: string, sep: char)
    ensures sep !in LastPart(s, sep)
    ensures |LastPart(s, sep)| <= |s| && s[|s| - |LastPart(s, sep)|..] == LastPart(s, sep)
    decreases |s|
  {
    if |s| > 0 {
      var rest := Split(s[1..], sep);
      LastPartIsSuffix(s[1..], sep);
      LastPartOfHead(s, sep);
      if s[0] != sep && |rest| == 1 {
        JoinSplit(s[1..], sep);
        assert LastPart(s, sep) == s;
      } else {
        assert s[1..][|s[1..]| - |LastPart(s[1..], sep)|..] == s[|s| - |LastPart(s[1..], sep)|..];
      }
    }
  }

  /** The last part of a non-empty string, in terms of the parts of its tail. */
  lemma LastPartOfHead(s: string, sep: char)
    requires s != []
    ensures var rest := Split(s[1..], sep);
      LastPart(s, sep) == if s[0] != sep && |rest| == 1 then [s[0]] + rest[0] else LastPart(s[1..], sep)
  {
    if s[0] == sep {
      SplitSepHead(s, sep);
    } else {
      SplitCharHead(s, sep);
    }
  }

  /** Taking the last part twice changes nothing more. */
  lemma LastPartIdempotent(s: string, sep: char)
    ensures LastPart(LastPart(s, sep), sep) == LastPart(s, sep)
  {
    LastPartIsSuffix(s, sep);
    LastPartWithoutSep(LastPart(s, sep), sep);
  }
}
