/** The three string operations the request handler of main.ts relies on:
    `split` on a separator followed by `pop` (the last piece), ASCII
    `toLowerCase`, and `includes` (substring search). */
module Strings {

  /** `s.split(sep)`: the pieces of `s` between occurrences of `sep`.
      There is always at least one piece, and no piece holds `sep`. */
  function Split(s: string, sep: char): (parts: seq<string>)
    ensures |parts| >= 1
    ensures forall i :: 0 <= i < |parts| ==> sep !in parts[i]
    decreases |s|
  {
    if |s| == 0 then [""]
    else
      var rest := Split(s[1..], sep);
      if s[0] == sep then [""] + rest
      else [[s[0]] + rest[0]] + rest[1..]
  }

  /** `parts.join(sep)`, which undoes Split. */
  function Join(parts: seq<string>, sep: char): string
    requires |parts| >= 1
    decreases |parts|
  {
    if |parts| == 1 then parts[0]
    else parts[0] + [sep] + Join(parts[1..], sep)
  }

  /** Splitting loses nothing: joining the pieces gives back the string. */
  lemma {:induction false} JoinSplit(s: string, sep: char)
    ensures Join(Split(s, sep), sep) == s
    decreases |s|
  {
    if |s| > 0 {
      var rest := Split(s[1..], sep);
      JoinSplit(s[1..], sep);
      if s[0] == sep {
        assert ([""] + rest)[1..] == rest;
      } else if |rest| > 1 {
        var parts := [[s[0]] + rest[0]] + rest[1..];
        assert parts[1..] == rest[1..];
        assert Join(rest, sep) == rest[0] + [sep] + Join(rest[1..], sep);
        assert s == [s[0]] + s[1..];
      } else {
        assert s == [s[0]] + s[1..];
      }
    }
  }

  /** `e` is a suffix of `s` that holds no `sep` and is either all of `s` or
      directly preceded by `sep`: the text after the last separator. */
  ghost predicate IsFinalSegment(s: string, sep: char, e: string)
  {
    && |e| <= |s|
    && e == s[|s| - |e|..]
    && sep !in e
    && (|e| == |s| || s[|s| - |e| - 1] == sep)
  }

  /** The last piece of a split. */
  function LastPiece(parts: seq<string>): string
    requires |parts| >= 1
  {
    parts[|parts| - 1]
  }

  /** `s.split(sep).pop()`: the last piece, which is exactly the text after
      the last `sep`. */
  function LastSegment(s: string, sep: char): (r: string)
    ensures IsFinalSegment(s, sep, r)
  {
    SplitLastIsFinal(s, sep);
    LastPiece(Split(s, sep))
  }

  /** The last piece of Split is the text after the last separator. */
  lemma {:induction false} SplitLastIsFinal(s: string, sep: char)
    ensures IsFinalSegment(s, sep, LastPiece(Split(s, sep)))
    decreases |s|
  {
    if |s| > 0 {
      SplitLastIsFinal(s[1..], sep);
      if s[0] == sep {
        SplitLastAfterHead(s, sep);
      } else {
        SplitLastAfterOther(s, sep);
      }
    }
  }

  /** Step of SplitLastIsFinal for a string that starts with `sep`. */
  lemma SplitLastAfterHead(s: string, sep: char)
    requires |s| > 0 && s[0] == sep
    requires IsFinalSegment(s[1..], sep, LastPiece(Split(s[1..], sep)))
    ensures IsFinalSegment(s, sep, LastPiece(Split(s, sep)))
  {
    var rest := Split(s[1..], sep);
    assert Split(s, sep) == [""] + rest;
    assert LastPiece(Split(s, sep)) == LastPiece(rest);
  }

  /** Step of SplitLastIsFinal for a string that starts with another character. */
  lemma SplitLastAfterOther(s: string, sep: char)
    requires |s| > 0 && s[0] != sep
    requires IsFinalSegment(s[1..], sep, LastPiece(Split(s[1..], sep)))
    ensures IsFinalSegment(s, sep, LastPiece(Split(s, sep)))
  {
    var rest := Split(s[1..], sep);
    var e := LastPiece(Split(s, sep));
    assert Split(s, sep) == [[s[0]] + rest[0]] + rest[1..];
    JoinSplit(s[1..], sep);
    if |rest| == 1 {
      assert rest[0] == s[1..];
      assert e == [s[0]] + s[1..] == s;
      assert s[|s| - |e|..] == s;
    } else {
      assert e == LastPiece(rest);
      assert s[1..] == rest[0] + [sep] + Join(rest[1..], sep);
      assert s[1..][|rest[0]|] == sep;
      assert |e| < |s| - 1;
    }
  }

  /** There is only one text after the last separator. */
  lemma FinalSegmentUnique(s: string, sep: char, e: string)
    requires IsFinalSegment(s, sep, e)
    ensures e == LastSegment(s, sep)
  {
  }

  /** The last piece of `prefix + sep + seg`, where `seg` holds no `sep`, is
      `seg`, whatever `prefix` holds. */
  lemma LastSegmentAfter(prefix: string, sep: char, seg: string)
    requires sep !in seg
    ensures LastSegment(prefix + [sep] + seg, sep) == seg
  {
    var s := prefix + [sep] + seg;
    assert s[|s| - |seg|..] == seg;
    assert s[|s| - |seg| - 1] == sep;
    FinalSegmentUnique(s, sep, seg);
  }

  /** A string without the separator is its own last piece. */
  lemma LastSegmentWithout(s: string, sep: char)
    requires sep !in s
    ensures LastSegment(s, sep) == s
  {
    assert s[0..] == s;
    FinalSegmentUnique(s, sep, s);
  }

  predicate IsUpper(c: char)
  {
    'A' <= c <= 'Z'
  }

  /** ASCII `toLowerCase` of one character. */
  function LowerChar(c: char): char
  {
    if IsUpper(c) then (c as int + 32) as char else c
  }

  /** ASCII `toLowerCase`: every character lowered in place. */
  function ToLower(s: string): (r: string)
    ensures |r| == |s|
    ensures forall i :: 0 <= i < |s| ==> r[i] == LowerChar(s[i])
    decreases |s|
  {
    if |s| == 0 then [] else [LowerChar(s[0])] + ToLower(s[1..])
  }

  /** Two characters are the same letter up to ASCII case. */
  predicate SameIgnoringCase(a: char, b: char)
  {
    || a == b
    || (IsUpper(a) && b as int == a as int + 32)
    || (IsUpper(b) && a as int == b as int + 32)
  }

  /** Two strings differ at most in the ASCII case of their letters. */
  predicate EqualIgnoringCase(a: string, b: string)
  {
    |a| == |b| && forall i :: 0 <= i < |a| ==> SameIgnoringCase(a[i], b[i])
  }

  /** Lower-casing makes exactly the strings that differ only in case equal. */
  lemma ToLowerEqualIff(a: string, b: string)
    ensures ToLower(a) == ToLower(b) <==> EqualIgnoringCase(a, b)
  {
    if ToLower(a) == ToLower(b) {
      forall i | 0 <= i < |a| ensures SameIgnoringCase(a[i], b[i]) {
        assert ToLower(a)[i] == ToLower(b)[i];
      }
    }
    if EqualIgnoringCase(a, b) {
      assert forall i :: 0 <= i < |a| ==> ToLower(a)[i] == ToLower(b)[i];
    }
  }

  /** Lower-casing twice is lower-casing once. */
  lemma ToLowerIdempotent(s: string)
    ensures ToLower(ToLower(s)) == ToLower(s)
  {
    assert forall i :: 0 <= i < |s| ==> ToLower(ToLower(s))[i] == ToLower(s)[i];
  }

  /** A string without ASCII upper-case letters is left as it is. */
  lemma ToLowerFixed(s: string)
    requires forall i :: 0 <= i < |s| ==> !IsUpper(s[i])
    ensures ToLower(s) == s
  {
    assert forall i :: 0 <= i < |s| ==> ToLower(s)[i] == s[i];
  }

  /** `t` occurs in `s` starting at index `i`. */
  ghost predicate OccursAt(s: string, t: string, i: int)
  {
    0 <= i <= |s| - |t| && s[i..i + |t|] == t
  }

  /** When `t` is not a prefix of `s`, it occurs in `s` exactly when it
      occurs in `s` without its first character. */
  lemma OccursInTail(s: string, t: string)
    requires |s| > 0 && !(t <= s)
    ensures (exists i :: OccursAt(s, t, i)) <==> (exists i :: OccursAt(s[1..], t, i))
  {
    if exists i :: OccursAt(s[1..], t, i) {
      var i :| OccursAt(s[1..], t, i);
      assert s[i + 1..i + 1 + |t|] == t;
      assert OccursAt(s, t, i + 1);
    }
    if exists i :: OccursAt(s, t, i) {
      var i :| OccursAt(s, t, i);
      assert i != 0;
      assert s[1..][i - 1..i - 1 + |t|] == t;
      assert OccursAt(s[1..], t, i - 1);
    }
  }

  /** `s.includes(t)`: `t` occurs in `s` at some index. */
  predicate Contains(s: string, t: string): (r: bool)
    ensures r <==> exists i :: OccursAt(s, t, i)
    decreases |s|
  {
    if t <= s then
      assert s[0..|t|] == t;
      assert OccursAt(s, t, 0);
      true
    else if |s| == 0 then
      false
    else
      OccursInTail(s, t);
      Contains(s[1..], t)
  }

  /** A string that holds `a + b` holds `a`. */
  lemma {:induction false} ContainsPrefixOf(s: string, a: string, b: string)
    requires Contains(s, a + b)
    ensures Contains(s, a)
    decreases |s|
  {
    if !(a + b <= s) {
      ContainsPrefixOf(s[1..], a, b);
    } else {
      assert s[..|a|] == (a + b)[..|a|] == a;
    }
  }
}
