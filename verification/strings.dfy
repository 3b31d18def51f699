/** The pieces of Python's `str` behaviour the tool relies on: `split` on a
    single separator character and the matching `join`, `strip()` with no
    arguments, `replace` of a single character, and the code-point order
    that `sorted` uses on names. */
module Strings {

  /** Python's `str.isspace()`: exactly the characters that `strip()` with no
      arguments removes. */
  predicate IsSpace(c: char) {
    || c == ' ' || c == '\t' || c == '\n' || c == '\r'
    || c == '\U{000B}' || c == '\U{000C}'
    || ('\U{001C}' <= c && c <= '\U{001F}')
    || c == '\U{0085}' || c == '\U{00A0}' || c == '\U{1680}'
    || ('\U{2000}' <= c && c <= '\U{200A}')
    || c == '\U{2028}' || c == '\U{2029}' || c == '\U{202F}'
    || c == '\U{205F}' || c == '\U{3000}'
  }

  predicate AllSpace(s: string) {
    forall i :: 0 <= i < |s| ==> IsSpace(s[i])
  }

  /** `s.lstrip()`: drops the leading run of whitespace. */
  function TrimStart(s: string): (r: string)
    ensures |r| <= |s| && r == s[|s| - |r|..]
    ensures forall i :: 0 <= i < |s| - |r| ==> IsSpace(s[i])
    ensures r == [] || !IsSpace(r[0])
  {
    if |s| > 0 && IsSpace(s[0]) then TrimStart(s[1..]) else s
  }

  /** `s.rstrip()`: drops the trailing run of whitespace. */
  function TrimEnd(s: string): (r: string)
    ensures |r| <= |s| && r == s[..|r|]
    ensures forall i :: |r| <= i < |s| ==> IsSpace(s[i])
    ensures r == [] || !IsSpace(r[|r| - 1])
  {
    if |s| > 0 && IsSpace(s[|s| - 1]) then TrimEnd(s[..|s| - 1]) else s
  }

  /** `s.strip()`: `s` with a leading and a trailing run of whitespace
      removed. The text is empty exactly when `s` is all whitespace, it
      neither starts nor ends with whitespace, and text that already has no
      surrounding whitespace is left alone. */
  function Strip(s: string): (r: string)
    ensures |r| <= |s|
    ensures Trimmed(s, r)
    ensures r == [] <==> AllSpace(s)
    ensures r != [] ==> !IsSpace(r[0]) && !IsSpace(r[|r| - 1])
    ensures (s == [] || (!IsSpace(s[0]) && !IsSpace(s[|s| - 1]))) ==> r == s
  {
    TrimPiece(s);
    TrimEmpty(s);
    TrimLast(s);
    TrimStart(TrimEnd(s))
  }

  /** `r` is a piece of `s` with only whitespace around it. */
  predicate Trimmed(s: string, r: string) {
    exists i :: 0 <= i <= |s| - |r| && r == s[i..i + |r|]
      && AllSpace(s[..i]) && AllSpace(s[i + |r|..])
  }

  /** Trimming both ends keeps one contiguous piece of `s`, with only
      whitespace before and after it. */
  lemma TrimPiece(s: string)
    ensures Trimmed(s, TrimStart(TrimEnd(s)))
  {
    var e := TrimEnd(s);
    var r := TrimStart(e);
    var i := |e| - |r|;
    assert r == s[i..i + |r|] by {
      assert e == s[..|e|] && r == e[i..];
    }
    assert AllSpace(s[..i]) by {
      forall k | 0 <= k < i ensures IsSpace(s[..i][k]) {
        assert s[..i][k] == e[k];
      }
    }
    assert AllSpace(s[i + |r|..]) by {
      forall k | 0 <= k < |s| - |e| ensures IsSpace(s[|e|..][k]) {
        assert s[|e|..][k] == s[|e| + k];
      }
    }
  }

  /** Nothing is left exactly when everything was whitespace. */
  lemma TrimEmpty(s: string)
    ensures TrimStart(TrimEnd(s)) == [] <==> AllSpace(s)
  {
    var e := TrimEnd(s);
    if TrimStart(e) == [] {
      forall i | 0 <= i < |s| ensures IsSpace(s[i]) {
        if i < |e| { assert IsSpace(e[i]); }
      }
    }
  }

  /** What is left ends where the right-trimmed text ends. */
  lemma TrimLast(s: string)
    ensures var r := TrimStart(TrimEnd(s));
      r != [] ==> !IsSpace(r[|r| - 1])
  {
    var e := TrimEnd(s);
    var r := TrimStart(e);
    if r != [] {
      assert r[|r| - 1] == e[|e| - 1];
    }
  }

  /** `s.split(sep)` for a one-character separator: the pieces between
      separators, always at least one. The first piece is the longest
      separator-free prefix of `s`. */
  function Split(s: string, sep: char): (parts: seq<string>)
    ensures |parts| >= 1
    ensures forall i :: 0 <= i < |parts| ==> sep !in parts[i]
    ensures |parts| == 1 <==> sep !in s
    ensures parts[0] <= s
    ensures |parts[0]| < |s| ==> s[|parts[0]|] == sep
  {
    if |s| == 0 then [""]
    else
      var rest := Split(s[1..], sep);
      if s[0] == sep then [""] + rest
      else [[s[0]] + rest[0]] + rest[1..]
  }

  /** `sep.join(parts)`; joining no parts gives the empty string. */
  function Join(parts: seq<string>, sep: char): (s: string)
    ensures |parts| == 1 ==> s == parts[0]
  {
    if |parts| == 0 then ""
    else if |parts| == 1 then parts[0]
    else parts[0] + [sep] + Join(parts[1..], sep)
  }

  /** Joining the pieces of a split gives back the original text. */
  lemma {:induction false} JoinSplit(s: string, sep: char)
    ensures Join(Split(s, sep), sep) == s
  {
    if |s| > 0 {
      var rest := Split(s[1..], sep);
      JoinSplit(s[1..], sep);
      if s[0] == sep {
        JoinEmptyFirst(rest, sep);
      } else {
        JoinExtendFirst(s[0], rest, sep);
      }
      assert s == [s[0]] + s[1..];
    }
  }

  /** An empty first piece contributes just the separator. */
  lemma JoinEmptyFirst(parts: seq<string>, sep: char)
    requires |parts| >= 1
    ensures Join([""] + parts, sep) == [sep] + Join(parts, sep)
  {
    assert ([""] + parts)[1..] == parts;
  }

  /** A character put in front of the first piece ends up in front of the
      joined text. */
  lemma JoinExtendFirst(c: char, parts: seq<string>, sep: char)
    requires |parts| >= 1
    ensures Join([[c] + parts[0]] + parts[1..], sep) == [c] + Join(parts, sep)
  {
    var q := [[c] + parts[0]] + parts[1..];
    if |parts| > 1 {
      assert q[1..] == parts[1..];
    }
  }

  /** A separator after a separator-free first piece starts the next piece. */
  lemma {:induction false} SplitCons(a: string, sep: char, b: string)
    requires sep !in a
    ensures Split(a + [sep] + b, sep) == [a] + Split(b, sep)
  {
    if |a| == 0 {
      assert a + [sep] + b == [sep] + b;
      assert ([sep] + b)[1..] == b;
    } else {
      var s := a + [sep] + b;
      assert s[1..] == a[1..] + [sep] + b;
      SplitCons(a[1..], sep, b);
      assert [a[0]] + a[1..] == a;
    }
  }

  /** Splitting pieces that hold no separator, once joined, gives them back. */
  lemma {:induction false} SplitJoin(parts: seq<string>, sep: char)
    requires |parts| >= 1
    requires forall i :: 0 <= i < |parts| ==> sep !in parts[i]
    ensures Split(Join(parts, sep), sep) == parts
  {
    if |parts| == 1 {
      var p := Split(parts[0], sep);
      JoinSplit(parts[0], sep);
    } else {
      SplitJoin(parts[1..], sep);
      SplitCons(parts[0], sep, Join(parts[1..], sep));
      assert [parts[0]] + parts[1..] == parts;
    }
  }

  /** The text before the first occurrence of `sep` (all of `s` when there
      is none): Python's `s.split(sep)[0]`. */
  function Before(s: string, sep: char): (p: string)
    ensures p <= s && sep !in p
    ensures p == s <==> sep !in s
    ensures |p| < |s| ==> s[|p|] == sep
  {
    Split(s, sep)[0]
  }

  /** The text after the first occurrence of `sep`: Python's
      `s.split(sep, 1)[1]`, which raises when `sep` does not occur. */
  function After(s: string, sep: char): (q: string)
    requires sep in s
    ensures s == Before(s, sep) + [sep] + q
  {
    s[|Before(s, sep)| + 1..]
  }

  /** The pieces of a split are the text before the first separator
      followed by the pieces of what comes after it. */
  lemma SplitAfterFirst(s: string, sep: char)
    requires sep in s
    ensures Split(s, sep) == [Before(s, sep)] + Split(After(s, sep), sep)
  {
    SplitCons(Before(s, sep), sep, After(s, sep));
  }

  /** The first separator after a separator-free piece splits there. */
  lemma BeforeAfterCons(a: string, sep: char, b: string)
    requires sep !in a
    ensures sep in a + [sep] + b
    ensures Before(a + [sep] + b, sep) == a && After(a + [sep] + b, sep) == b
  {
    SplitCons(a, sep, b);
    assert (a + [sep] + b)[|a|] == sep;
    assert (a + [sep] + b)[|a| + 1..] == b;
  }

  /** `s.replace(c, with)` for a one-character pattern `c`. */
  function ReplaceAll(s: string, c: char, with: string): (r: string)
    ensures c !in with ==> c !in r
    ensures c !in s ==> r == s
  {
    if |s| == 0 then ""
    else (if s[0] == c then with else [s[0]]) + ReplaceAll(s[1..], c, with)
  }

  /** One character is replaced exactly when it is the pattern; with
      `ReplaceAllAppend` this determines the replacement of every text. */
  lemma ReplaceAllOne(x: char, c: char, with: string)
    ensures ReplaceAll([x], c, with) == if x == c then with else [x]
  {
    assert [x][1..] == [];
  }

  /** Replacement works piece by piece. */
  lemma {:induction false} ReplaceAllAppend(a: string, b: string, c: char, with: string)
    ensures ReplaceAll(a + b, c, with) == ReplaceAll(a, c, with) + ReplaceAll(b, c, with)
  {
    if |a| == 0 {
      assert a + b == b;
    } else {
      assert (a + b)[1..] == a[1..] + b;
      ReplaceAllAppend(a[1..], b, c, with);
    }
  }

  /** Stripping a space put in front of already-stripped text gives the
      text back. */
  lemma StripAfterSpace(s: string)
    requires s == [] || (!IsSpace(s[0]) && !IsSpace(s[|s| - 1]))
    ensures Strip(" " + s) == s
  {
    if s != [] {
      assert (" " + s)[|" " + s| - 1] == s[|s| - 1];
      assert TrimEnd(" " + s) == " " + s;
      assert (" " + s)[1..] == s;
    }
  }

  /** ASCII lower-casing; see `Mailer.HasSubjectHeader` for why this agrees
      with Python's full `str.lower()` where the tool uses it. */
  function LowerAscii(s: string): (r: string)
    ensures |r| == |s|
    ensures forall i :: 0 <= i < |s| && !('A' <= s[i] <= 'Z') ==> r[i] == s[i]
    ensures forall i :: 0 <= i < |s| && 'A' <= s[i] <= 'Z' ==> r[i] as int == s[i] as int + 32
  {
    if |s| == 0 then ""
    else
      var c := s[0];
      [if 'A' <= c <= 'Z' then (c as int + 32) as char else c] + LowerAscii(s[1..])
  }

  /** Python's string order (`<` on `str`): code point by code point, a
      proper prefix before any extension of it. */
  predicate Less(a: string, b: string) {
    if |a| == 0 then |b| > 0
    else if |b| == 0 then false
    else if a[0] != b[0] then a[0] < b[0]
    else Less(a[1..], b[1..])
  }

  lemma {:induction false} LessIrreflexive(a: string)
    ensures !Less(a, a)
  {
    if |a| > 0 { LessIrreflexive(a[1..]); }
  }

  lemma {:induction false} LessTransitive(a: string, b: string, c: string)
    requires Less(a, b) && Less(b, c)
    ensures Less(a, c)
  {
    if |a| > 0 && |b| > 0 && |c| > 0 && a[0] == b[0] && b[0] == c[0] {
      LessTransitive(a[1..], b[1..], c[1..]);
    }
  }

  lemma {:induction false} LessTotal(a: string, b: string)
    ensures a == b || Less(a, b) || Less(b, a)
  {
    if |a| > 0 && |b| > 0 && a[0] == b[0] {
      LessTotal(a[1..], b[1..]);
      if a[1..] == b[1..] {
        assert a == [a[0]] + a[1..] && b == [b[0]] + b[1..];
      }
    }
  }

  lemma LessAsymmetric(a: string, b: string)
    requires Less(a, b)
    ensures !Less(b, a)
  {
    if Less(b, a) {
      LessTransitive(a, b, a);
      LessIrreflexive(a);
    }
  }

  /** "At most" in Python's string order is transitive. */
  lemma NotLessTransitive(a: string, b: string, c: string)
    requires !Less(a, b) && !Less(b, c)
    ensures !Less(a, c)
  {
    LessTotal(a, b);
    if Less(a, c) && a != b {
      LessTransitive(b, a, c);
    }
  }

  /** Comparing two texts whose first pieces have the same length compares
      the first pieces, and only on a tie the rest. */
  lemma {:induction false} LessConcat(p1: string, q1: string, p2: string, q2: string)
    requires |p1| == |p2|
    ensures Less(p1 + q1, p2 + q2) <==> Less(p1, p2) || (p1 == p2 && Less(q1, q2))
  {
    if |p1| == 0 {
      assert p1 + q1 == q1 && p2 + q2 == q2;
      LessIrreflexive(p1);
    } else {
      assert (p1 + q1)[0] == p1[0] && (p2 + q2)[0] == p2[0];
      assert (p1 + q1)[1..] == p1[1..] + q1;
      assert (p2 + q2)[1..] == p2[1..] + q2;
      LessConcat(p1[1..], q1, p2[1..], q2);
      if p1[0] == p2[0] {
        assert p1 == [p1[0]] + p1[1..] && p2 == [p2[0]] + p2[1..];
      }
    }
  }
}
