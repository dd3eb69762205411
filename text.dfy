/** Models of the Python string built-ins the tools rely on: `str.upper`,
    `str.strip`, `str.split` and `str.join` with a one-character separator,
    and `str.count` of one character. */
module Text {

  /** `str.upper` on one character, restricted to ASCII: a-z become A-Z and
      every other character is left as it is. */
  function UpperChar(c: char): char
  {
    if 'a' <= c <= 'z' then (c as int - 32) as char else c
  }

  predicate IsLower(c: char)
  {
    'a' <= c <= 'z'
  }

  /** `str.upper` on a whole string (ASCII case mapping): the length is kept,
      no lower-case letter is left, every other character stays where it is,
      and each lower-case letter becomes the capital at the same place in the
      alphabet. */
  function Upper(s: string): (u: string)
    ensures |u| == |s|
    ensures forall i :: 0 <= i < |s| ==> !IsLower(u[i])
    ensures forall i :: 0 <= i < |s| && !IsLower(s[i]) ==> u[i] == s[i]
    ensures forall i :: 0 <= i < |s| && IsLower(s[i]) ==>
              'A' <= u[i] <= 'Z' && u[i] as int - 'A' as int == s[i] as int - 'a' as int
  {
    seq(|s|, i requires 0 <= i < |s| => UpperChar(s[i]))
  }

  /** Upper-casing leaves no lower-case letter behind, and it is the identity
      exactly on strings that have none. */
  lemma UpperNormalises(s: string)
    ensures forall i :: 0 <= i < |s| ==> !IsLower(Upper(s)[i])
    ensures Upper(s) == s <==> forall i :: 0 <= i < |s| ==> !IsLower(s[i])
    ensures Upper(Upper(s)) == Upper(s)
  {
  }

  /** Upper-casing never produces a character that is not a capital letter
      unless that character was already there. */
  lemma UpperKeepsNonLetters(s: string, c: char)
    requires !('A' <= c <= 'Z')
    ensures c in Upper(s) ==> c in s
  {
    if c in Upper(s) {
      var i :| 0 <= i < |s| && Upper(s)[i] == c;
    }
  }

  /** Python's `str.isspace` for one character: TAB to CR, the ASCII
      separators FS to US, SPACE, NEL, NO-BREAK SPACE and the Unicode space
      and line/paragraph separators. */
  predicate IsSpace(c: char)
  {
    var n := c as int;
    (9 <= n <= 13) || (28 <= n <= 32) || n == 0x85 || n == 0xA0 || n == 0x1680
    || (0x2000 <= n <= 0x200A) || n == 0x2028 || n == 0x2029 || n == 0x202F
    || n == 0x205F || n == 0x3000
  }

  /** `str.lstrip()`: a suffix of s. */
  function StripLeft(s: string): (r: string)
    ensures |r| <= |s| && r == s[|s| - |r|..]
  {
    if s != [] && IsSpace(s[0]) then StripLeft(s[1..]) else s
  }

  /** `str.rstrip()`: a prefix of s. */
  function StripRight(s: string): (r: string)
    ensures |r| <= |s| && r == s[..|r|]
  {
    if s != [] && IsSpace(s[|s| - 1]) then StripRight(s[..|s| - 1]) else s
  }

  /** `lstrip` removes exactly the leading whitespace: everything dropped is
      whitespace, and what is left does not start with whitespace. */
  lemma {:induction false} StripLeftRemovesLeadingSpace(s: string)
    ensures forall i :: 0 <= i < |s| - |StripLeft(s)| ==> IsSpace(s[i])
    ensures StripLeft(s) == [] || !IsSpace(StripLeft(s)[0])
  {
    if s != [] && IsSpace(s[0]) {
      assert StripLeft(s) == StripLeft(s[1..]);
      StripLeftRemovesLeadingSpace(s[1..]);
      forall i | 0 < i < |s| - |StripLeft(s)|
        ensures IsSpace(s[i])
      {
        assert s[i] == s[1..][i - 1];
      }
    }
  }

  /** `rstrip` removes exactly the trailing whitespace: everything dropped is
      whitespace, and what is left does not end with whitespace. */
  lemma {:induction false} StripRightRemovesTrailingSpace(s: string)
    ensures forall i :: |StripRight(s)| <= i < |s| ==> IsSpace(s[i])
    ensures StripRight(s) == [] || !IsSpace(StripRight(s)[|StripRight(s)| - 1])
  {
    if s != [] && IsSpace(s[|s| - 1]) {
      StripRightRemovesTrailingSpace(s[..|s| - 1]);
      forall i | |StripRight(s)| <= i < |s| - 1
        ensures IsSpace(s[i])
      {
        assert s[i] == s[..|s| - 1][i];
      }
    }
  }

  /** `str.strip()`. */
  function Strip(s: string): (r: string)
    ensures |r| <= |s|
    ensures forall c :: c in r ==> c in s
    ensures r == [] || (!IsSpace(r[0]) && !IsSpace(r[|r| - 1]))
  {
    StripLeftRemovesLeadingSpace(s);
    StripRightRemovesTrailingSpace(StripLeft(s));
    StripRight(StripLeft(s))
  }

  /** `str.count(c)` for a one-character argument. */
  function Count(s: string, c: char): (n: nat)
    ensures n <= |s|
  {
    if s == [] then 0 else (if s[0] == c then 1 else 0) + Count(s[1..], c)
  }

  /** A character has a non-zero count exactly when it occurs. */
  lemma {:induction false} CountPositiveIffPresent(s: string, c: char)
    ensures Count(s, c) > 0 <==> c in s
  {
    if s != [] {
      CountPositiveIffPresent(s[1..], c);
      assert s == [s[0]] + s[1..];
    }
  }

  lemma {:induction false} CountAppend(a: string, b: string, c: char)
    ensures Count(a + b, c) == Count(a, c) + Count(b, c)
  {
    if a != [] {
      assert (a + b)[1..] == a[1..] + b;
      CountAppend(a[1..], b, c);
    } else {
      assert a + b == b;
    }
  }

  /** `str.count` agrees with the multiplicity of c in the string. */
  lemma {:induction false} CountIsMultiplicity(s: string, c: char)
    ensures Count(s, c) == multiset(s)[c]
  {
    if s != [] {
      assert s == [s[0]] + s[1..];
      CountIsMultiplicity(s[1..], c);
    }
  }

  /** The index of the first c in s: a helper for reading `split` by
      positions. */
  function IndexOf(s: string, c: char): (i: nat)
    requires c in s
    ensures i < |s| && s[i] == c && c !in s[..i]
  {
    if s[0] == c then 0 else 1 + IndexOf(s[1..], c)
  }

  /** `s.split(sep)` for a one-character separator: one part more than there
      are separators, and no part contains the separator. */
  function Split(s: string, sep: char): (parts: seq<string>)
    ensures |parts| == Count(s, sep) + 1
    ensures forall i :: 0 <= i < |parts| ==> sep !in parts[i]
  {
    if s == [] then [[]]
    else
      var rest := Split(s[1..], sep);
      if s[0] == sep then [[]] + rest else [[s[0]] + rest[0]] + rest[1..]
  }

  /** `sep.join(parts)` for a one-character separator. */
  function JoinWith(parts: seq<string>, sep: char): string
    requires |parts| >= 1
  {
    if |parts| == 1 then parts[0] else parts[0] + [sep] + JoinWith(parts[1..], sep)
  }

  /** `"".join(parts)`. */
  function Concat(parts: seq<string>): (r: string)
    ensures forall x :: x in r <==> exists i :: 0 <= i < |parts| && x in parts[i]
  {
    if parts == [] then [] else parts[0] + Concat(parts[1..])
  }

  /** s with every occurrence of c removed. */
  function Without(s: string, c: char): string
  {
    if s == [] then [] else (if s[0] == c then [] else [s[0]]) + Without(s[1..], c)
  }

  /** Without removes c and nothing else. */
  lemma {:induction false} WithoutRemoves(s: string, c: char)
    ensures c !in Without(s, c)
    ensures forall x :: x in Without(s, c) <==> x in s && x != c
  {
    if s != [] {
      WithoutRemoves(s[1..], c);
      assert s == [s[0]] + s[1..];
    }
  }

  /** Joining the parts of a split with the same separator gives back the
      original string. */
  lemma {:induction false} SplitJoin(s: string, sep: char)
    ensures JoinWith(Split(s, sep), sep) == s
  {
    if s != [] {
      var rest := Split(s[1..], sep);
      SplitJoin(s[1..], sep);
      var parts := Split(s, sep);
      if s[0] == sep {
        assert parts[1..] == rest;
      } else if |rest| > 1 {
        assert parts[1..] == rest[1..];
        assert s == [s[0]] + s[1..];
      } else {
        assert s == [s[0]] + s[1..];
      }
    }
  }

  /** Splitting a string that begins with a separator-free prefix p puts p at
      the head of the first part. */
  lemma {:induction false} SplitPrefix(p: string, t: string, sep: char)
    requires sep !in p
    ensures Split(p + t, sep) == [p + Split(t, sep)[0]] + Split(t, sep)[1..]
  {
    if p != [] {
      assert (p + t)[1..] == p[1..] + t;
      SplitPrefix(p[1..], t, sep);
      assert [p[0]] + (p[1..] + Split(t, sep)[0]) == p + Split(t, sep)[0];
    } else {
      assert p + t == t;
      assert p + Split(t, sep)[0] == Split(t, sep)[0];
    }
  }

  /** Splitting what a join produced gives back the parts, provided no part
      contains the separator. */
  lemma {:induction false} JoinSplit(parts: seq<string>, sep: char)
    requires |parts| >= 1
    requires forall i :: 0 <= i < |parts| ==> sep !in parts[i]
    ensures Split(JoinWith(parts, sep), sep) == parts
  {
    if |parts| == 1 {
      SplitPrefix(parts[0], [], sep);
      assert parts[0] + [] == parts[0];
    } else {
      var tail := JoinWith(parts[1..], sep);
      JoinSplit(parts[1..], sep);
      assert parts[0] + [sep] + tail == parts[0] + ([sep] + tail);
      SplitPrefix(parts[0], [sep] + tail, sep);
      assert ([sep] + tail)[1..] == tail;
      assert Split([sep] + tail, sep) == [[]] + Split(tail, sep);
      assert parts[0] + [] == parts[0];
      assert parts == [parts[0]] + parts[1..];
    }
  }

  /** The first part of a split is the text before the first separator; the
      remaining parts are the split of the text after it. */
  lemma SplitHead(s: string, sep: char)
    ensures sep !in s ==> Split(s, sep) == [s]
    ensures sep in s ==>
              && Split(s, sep)[0] == s[..IndexOf(s, sep)]
              && Split(s, sep)[1..] == Split(s[IndexOf(s, sep) + 1..], sep)
  {
    if sep !in s {
      SplitPrefix(s, [], sep);
      assert Split([], sep) == [[]];
      assert s + [] == s;
    } else {
      var i := IndexOf(s, sep);
      var t := s[i + 1..];
      assert s == s[..i] + ([sep] + t);
      SplitPrefix(s[..i], [sep] + t, sep);
      assert ([sep] + t)[1..] == t;
      assert Split([sep] + t, sep) == [[]] + Split(t, sep);
      assert s[..i] + [] == s[..i];
    }
  }

  /** Joining the parts of a split with nothing between them removes the
      separators. */
  lemma {:induction false} ConcatSplit(s: string, sep: char)
    ensures Concat(Split(s, sep)) == Without(s, sep)
  {
    if s != [] {
      ConcatSplit(s[1..], sep);
      var rest := Split(s[1..], sep);
      if s[0] == sep {
        assert ([[]] + rest)[1..] == rest;
      } else {
        assert ([[s[0]] + rest[0]] + rest[1..])[1..] == rest[1..];
      }
    }
  }
}
