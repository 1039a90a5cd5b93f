/** JavaScript string operations the codec relies on: `split` and `join` on a
    one-character separator, `startsWith`, and the lower-casing used by the
    quiz grading, and the UTF-16 view of a string that JavaScript's `length`
    and default sort work on. A `char` is a Unicode scalar value, so a
    character outside the Basic Multilingual Plane is one `char` here and two
    code units (a surrogate pair) in JavaScript. */
module Text {

  /** `s.split(d)` for a one-character separator `d`: the pieces between
      occurrences of `d`. Splitting the empty string gives `[""]`, as in
      JavaScript, so the result is never empty. */
  function Split(s: string, d: char): (r: seq<string>)
    ensures |r| >= 1
    ensures forall i :: 0 <= i < |r| ==> d !in r[i]
  {
    if |s| == 0 then [""]
    else if s[0] == d then [""] + Split(s[1..], d)
    else
      var rest := Split(s[1..], d);
      [[s[0]] + rest[0]] + rest[1..]
  }

  /** `parts.join(d)`: the parts with one `d` between neighbours. */
  function Join(parts: seq<string>, d: char): string
  {
    if |parts| == 0 then ""
    else if |parts| == 1 then parts[0]
    else parts[0] + [d] + Join(parts[1..], d)
  }

  predicate StartsWith(s: string, prefix: string)
  {
    |prefix| <= |s| && s[..|prefix|] == prefix
  }

  /** Lower-casing of one code unit, restricted to the ASCII letters. */
  function LowerChar(c: char): (r: char)
    ensures 'A' <= c <= 'Z' ==> 'a' <= r <= 'z'
    ensures !('A' <= c <= 'Z') ==> r == c
  {
    if 'A' <= c <= 'Z' then (c as int + 32) as char else c
  }

  /** `s.toLowerCase()` on the ASCII letters of `s`. */
  function Lower(s: string): (r: string)
    ensures |r| == |s|
    ensures forall i :: 0 <= i < |s| ==> r[i] == LowerChar(s[i])
  {
    if |s| == 0 then "" else [LowerChar(s[0])] + Lower(s[1..])
  }

  /** A piece free of the separator splits to itself. */
  lemma {:induction false} SplitWithoutSeparator(a: string, d: char)
    requires d !in a
    ensures Split(a, d) == [a]
  {
    if |a| > 0 {
      SplitWithoutSeparator(a[1..], d);
      assert [a[0]] + a[1..] == a;
    }
  }

  /** Splitting at one separator splits the two sides independently. */
  lemma {:induction false} SplitAtSeparator(a: string, b: string, d: char)
    ensures Split(a + [d] + b, d) == Split(a, d) + Split(b, d)
  {
    var s := a + [d] + b;
    if |a| == 0 {
      assert s[0] == d && s[1..] == b;
    } else {
      assert s[1..] == a[1..] + [d] + b;
      assert s[0] == a[0];
      SplitAtSeparator(a[1..], b, d);
    }
  }

  /** Splitting undoes joining, provided no part contains the separator and
      there is at least one part (`[].join(d)` and `[""].join(d)` are both
      the empty string). */
  lemma {:induction false} SplitJoin(parts: seq<string>, d: char)
    requires |parts| >= 1
    requires forall i :: 0 <= i < |parts| ==> d !in parts[i]
    ensures Split(Join(parts, d), d) == parts
  {
    SplitWithoutSeparator(parts[0], d);
    if |parts| > 1 {
      SplitJoin(parts[1..], d);
      SplitAtSeparator(parts[0], Join(parts[1..], d), d);
      assert [parts[0]] + parts[1..] == parts;
    }
  }

  lemma JoinConsChar(c: char, p: string, tail: seq<string>, d: char)
    ensures Join([[c] + p] + tail, d) == [c] + Join([p] + tail, d)
  {
    if |tail| > 0 {
      assert ([[c] + p] + tail)[1..] == tail;
      assert ([p] + tail)[1..] == tail;
    }
  }

  /** Joining undoes splitting, for every string. */
  lemma {:induction false} JoinSplit(s: string, d: char)
    ensures Join(Split(s, d), d) == s
  {
    if |s| > 0 {
      JoinSplit(s[1..], d);
      var rest := Split(s[1..], d);
      if s[0] == d {
        assert ([""] + rest)[1..] == rest;
      } else {
        JoinConsChar(s[0], rest[0], rest[1..], d);
        assert [rest[0]] + rest[1..] == rest;
      }
      assert [s[0]] + s[1..] == s;
    }
  }

  // ---------------------------------------------------------------------
  // the UTF-16 view of a string

  /** The UTF-16 code units of one character: the character itself below
      U+10000, otherwise a high surrogate (0xD800-0xDBFF) followed by a low
      surrogate (0xDC00-0xDFFF). */
  function Utf16(c: char): (r: seq<int>)
    ensures c as int < 0x10000 ==> r == [c as int]
    ensures c as int >= 0x10000 ==>
              |r| == 2 && 0xD800 <= r[0] < 0xDC00 && 0xDC00 <= r[1] < 0xE000
              && (r[0] - 0xD800) * 0x400 + (r[1] - 0xDC00) + 0x10000 == c as int
  {
    if c as int < 0x10000 then [c as int]
    else
      var v := c as int - 0x10000;
      [0xD800 + v / 0x400, 0xDC00 + v % 0x400]
  }

  /** The UTF-16 code units of a string, character after character. */
  function Utf16Units(s: string): seq<int>
  {
    if |s| == 0 then [] else Utf16(s[0]) + Utf16Units(s[1..])
  }

  /** JavaScript's `s.length`: the number of UTF-16 code units. */
  function Utf16Length(s: string): (n: nat)
    ensures n == |Utf16Units(s)|
    ensures |s| <= n <= 2 * |s|
  {
    if |s| == 0 then 0 else |Utf16(s[0])| + Utf16Length(s[1..])
  }

  /** A string in the Basic Multilingual Plane (ASCII among it) has one
      code unit per character. */
  lemma {:induction false} Utf16LengthOfBmp(s: string)
    requires forall i :: 0 <= i < |s| ==> s[i] as int < 0x10000
    ensures Utf16Length(s) == |s|
  {
    if |s| > 0 {
      Utf16LengthOfBmp(s[1..]);
    }
  }

  /** A string of supplementary characters (emoji, say) has two code units
      per character. */
  lemma {:induction false} Utf16LengthOfAstral(s: string)
    requires forall i :: 0 <= i < |s| ==> s[i] as int >= 0x10000
    ensures Utf16Length(s) == 2 * |s|
  {
    if |s| > 0 {
      Utf16LengthOfAstral(s[1..]);
    }
  }

  /** The place of a character in JavaScript's string order. Code units
      compare numerically, and a supplementary character starts with a high
      surrogate, so it sorts after U+D7FF and before U+E000. */
  function CodeUnitRank(c: char): int
  {
    if c as int < 0xD800 then c as int
    else if c as int >= 0x10000 then c as int - 0x2800
    else c as int + 0x100000
  }

  /** `u` sorts no later than `v` when compared code unit by code unit, a
      prefix first. */
  predicate UnitsLe(u: seq<int>, v: seq<int>)
  {
    if |u| == 0 then true
    else if |v| == 0 then false
    else if u[0] != v[0] then u[0] < v[0]
    else UnitsLe(u[1..], v[1..])
  }

  /** `a` sorts no later than `b` in JavaScript's default order, stated on
      characters: character by character by `CodeUnitRank`, a proper prefix
      first. */
  predicate CodeUnitLe(a: string, b: string)
  {
    if |a| == 0 then true
    else if |b| == 0 then false
    else if a[0] != b[0] then CodeUnitRank(a[0]) < CodeUnitRank(b[0])
    else CodeUnitLe(a[1..], b[1..])
  }

  /** Different characters have different ranks. */
  lemma CodeUnitRankInjective(a: char, b: char)
    requires a != b
    ensures CodeUnitRank(a) != CodeUnitRank(b)
  {
  }

  /** A common prefix does not change the order. */
  lemma {:induction false} UnitsLeCommonPrefix(p: seq<int>, x: seq<int>, y: seq<int>)
    ensures UnitsLe(p + x, p + y) == UnitsLe(x, y)
  {
    if |p| > 0 {
      assert (p + x)[1..] == p[1..] + x;
      assert (p + y)[1..] == p[1..] + y;
      UnitsLeCommonPrefix(p[1..], x, y);
    } else {
      assert p + x == x && p + y == y;
    }
  }

  /** Two different characters are decided by their own code units,
      whatever follows them, and the decision is their rank order. */
  lemma DifferentCharsDecide(a: char, b: char, x: seq<int>, y: seq<int>)
    requires a != b
    ensures UnitsLe(Utf16(a) + x, Utf16(b) + y) == (CodeUnitRank(a) < CodeUnitRank(b))
  {
    var u, v := Utf16(a) + x, Utf16(b) + y;
    assert u[0] == Utf16(a)[0] && v[0] == Utf16(b)[0];
    if u[0] == v[0] {
      assert a as int >= 0x10000 && b as int >= 0x10000;
      assert u[1..][0] == Utf16(a)[1] && v[1..][0] == Utf16(b)[1];
    }
  }

  /** `CodeUnitLe` is JavaScript's order: it agrees with comparing the two
      strings' UTF-16 code units, in both directions. */
  lemma {:induction false} CodeUnitLeIsUtf16Order(a: string, b: string)
    ensures CodeUnitLe(a, b) <==> UnitsLe(Utf16Units(a), Utf16Units(b))
  {
    if |a| > 0 && |b| > 0 {
      if a[0] == b[0] {
        CodeUnitLeIsUtf16Order(a[1..], b[1..]);
        UnitsLeCommonPrefix(Utf16(a[0]), Utf16Units(a[1..]), Utf16Units(b[1..]));
      } else {
        DifferentCharsDecide(a[0], b[0], Utf16Units(a[1..]), Utf16Units(b[1..]));
      }
    }
  }

  /** An emoji (U+1F600, units 0xD83D 0xDE00) sorts before a half-width
      ideographic full stop (U+FF61), although its scalar value is larger. */
  lemma EmojiSortsBeforeHalfwidthStop()
    ensures CodeUnitLe("\U{1F600}", "\U{FF61}") && !CodeUnitLe("\U{FF61}", "\U{1F600}")
  {
  }
}
