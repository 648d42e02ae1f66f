/**
  The Python `str` operations the converter and the data utility rely on,
  stated on `string` (a sequence of `char`).
 */
module Text {

  /** The characters for which Python's `str.isspace()` holds; `str.strip()`
      with no argument removes exactly these from both ends. */
  const Whitespace: set<char> := {
    '\t', '\n', '\U{B}', '\U{C}', '\r', '\U{1C}', '\U{1D}', '\U{1E}', '\U{1F}', ' ',
    '\U{85}', '\U{A0}', '\U{1680}',
    '\U{2000}', '\U{2001}', '\U{2002}', '\U{2003}', '\U{2004}', '\U{2005}',
    '\U{2006}', '\U{2007}', '\U{2008}', '\U{2009}', '\U{200A}',
    '\U{2028}', '\U{2029}', '\U{202F}', '\U{205F}', '\U{3000}'
  }

  /** `s.startswith(p)` */
  predicate StartsWith(s: string, p: string) {
    p <= s
  }

  /** `s.endswith(p)` */
  predicate EndsWith(s: string, p: string) {
    |p| <= |s| && s[|s| - |p|..] == p
  }

  /** `sub in s` for strings: `sub` occurs somewhere in `s`. */
  predicate Contains(s: string, sub: string)
    decreases |s|
  {
    StartsWith(s, sub) || (s != [] && Contains(s[1..], sub))
  }

  /** `sub` is the slice of `s` that starts at `i`. */
  predicate OccursAt(s: string, sub: string, i: int) {
    0 <= i <= |s| - |sub| && s[i..i + |sub|] == sub
  }

  /** `sub in s` holds exactly when `sub` occurs in `s` at some position. */
  lemma {:induction false} ContainsAt(s: string, sub: string)
    ensures Contains(s, sub) <==> exists i :: OccursAt(s, sub, i)
    decreases |s|
  {
    if StartsWith(s, sub) {
      assert OccursAt(s, sub, 0);
    }
    if s != [] {
      ContainsAt(s[1..], sub);
      if i :| OccursAt(s[1..], sub, i) {
        assert s[1..][i..i + |sub|] == s[i + 1..i + 1 + |sub|];
        assert OccursAt(s, sub, i + 1);
      }
      if i :| OccursAt(s, sub, i) {
        if i > 0 {
          assert s[1..][i - 1..i - 1 + |sub|] == s[i..i + |sub|];
          assert OccursAt(s[1..], sub, i - 1);
        } else {
          assert StartsWith(s, sub);
        }
      }
    } else {
      if i :| OccursAt(s, sub, i) {
        assert sub == [];
      }
    }
  }

  /** `s.count(c)` for a one-character argument: never more than the
      length. */
  function Count(s: string, c: char): (n: nat)
    ensures n <= |s|
    decreases |s|
  {
    if s == [] then 0 else (if s[0] == c then 1 else 0) + Count(s[1..], c)
  }

  /** The count is the whole length exactly when every character is `c`. */
  lemma {:induction false} CountAll(s: string, c: char)
    ensures Count(s, c) == |s| <==> forall k :: 0 <= k < |s| ==> s[k] == c
    decreases |s|
  {
    if s != [] {
      CountAll(s[1..], c);
      assert forall k :: 1 <= k < |s| ==> s[k] == s[1..][k - 1];
    }
  }

  /** A string holds the character exactly when it counts it at least once. */
  lemma {:induction false} CountPositive(s: string, c: char)
    ensures Count(s, c) > 0 <==> c in s
    decreases |s|
  {
    if s != [] {
      CountPositive(s[1..], c);
      assert s == [s[0]] + s[1..];
    }
  }

  /** `s.lstrip(chars)`: drops the leading characters that belong to `cs`. */
  function TrimStart(s: string, cs: set<char>): string
    decreases |s|
  {
    if s != [] && s[0] in cs then TrimStart(s[1..], cs) else s
  }

  /** `s.rstrip(chars)`: drops the trailing characters that belong to `cs`. */
  function TrimEnd(s: string, cs: set<char>): string
    decreases |s|
  {
    if s != [] && s[|s| - 1] in cs then TrimEnd(s[..|s| - 1], cs) else s
  }

  /** How many characters `s.strip(chars)` drops at the front. */
  function Leading(s: string, cs: set<char>): int {
    |s| - |TrimStart(s, cs)|
  }

  /** `s.strip(chars)` */
  function Trim(s: string, cs: set<char>): string {
    TrimEnd(TrimStart(s, cs), cs)
  }

  /** `lstrip` keeps a suffix that does not start with a character of `cs`,
      and everything it drops is in `cs`. */
  lemma {:induction false} TrimStartFacts(s: string, cs: set<char>)
    ensures var r := TrimStart(s, cs);
            && |r| <= |s| && r == s[|s| - |r|..]
            && (r == [] || r[0] !in cs)
            && (forall k :: 0 <= k < |s| - |r| ==> s[k] in cs)
    decreases |s|
  {
    if s != [] && s[0] in cs {
      TrimStartFacts(s[1..], cs);
    }
  }

  /** `rstrip` keeps a prefix that does not end with a character of `cs`,
      and everything it drops is in `cs`. */
  lemma {:induction false} TrimEndFacts(s: string, cs: set<char>)
    ensures var r := TrimEnd(s, cs);
            && |r| <= |s| && r == s[..|r|]
            && (r == [] || r[|r| - 1] !in cs)
            && (forall k :: |r| <= k < |s| ==> s[k] in cs)
    decreases |s|
  {
    if s != [] && s[|s| - 1] in cs {
      TrimEndFacts(s[..|s| - 1], cs);
    }
  }

  /** `strip` keeps the infix of `s` that neither starts nor ends with a
      character of `cs`, dropping only characters of `cs` around it. */
  lemma TrimFacts(s: string, cs: set<char>)
    ensures var r := Trim(s, cs);
            var i := Leading(s, cs);
            && (r == [] || (r[0] !in cs && r[|r| - 1] !in cs))
            && 0 <= i && i + |r| <= |s| && r == s[i..i + |r|]
            && (forall k :: 0 <= k < i ==> s[k] in cs)
            && (forall k :: i + |r| <= k < |s| ==> s[k] in cs)
  {
    TrimStartFacts(s, cs);
    TrimEndFacts(TrimStart(s, cs), cs);
  }

  /** `s.strip()`: no longer than `s`, and neither starting nor ending
      with whitespace. */
  function Strip(s: string): (r: string)
    ensures |r| <= |s|
    ensures r == [] || (r[0] !in Whitespace && r[|r| - 1] !in Whitespace)
  {
    TrimFacts(s, Whitespace);
    Trim(s, Whitespace)
  }

  /** Stripping keeps only characters of `s`, and keeps every one of them
      that is not whitespace. */
  lemma StripChars(s: string)
    ensures forall k :: 0 <= k < |Strip(s)| ==> Strip(s)[k] in s
    ensures forall k :: 0 <= k < |s| && s[k] !in Whitespace ==> s[k] in Strip(s)
  {
    var r := Strip(s);
    var i := Leading(s, Whitespace);
    TrimFacts(s, Whitespace);
    forall k | 0 <= k < |r| ensures r[k] in s {
      assert r[k] == s[i + k];
    }
    forall k | 0 <= k < |s| && s[k] !in Whitespace ensures s[k] in r {
      assert r[k - i] == s[k];
    }
  }

  /** `s.replace(c, '')`: every `c` goes, and only the `c`s do. */
  function RemoveChar(s: string, c: char): (r: string)
    ensures c !in r
  {
    if s == [] then []
    else
      assert s == [s[0]] + s[1..];
      (if s[0] == c then [] else [s[0]]) + RemoveChar(s[1..], c)
  }

  /** Removal drops exactly the counted occurrences of `c`. */
  lemma {:induction false} RemoveCharCount(s: string, c: char)
    ensures |RemoveChar(s, c)| == |s| - Count(s, c)
    decreases |s|
  {
    if s != [] {
      RemoveCharCount(s[1..], c);
    }
  }

  /** Removal keeps only characters of `s`, and every one of them other
      than `c`. */
  lemma {:induction false} RemoveCharChars(s: string, c: char)
    ensures forall k :: 0 <= k < |RemoveChar(s, c)| ==> RemoveChar(s, c)[k] in s
    ensures forall k :: 0 <= k < |s| && s[k] != c ==> s[k] in RemoveChar(s, c)
    decreases |s|
  {
    if s != [] {
      RemoveCharChars(s[1..], c);
      assert s == [s[0]] + s[1..];
    }
  }

  /** Removal goes character by character: it keeps the other characters
      of both halves, in order. */
  lemma {:induction false} RemoveCharAppend(a: string, b: string, c: char)
    ensures RemoveChar(a + b, c) == RemoveChar(a, c) + RemoveChar(b, c)
    decreases |a|
  {
    if a == [] {
      assert a + b == b;
    } else {
      var head := if a[0] == c then [] else [a[0]];
      assert (a + b)[0] == a[0];
      assert (a + b)[1..] == a[1..] + b;
      RemoveCharAppend(a[1..], b, c);
      calc {
        RemoveChar(a + b, c);
        head + RemoveChar(a[1..] + b, c);
        head + (RemoveChar(a[1..], c) + RemoveChar(b, c));
        (head + RemoveChar(a[1..], c)) + RemoveChar(b, c);
      }
    }
  }

  /** A string without `c` is left as it is. */
  lemma {:induction false} RemoveCharAbsent(s: string, c: char)
    requires c !in s
    ensures RemoveChar(s, c) == s
    decreases |s|
  {
    if s != [] {
      RemoveCharAbsent(s[1..], c);
      assert [s[0]] + s[1..] == s;
    }
  }

  /** `s.replace(a, b)` for one-character arguments. */
  function ReplaceChar(s: string, a: char, b: char): (r: string)
    ensures |r| == |s|
    ensures forall k :: 0 <= k < |s| ==> r[k] == (if s[k] == a then b else s[k])
  {
    if s == [] then [] else [if s[0] == a then b else s[0]] + ReplaceChar(s[1..], a, b)
  }

  /** `s.split(c)` for a one-character separator: one more piece than there
      are separators, and no piece contains the separator. */
  function SplitOn(s: string, c: char): (r: seq<string>)
    ensures |r| == Count(s, c) + 1
    ensures forall k :: 0 <= k < |r| ==> c !in r[k]
  {
    if s == [] then [""]
    else
      var rest := SplitOn(s[1..], c);
      if s[0] == c then [""] + rest else [[s[0]] + rest[0]] + rest[1..]
  }

  /** `c.join(parts)` */
  function Join(parts: seq<string>, c: char): string
    requires |parts| >= 1
  {
    if |parts| == 1 then parts[0] else parts[0] + [c] + Join(parts[1..], c)
  }

  /** Prepending a character to the first piece prepends it to the join. */
  lemma JoinConsHead(x: char, parts: seq<string>, c: char)
    requires |parts| >= 1
    ensures Join([[x] + parts[0]] + parts[1..], c) == [x] + Join(parts, c)
  {
    var ps := [[x] + parts[0]] + parts[1..];
    if |parts| > 1 {
      assert ps[1..] == parts[1..];
    }
  }

  /** Joining the pieces of a split with the separator gives the string back. */
  lemma {:induction false} JoinSplitOn(s: string, c: char)
    ensures Join(SplitOn(s, c), c) == s
  {
    if s != [] {
      var rest := SplitOn(s[1..], c);
      JoinSplitOn(s[1..], c);
      assert Join(rest, c) == s[1..];
      if s[0] != c {
        assert SplitOn(s, c) == [[s[0]] + rest[0]] + rest[1..];
        JoinConsHead(s[0], rest, c);
      } else {
        var r := [""] + rest;
        assert SplitOn(s, c) == r;
        assert r[1..] == rest;
        assert Join(r, c) == "" + [c] + Join(rest, c);
      }
      assert s == [s[0]] + s[1..];
    }
  }

  /** Stripping twice is stripping once. */
  lemma TrimIdempotent(s: string, cs: set<char>)
    ensures Trim(Trim(s, cs), cs) == Trim(s, cs)
  {
    TrimFacts(s, cs);
  }
}
