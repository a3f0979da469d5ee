/**
 * The string primitives the parser leans on: JavaScript's white space, `trim`,
 * `split(c)[0]`, `split(c).pop()`, `includes`, `startsWith`/`endsWith`, the
 * `replace(/\s+/g, " ")` collapse, and comparisons that ignore ASCII case.
 *
 * Strings are sequences of Unicode scalar values. The source's strings are
 * sequences of UTF-16 code units; the two agree on text within the Basic
 * Multilingual Plane, where every character is one code unit.
 */
module Text {

  /** The characters JavaScript's `\s` and `String.prototype.trim` treat as white
    * space: the ECMAScript WhiteSpace and LineTerminator code points. */
  predicate IsSpace(c: char) {
    || c == '\t' || c == '\n' || c == '\U{000B}' || c == '\U{000C}' || c == '\r'
    || c == ' ' || c == '\U{00A0}' || c == '\U{1680}'
    || ('\U{2000}' <= c <= '\U{200A}')
    || c == '\U{2028}' || c == '\U{2029}' || c == '\U{202F}' || c == '\U{205F}'
    || c == '\U{3000}' || c == '\U{FEFF}'
  }

  /** Empty or white space only: what `!s.trim()` tests. */
  predicate IsBlank(s: string) {
    forall i | 0 <= i < |s| :: IsSpace(s[i])
  }

  /** The characters of `s` that are not white space, in order. */
  function NonSpace(s: string): string {
    if s == [] then []
    else (if IsSpace(s[0]) then [] else [s[0]]) + NonSpace(s[1..])
  }

  /** `s` with its leading white space removed. */
  function TrimStart(s: string): (r: string)
    ensures |r| <= |s|
    ensures r == [] || !IsSpace(r[0])
  {
    if s != [] && IsSpace(s[0]) then TrimStart(s[1..]) else s
  }

  /** Trimming the start removes a blank prefix and keeps the rest, so it keeps the
    * text. */
  lemma {:induction false} TrimStartSplit(s: string)
    ensures var r := TrimStart(s);
      && r == s[|s| - |r|..]
      && IsBlank(s[..|s| - |r|])
      && NonSpace(r) == NonSpace(s)
  {
    if s != [] && IsSpace(s[0]) {
      TrimStartSplit(s[1..]);
      var r := TrimStart(s);
      assert s[1..][|s| - 1 - |r|..] == s[|s| - |r|..];
      assert s[..|s| - |r|] == [s[0]] + s[1..][..|s| - 1 - |r|];
    } else {
      assert s[|s| - 0..] == [] && s[..|s| - |s|] == [];
    }
  }

  /** `s` with its trailing white space removed. */
  function TrimEnd(s: string): (r: string)
    ensures |r| <= |s| && r == s[..|r|]
    ensures IsBlank(s[|r|..])
    ensures r == [] || !IsSpace(r[|r| - 1])
  {
    if s != [] && IsSpace(s[|s| - 1]) then TrimEnd(s[..|s| - 1]) else s
  }

  /** JavaScript's `s.trim()`. */
  function Trim(s: string): (r: string)
    ensures r == [] || (!IsSpace(r[0]) && !IsSpace(r[|r| - 1]))
    ensures r == [] <==> IsBlank(s)
  {
    var t := TrimStart(s);
    var r := TrimEnd(t);
    TrimStartSplit(s);
    assert s[..|s| - 0] == s;
    assert r == [] ==> t[|r|..] == t;
    assert t != [] ==> t[0] == s[|s| - |t|];
    r
  }

  /** Trimming a string that neither starts nor ends with white space leaves it alone. */
  lemma TrimOfTrimmed(s: string)
    requires s == [] || (!IsSpace(s[0]) && !IsSpace(s[|s| - 1]))
    ensures Trim(s) == s
  {
  }

  /** Trimming a string that starts with a character other than white space keeps
    * a prefix of it, and keeps every character up to one that is not white space. */
  lemma TrimKeepsPrefix(u: string, n: nat)
    requires n < |u| && !IsSpace(u[0]) && !IsSpace(u[n])
    ensures n < |Trim(u)| && Trim(u) == u[..|Trim(u)|]
  {
    assert Trim(u) == TrimEnd(u);
  }

  /** The text of a concatenation is the text of its parts. */
  lemma {:induction false} NonSpaceAppend(a: string, b: string)
    ensures NonSpace(a + b) == NonSpace(a) + NonSpace(b)
  {
    if a != [] {
      NonSpaceAppend(a[1..], b);
      var h := if IsSpace(a[0]) then [] else [a[0]];
      assert (a + b)[0] == a[0] && (a + b)[1..] == a[1..] + b;
      assert NonSpace(a + b) == h + (NonSpace(a[1..]) + NonSpace(b));
      assert NonSpace(a) == h + NonSpace(a[1..]);
    } else {
      assert a + b == b;
    }
  }

  /** White space has no text. */
  lemma {:induction false} NonSpaceBlank(s: string)
    requires IsBlank(s)
    ensures NonSpace(s) == []
  {
    if s != [] { NonSpaceBlank(s[1..]); }
  }

  /** A string that is not blank has some text. */
  lemma {:induction false} NonSpaceNotBlank(s: string)
    requires !IsBlank(s)
    ensures NonSpace(s) != []
  {
    if IsSpace(s[0]) {
      assert !IsBlank(s[1..]) by {
        var i :| 0 <= i < |s| && !IsSpace(s[i]);
        assert s[1..][i - 1] == s[i];
      }
      NonSpaceNotBlank(s[1..]);
    }
  }

  /** Trimming removes white space only. */
  lemma TrimKeepsText(s: string)
    ensures NonSpace(Trim(s)) == NonSpace(s)
  {
    var t := TrimStart(s);
    var r := TrimEnd(t);
    TrimStartSplit(s);
    assert t == r + t[|r|..];
    NonSpaceAppend(r, t[|r|..]);
    NonSpaceBlank(t[|r|..]);
  }

  /** JavaScript's `s.startsWith(p)`. */
  predicate StartsWith(s: string, p: string) {
    |p| <= |s| && s[..|p|] == p
  }

  /** JavaScript's `s.endsWith(p)`. */
  predicate EndsWith(s: string, p: string) {
    |p| <= |s| && s[|s| - |p|..] == p
  }

  /** `p` occurs in `s` at index `i`. */
  predicate OccursAt(s: string, i: nat, p: string) {
    i + |p| <= |s| && s[i..i + |p|] == p
  }

  /** JavaScript's `s.includes(p)` (case-sensitive). */
  predicate Contains(s: string, p: string) {
    exists i: nat | i <= |s| :: OccursAt(s, i, p)
  }

  /** The ASCII lower-case of `c`; every other character is unchanged. */
  function LowerAscii(c: char): (r: char)
    ensures 'A' <= c <= 'Z' ==> 'a' <= r <= 'z'
    ensures !('A' <= c <= 'Z') ==> r == c
  {
    if 'A' <= c <= 'Z' then (c as int - 'A' as int + 'a' as int) as char else c
  }

  /** `a` and `b` are equal ignoring ASCII case. */
  predicate SameIgnoringCase(a: string, b: string) {
    |a| == |b| && (a == [] || (LowerAscii(a[0]) == LowerAscii(b[0]) && SameIgnoringCase(a[1..], b[1..])))
  }

  /** `lit` occurs in `s` at index `i`, ignoring ASCII case: a match of a
    * literal in a regular expression with the `i` flag. */
  predicate HasAtIgnoringCase(s: string, i: nat, lit: string) {
    i + |lit| <= |s| && SameIgnoringCase(s[i..i + |lit|], lit)
  }

  /** `s` and `lit` are equal ignoring ASCII case (`s.toLowerCase() === lit` for the
    * lower-case ASCII literals the parser compares against). */
  predicate EqualsIgnoringCase(s: string, lit: string) {
    |s| == |lit| && HasAtIgnoringCase(s, 0, lit)
  }

  /** `/lit$/i.test(s)`. */
  predicate EndsWithIgnoringCase(s: string, lit: string) {
    |lit| <= |s| && HasAtIgnoringCase(s, |s| - |lit|, lit)
  }

  /** `/lit/i.test(s)`. */
  predicate ContainsIgnoringCase(s: string, lit: string) {
    exists i: nat | i <= |s| :: HasAtIgnoringCase(s, i, lit)
  }

  /** `s.split(c)[0]`: the part of `s` before the first `c`. */
  function BeforeFirst(s: string, c: char): (r: string)
    ensures |r| <= |s| && r == s[..|r|]
    ensures c !in r
    ensures |r| < |s| ==> s[|r|] == c
  {
    if s == [] || s[0] == c then [] else [s[0]] + BeforeFirst(s[1..], c)
  }

  /** `s.split(c).pop()`: the part of `s` after the last `c`. */
  function AfterLast(s: string, c: char): (r: string)
    ensures |r| <= |s|
    ensures c !in r
  {
    if s == [] || s[|s| - 1] == c then [] else AfterLast(s[..|s| - 1], c) + [s[|s| - 1]]
  }

  /** The part after the last `c` is a suffix of `s`, preceded by `c` when it is not
    * all of `s`. */
  lemma {:induction false} AfterLastSuffix(s: string, c: char)
    ensures var r := AfterLast(s, c);
      && r == s[|s| - |r|..]
      && (|r| < |s| ==> s[|s| - |r| - 1] == c)
  {
    if s != [] && s[|s| - 1] != c {
      var init := s[..|s| - 1];
      AfterLastSuffix(init, c);
      var r0 := AfterLast(init, c);
      SuffixSnoc(s, |s| - |r0| - 1);
    }
  }

  /** A suffix of all but the last element, with the last element put back. */
  lemma SuffixSnoc<T>(s: seq<T>, k: nat)
    requires k < |s|
    ensures s[..|s| - 1][k..] + [s[|s| - 1]] == s[k..]
  {
  }

  /** `s.replace(/\s+/g, " ")`: every maximal run of white space becomes one space. */
  function CollapseSpaces(s: string): (r: string)
    ensures |r| <= |s| && (r == [] <==> s == [])
    ensures r != [] ==> (IsSpace(r[0]) <==> IsSpace(s[0]))
    decreases |s|
  {
    if s == [] then []
    else if IsSpace(s[0]) then
      var rest := TrimStart(s);
      if rest == [] then " " else " " + CollapseSpaces(rest)
    else [s[0]] + CollapseSpaces(s[1..])
  }

  /** The collapsed string ends in white space exactly when `s` does. */
  lemma {:induction false} CollapseSpacesLast(s: string)
    ensures CollapseSpaces(s) != [] ==>
      (IsSpace(CollapseSpaces(s)[|CollapseSpaces(s)| - 1]) <==> IsSpace(s[|s| - 1]))
    decreases |s|
  {
    if s != [] && IsSpace(s[0]) {
      var rest := TrimStart(s);
      TrimStartSplit(s);
      if rest != [] {
        CollapseSpacesLast(rest);
        assert rest[|rest| - 1] == s[|s| - 1];
      }
    } else if s != [] {
      CollapseSpacesLast(s[1..]);
    }
  }

  /** The only white space character in `s` is the plain space, and no two white
    * space characters are adjacent. */
  predicate SingleSpaced(s: string) {
    && (forall i | 0 <= i < |s| :: IsSpace(s[i]) ==> s[i] == ' ')
    && (forall i | 0 <= i < |s| :: !DoubleSpaceAt(s, i))
  }

  /** White space at `i` and at `i + 1`. */
  predicate DoubleSpaceAt(s: string, i: nat) {
    i + 1 < |s| && IsSpace(s[i]) && IsSpace(s[i + 1])
  }

  /** Collapsing leaves a single-spaced string. */
  lemma {:induction false} CollapseSpacesSingle(s: string)
    ensures SingleSpaced(CollapseSpaces(s))
    decreases |s|
  {
    if s == [] {
    } else if IsSpace(s[0]) {
      var rest := TrimStart(s);
      if rest != [] {
        CollapseSpacesSingle(rest);
        var c := CollapseSpaces(rest);
        var r := " " + c;
        assert r == CollapseSpaces(s);
        assert !IsSpace(c[0]);
        forall i | 0 <= i < |r| ensures IsSpace(r[i]) ==> r[i] == ' ' {
          if i > 0 { assert r[i] == c[i - 1]; }
        }
        forall i | 0 <= i < |r| ensures !DoubleSpaceAt(r, i) {
          if 0 < i && i + 1 < |r| {
            assert r[i] == c[i - 1] && r[i + 1] == c[i] && !DoubleSpaceAt(c, i - 1);
          }
        }
      }
    } else {
      CollapseSpacesSingle(s[1..]);
      var c := CollapseSpaces(s[1..]);
      var r := [s[0]] + c;
      assert r == CollapseSpaces(s);
      forall i | 0 <= i < |r| ensures IsSpace(r[i]) ==> r[i] == ' ' {
        if i > 0 { assert r[i] == c[i - 1]; }
      }
      forall i | 0 <= i < |r| ensures !DoubleSpaceAt(r, i) {
        if 0 < i && i + 1 < |r| {
          assert r[i] == c[i - 1] && r[i + 1] == c[i] && !DoubleSpaceAt(c, i - 1);
        }
      }
    }
  }

  /** A single-spaced string has nothing to collapse. */
  lemma {:induction false} CollapseSpacesOfSingle(s: string)
    requires SingleSpaced(s)
    ensures CollapseSpaces(s) == s
    decreases |s|
  {
    if s != [] {
      var tail := s[1..];
      assert SingleSpaced(tail) by { SingleSpacedSlice(s, 1, |s|); assert s[1..|s|] == tail; }
      assert s == [s[0]] + tail;
      if IsSpace(s[0]) {
        assert s[0] == ' ' by { assert IsSpace(s[0]) ==> s[0] == ' '; }
        if tail != [] {
          assert !DoubleSpaceAt(s, 0);
          assert TrimStart(s) == tail;
          CollapseSpacesOfSingle(tail);
        }
      } else {
        CollapseSpacesOfSingle(tail);
      }
    }
  }

  /** Cutting a single-spaced string keeps it single-spaced. */
  lemma SingleSpacedSlice(s: string, i: nat, j: nat)
    requires SingleSpaced(s) && i <= j <= |s|
    ensures SingleSpaced(s[i..j])
  {
    forall k | 0 <= k < j - i ensures !DoubleSpaceAt(s[i..j], k) {
      assert !DoubleSpaceAt(s, i + k);
      if k + 1 < j - i { assert s[i..j][k] == s[i + k] && s[i..j][k + 1] == s[i + k + 1]; }
    }
  }

  /** Trimming a single-spaced string keeps it single-spaced. */
  lemma TrimSingle(s: string)
    requires SingleSpaced(s)
    ensures SingleSpaced(Trim(s))
  {
    var t := TrimStart(s);
    var r := TrimEnd(t);
    assert Trim(s) == r;
    TrimStartSplit(s);
    SingleSpacedSlice(s, |s| - |t|, |s|);
    assert s[|s| - |t|..|s|] == t;
    SingleSpacedSlice(t, 0, |r|);
    assert t[0..|r|] == r;
  }

  /** Collapsing never adds, drops or reorders a character that is not white space. */
  lemma {:induction false} CollapseSpacesKeepsText(s: string)
    ensures NonSpace(CollapseSpaces(s)) == NonSpace(s)
    decreases |s|
  {
    if s == [] {
    } else if IsSpace(s[0]) {
      var rest := TrimStart(s);
      TrimStartSplit(s);
      if rest != [] {
        CollapseSpacesKeepsText(rest);
        var c := CollapseSpaces(rest);
        assert (" " + c)[1..] == c;
        assert NonSpace(" " + c) == NonSpace(c);
      }
    } else {
      CollapseSpacesKeepsText(s[1..]);
      var c := CollapseSpaces(s[1..]);
      assert ([s[0]] + c)[1..] == c;
      assert NonSpace([s[0]] + c) == [s[0]] + NonSpace(c);
    }
  }
}
