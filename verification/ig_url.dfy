/**
 * Post links: canonical form (`normalizeIg`), absolute form (`coerceIgUrl`), the
 * first post link in free text (`extractFirstIgUrl`) and the post identity a link
 * names (`parseIg`).
 *
 * The two regular expressions are written out as scans: at each index a
 * deterministic check of the pattern's fixed parts (every choice in them is
 * decided by the next characters), then the longest run of allowed characters;
 * the leftmost index that matches wins, as in `String.prototype.match`.
 */
module IgUrl {
  import opened Wrappers
  import opened Text
  import opened Seqs

  const Origin := "https://www.instagram.com"

  // ----- normalizeIg -----

  /** `u` trimmed, cut at its first `?`, and given a trailing `/` if it lacks one. */
  function NormalizeIg(u: string): (r: string)
    ensures r != [] && r[|r| - 1] == '/'
    ensures '?' !in r
    ensures !IsSpace(r[0])
  {
    var t := Trim(u);
    var url := BeforeFirst(t, '?');
    if EndsWith(url, "/") then url else url + "/"
  }

  /** Cutting at a character the string does not hold changes nothing. */
  lemma BeforeFirstAbsent(s: string, c: char)
    requires c !in s
    ensures BeforeFirst(s, c) == s
  {
  }

  /** Normalizing is idempotent. */
  lemma NormalizeIgIdempotent(u: string)
    ensures NormalizeIg(NormalizeIg(u)) == NormalizeIg(u)
  {
    var x := NormalizeIg(u);
    TrimOfTrimmed(x);
    BeforeFirstAbsent(x, '?');
    assert x[|x| - 1..] == "/";
  }

  /** The query string is dropped and the path kept: a link that is already
    * canonical, followed by `?` and a query, normalizes to the link. */
  lemma NormalizeIgDropsQuery(link: string, query: string)
    requires link != [] && !IsSpace(link[0]) && link[|link| - 1] == '/' && '?' !in link
    ensures NormalizeIg(link + "?" + query) == link
  {
    var u := link + "?" + query;
    Parts(link, "?", query);
    TrimKeepsPrefix(u, |link|);
    var t := Trim(u);
    Parts(link, "?", t[|link| + 1..]);
    BeforeFirstPrefix(link, t[|link|..], '?');
  }

  /** Cutting `s + t` at `c`, when `s` lacks `c` and `t` starts with it, gives `s`. */
  lemma {:induction false} BeforeFirstPrefix(s: string, t: string, c: char)
    requires c !in s && t != [] && t[0] == c
    ensures BeforeFirst(s + t, c) == s
  {
    if s != [] {
      BeforeFirstPrefix(s[1..], t, c);
      assert (s + t)[1..] == s[1..] + t;
    }
  }

  // ----- coerceIgUrl -----

  /** Starts with one of the three post-path prefixes. */
  predicate IsBarePostPath(s: string) {
    StartsWith(s, "p/") || StartsWith(s, "reel/") || StartsWith(s, "tv/")
  }

  /** `u` trimmed, made absolute when it is a root-relative path or a bare post path. */
  function CoerceIgUrl(u: string): string {
    var s := Trim(u);
    if s == [] then s
    else if s[0] == '/' then Origin + s
    else if IsBarePostPath(s) then Origin + "/" + s
    else s
  }

  /** Coercing trims its input, gives the empty string exactly for blank input, and
    * otherwise only ever puts the site's origin in front of the trimmed string: a
    * root-relative path gets the origin, a bare post path the origin and `/`, and
    * anything else comes back unchanged. */
  lemma CoerceIgUrlSpec(u: string)
    ensures var r, s := CoerceIgUrl(u), Trim(u);
      && (r == [] <==> IsBlank(u))
      && EndsWith(r, s)
      && (s != [] && s[0] == '/' ==> r == Origin + s && StartsWith(r, Origin))
      && (s != [] && s[0] != '/' && IsBarePostPath(s) ==> r == Origin + "/" + s && StartsWith(r, Origin + "/"))
      && (s == [] || (s[0] != '/' && !IsBarePostPath(s)) ==> r == s)
  {
    var s := Trim(u);
    if s == [] {
    } else if s[0] == '/' {
      Joined(Origin, s);
    } else if IsBarePostPath(s) {
      Joined(Origin + "/", s);
    } else {
      Joined([], s);
    }
  }

  /** A concatenation starts with its first part and ends with its second. */
  lemma Joined(p: string, s: string)
    ensures StartsWith(p + s, p) && EndsWith(p + s, s)
  {
    assert (p + s)[..|p|] == p && (p + s)[|p|..] == s;
  }

  // ----- Shared pieces of the two patterns -----

  /** `(p|reel|tv)\/` at `j`, ignoring case: the post type and the index after the `/`. */
  datatype PostType = P | Reel | Tv

  function TypeAt(s: string, j: nat): (r: Option<(PostType, nat)>)
    ensures r.Some? ==> j < r.value.1 <= |s|
  {
    if HasAtIgnoringCase(s, j, "p/") then Some((P, j + 2))
    else if HasAtIgnoringCase(s, j, "reel/") then Some((Reel, j + 5))
    else if HasAtIgnoringCase(s, j, "tv/") then Some((Tv, j + 3))
    else None
  }

  /** The lower-case name of a post type (`m[1].toLowerCase()`). */
  function TypeName(t: PostType): string {
    match t
    case P => "p"
    case Reel => "reel"
    case Tv => "tv"
  }

  /** The end of the longest run of characters satisfying `inSpan` from `k`. */
  function SpanEnd(s: string, k: nat, inSpan: char -> bool): (e: nat)
    requires k <= |s|
    ensures k <= e <= |s|
    decreases |s| - k
  {
    if k < |s| && inSpan(s[k]) then SpanEnd(s, k + 1, inSpan) else k
  }

  /** The run is the longest one: every character in it satisfies `inSpan`, and the
    * one after it, if any, does not. */
  lemma {:induction false} SpanEndSpec(s: string, k: nat, inSpan: char -> bool)
    requires k <= |s|
    ensures forall j | k <= j < SpanEnd(s, k, inSpan) :: inSpan(s[j])
    ensures SpanEnd(s, k, inSpan) == |s| || !inSpan(s[SpanEnd(s, k, inSpan)])
    decreases |s| - k
  {
    if k < |s| && inSpan(s[k]) {
      SpanEndSpec(s, k + 1, inSpan);
    }
  }

  // ----- extractFirstIgUrl -----

  /** A character of the link's final run: `[^ \n\r\t"]`. */
  predicate IsLinkChar(c: char) {
    c != ' ' && c != '\n' && c != '\r' && c != '\t' && c != '"'
  }

  /** `https?:\/\/(www\.)?instagram\.com\/(p|reel|tv)\/` at `i`, ignoring case: the
    * index after it. */
  function LinkPrefixEnd(s: string, i: nat): (r: Option<nat>)
    ensures r.Some? ==> i < r.value <= |s|
  {
    var k :=
      if HasAtIgnoringCase(s, i, "https://") then i + 8
      else if HasAtIgnoringCase(s, i, "http://") then i + 7
      else 0;
    if k == 0 then None
    else
      var m :=
        if HasAtIgnoringCase(s, k, "www.instagram.com/") then k + 18
        else if HasAtIgnoringCase(s, k, "instagram.com/") then k + 14
        else 0;
      if m == 0 then None
      else match TypeAt(s, m)
        case Some((_, e)) => Some(e)
        case None => None
  }

  /** The end of the post link that starts at `i`, if one does: the prefix followed
    * by the longest non-empty run of link characters. */
  function LinkEndAt(s: string, i: nat): (r: Option<nat>)
    ensures r.Some? ==> i < r.value <= |s|
  {
    match LinkPrefixEnd(s, i)
    case None => None
    case Some(k) =>
      var e := SpanEnd(s, k, IsLinkChar);
      if e == k then None else Some(e)
  }

  /** `extractFirstIgUrl(s)`: the leftmost post link in `s`, if there is one. */
  function ExtractFirstIgUrl(s: string): (r: Option<string>)
    ensures r.None? <==> forall i | 0 <= i <= |s| :: LinkEndAt(s, i).None?
    ensures r.Some? ==> exists i | 0 <= i <= |s| ::
      && LinkEndAt(s, i).Some? && r.value == s[i..LinkEndAt(s, i).value]
      && forall j | 0 <= j < i :: LinkEndAt(s, j).None?
  {
    var isStart := (i: nat) => LinkEndAt(s, i).Some?;
    match FirstWhere(0, |s| + 1, isStart)
    case None =>
      forall i | 0 <= i <= |s| ensures LinkEndAt(s, i).None? {
        assert !isStart(i);
      }
      None
    case Some(i) =>
      forall j | 0 <= j < i ensures LinkEndAt(s, j).None? {
        assert !isStart(j);
      }
      Some(s[i..LinkEndAt(s, i).value])
  }

  // ----- parseIg -----

  datatype PostRef = PostRef(kind: PostType, code: string)

  /** `parseIg` looks at `u` trimmed and cut at its first `?`. */
  function Clean(u: string): string {
    BeforeFirst(Trim(u), '?')
  }

  /** A character of a post code: `[^\/]`. */
  predicate IsCodeChar(c: char) {
    c != '/'
  }

  /** `instagram\.com\/(p|reel|tv)\/([^\/]+)` at `i`, ignoring case. */
  function PostRefAt(s: string, i: nat): (r: Option<PostRef>)
    ensures r.Some? ==> r.value.code != [] && '/' !in r.value.code
    ensures r.Some? ==> forall c | c in r.value.code :: c in s
  {
    if !HasAtIgnoringCase(s, i, "instagram.com/") then None
    else match TypeAt(s, i + 14)
      case None => None
      case Some((t, k)) =>
        var e := SpanEnd(s, k, IsCodeChar);
        if e == k then None
        else
          SpanEndSpec(s, k, IsCodeChar);
          assert forall j | 0 <= j < e - k :: s[k..e][j] == s[k + j];
          Some(PostRef(t, s[k..e]))
  }

  /** `parseIg(u)`: the post identity named by the leftmost post path in `u`'s part
    * before any query string. */
  function ParseIg(u: string): (r: Option<PostRef>)
    ensures r.Some? ==> r.value.code != [] && '/' !in r.value.code && '?' !in r.value.code
    ensures r.None? <==> forall i | 0 <= i <= |Clean(u)| :: PostRefAt(Clean(u), i).None?
    ensures r.Some? ==> exists i | 0 <= i <= |Clean(u)| ::
      && r == PostRefAt(Clean(u), i)
      && forall j | 0 <= j < i :: PostRefAt(Clean(u), j).None?
  {
    var s := Clean(u);
    var isStart := (i: nat) => PostRefAt(s, i).Some?;
    match FirstWhere(0, |s| + 1, isStart)
    case None =>
      forall i | 0 <= i <= |s| ensures PostRefAt(s, i).None? {
        assert !isStart(i);
      }
      None
    case Some(i) =>
      forall j | 0 <= j < i ensures PostRefAt(s, j).None? {
        assert !isStart(j);
      }
      PostRefAt(s, i)
  }

  /** The link the site uses for the post of type `t` with code `code`:
    * `https://www.instagram.com/<type>/<code>/`. */
  function PostLink(t: PostType, code: string): string {
    "https://www." + "instagram.com/" + (TypeName(t) + "/" + (code + "/"))
  }

  /** `parseIg` reads back the type and code of a post link, whatever query string
    * follows it. */
  lemma ParseIgPostLink(t: PostType, code: string, query: string)
    requires code != [] && '/' !in code && '?' !in code
    requires query == [] || query[0] == '?'
    ensures ParseIg(PostLink(t, code) + query) == Some(PostRef(t, code))
  {
    var link := PostLink(t, code);
    var u := link + query;
    PostLinkClean(t, code, query);
    PostRefAtLink(t, code);
    forall j | 0 <= j < 12 ensures PostRefAt(link, j).None? {
      PostLinkStart(t, code, j);
    }
    var r := ParseIg(u);
    assert r.Some? by {
      assert PostRefAt(Clean(u), 12).Some?;
    }
    var i :| 0 <= i <= |link| && r == PostRefAt(link, i) && forall j | 0 <= j < i :: PostRefAt(link, j).None?;
    assert i == 12;
  }

  /** The example `https://www.instagram.com/reel/XYZ/?a=b` names the reel `XYZ`. */
  lemma ParseIgExample()
    ensures ParseIg("https://www.instagram.com/reel/XYZ/?a=b") == Some(PostRef(Reel, "XYZ"))
  {
    assert "https://www.instagram.com/reel/XYZ/?a=b" == PostLink(Reel, "XYZ") + "?a=b";
    ParseIgPostLink(Reel, "XYZ", "?a=b");
  }

  /** White space after the query string is trimmed away with it:
    * `https://www.instagram.com/p/abc/?a= ` names the post `abc`. */
  lemma ParseIgTrailingSpaceExample()
    ensures ParseIg("https://www.instagram.com/p/abc/?a= ") == Some(PostRef(P, "abc"))
  {
    assert "https://www.instagram.com/p/abc/?a= " == PostLink(P, "abc") + "?a= ";
    ParseIgPostLink(P, "abc", "?a= ");
  }

  /** The part of a post link and its query that `parseIg` reads is the link. */
  lemma PostLinkClean(t: PostType, code: string, query: string)
    requires code != [] && '/' !in code && '?' !in code
    requires query == [] || query[0] == '?'
    ensures Clean(PostLink(t, code) + query) == PostLink(t, code)
  {
    var head, rest := "https://www." + "instagram.com/", TypeName(t) + "/" + (code + "/");
    assert head[0] == 'h' && '?' !in head;
    assert '?' !in TypeName(t);
    CleanOfLink(head + rest, query);
  }

  /** A link that neither starts with white space nor holds `?` and ends in `/`,
    * followed by nothing or by a query string, is read up to its query string. */
  lemma CleanOfLink(link: string, query: string)
    requires link != [] && !IsSpace(link[0]) && link[|link| - 1] == '/' && '?' !in link
    requires query == [] || query[0] == '?'
    ensures Clean(link + query) == link
  {
    if query == [] {
      assert link + query == link;
      TrimOfTrimmed(link);
      BeforeFirstAbsent(link, '?');
    } else {
      var u := link + query;
      assert u[..|link|] == link && u[|link|] == '?';
      TrimKeepsPrefix(u, |link|);
      var t := Trim(u);
      assert t == link + t[|link|..];
      BeforeFirstPrefix(link, t[|link|..], '?');
    }
  }


  /** None of the first twelve characters of a post link starts `instagram.com/`. */
  lemma PostLinkStart(t: PostType, code: string, j: nat)
    requires j < 12
    ensures PostRefAt(PostLink(t, code), j).None?
  {
    var scheme := "https://www.";
    var link := PostLink(t, code);
    Parts(scheme, "instagram.com/", TypeName(t) + "/" + (code + "/"));
    assert link[j] == scheme[j] && scheme[j] in scheme;
    assert 'i' !in scheme && 'I' !in scheme;
  }

  /** At index 12 a post link holds `instagram.com/`, its type and its code. */
  lemma PostRefAtLink(t: PostType, code: string)
    requires code != [] && '/' !in code
    ensures PostRefAt(PostLink(t, code), 12) == Some(PostRef(t, code))
  {
    var link := PostLink(t, code);
    Parts("https://www.", "instagram.com/", TypeName(t) + "/" + (code + "/"));
    HasAtExact(link, 12, "instagram.com/");
    PostRefAtPath(link, t, code);
  }

  /** A string that holds `instagram.com/`, a type, `/`, a code and `/` from index 12
    * names that post at index 12. */
  lemma PostRefAtPath(link: string, t: PostType, code: string)
    requires code != [] && '/' !in code
    requires HasAtIgnoringCase(link, 12, "instagram.com/")
    requires 26 <= |link| && link[26..] == TypeName(t) + "/" + (code + "/")
    ensures PostRefAt(link, 12) == Some(PostRef(t, code))
  {
    var k := 27 + |TypeName(t)|;
    TypeAtLink(link, t, code + "/");
    CodeRun(link, k, code);
    PostRefAtParts(link, 12, t, k, k + |code|);
  }

  /** The host, a type ending at `k` and a non-empty code run from `k` to `e`
    * name that post. */
  lemma PostRefAtParts(s: string, i: nat, t: PostType, k: nat, e: nat)
    requires HasAtIgnoringCase(s, i, "instagram.com/")
    requires TypeAt(s, i + 14) == Some((t, k))
    requires k < e <= |s| && SpanEnd(s, k, IsCodeChar) == e
    ensures PostRefAt(s, i) == Some(PostRef(t, s[k..e]))
  {
  }

  /** The code of a post link runs up to the `/` that follows it. */
  lemma CodeRun(link: string, k: nat, code: string)
    requires k <= |link| && link[k..] == code + "/" && '/' !in code
    ensures SpanEnd(link, k, IsCodeChar) == k + |code|
    ensures link[k..k + |code|] == code
  {
    var tail := code + "/";
    forall j | k <= j < k + |code| ensures IsCodeChar(link[j]) {
      assert link[j] == tail[j - k] == code[j - k];
    }
    assert link[k + |code|] == tail[|code|];
    SpanEndAt(link, k, k + |code|, IsCodeChar);
    assert link[k..k + |code|] == tail[..|code|];
  }

  /** A post link's type is read right after `instagram.com/`. */
  lemma TypeAtLink(link: string, t: PostType, tail: string)
    requires 26 <= |link| && link[26..] == TypeName(t) + "/" + tail
    ensures TypeAt(link, 26) == Some((t, 27 + |TypeName(t)|))
    ensures link[27 + |TypeName(t)|..] == tail
  {
    var n := |TypeName(t)|;
    var lit := TypeName(t) + "/";
    Parts(lit, tail, []);
    assert link[26..27 + n] == lit;
    assert link[27 + n..] == link[26..][1 + n..];
    HasAtExact(link, 26, lit);
    assert link[26] == lit[0];
    match t
    case P =>
      assert lit == "p/";
    case Reel =>
      assert lit == "reel/";
      assert !HasAtIgnoringCase(link, 26, "p/") by {
        assert LowerAscii(link[26..28][0]) != 'p';
      }
    case Tv =>
      assert lit == "tv/";
      assert !HasAtIgnoringCase(link, 26, "p/") by {
        assert LowerAscii(link[26..28][0]) != 'p';
      }
      assert !HasAtIgnoringCase(link, 26, "reel/") by {
        if 31 <= |link| { assert LowerAscii(link[26..31][0]) != 'r'; }
      }
  }

  /** The three parts of a concatenation are its slices. */
  lemma Parts<T>(a: seq<T>, b: seq<T>, c: seq<T>)
    ensures var s := a + b + c;
      && s[..|a|] == a
      && s[|a|..|a| + |b|] == b
      && s[|a| + |b|..] == c
  {
  }

  /** A literal occurs ignoring case where it occurs exactly. */
  lemma HasAtExact(s: string, i: nat, lit: string)
    requires i + |lit| <= |s| && s[i..i + |lit|] == lit
    ensures HasAtIgnoringCase(s, i, lit)
  {
    SameIgnoringCaseRefl(lit);
  }

  /** A string is equal to itself ignoring case. */
  lemma {:induction false} SameIgnoringCaseRefl(a: string)
    ensures SameIgnoringCase(a, a)
  {
    if a != [] {
      SameIgnoringCaseRefl(a[1..]);
    }
  }

  /** The run from `k` ends at `e` when every character before `e` satisfies
    * `inSpan` and the one at `e` does not. */
  lemma SpanEndAt(s: string, k: nat, e: nat, inSpan: char -> bool)
    requires k <= e < |s|
    requires forall j | k <= j < e :: inSpan(s[j])
    requires !inSpan(s[e])
    ensures SpanEnd(s, k, inSpan) == e
  {
    SpanEndSpec(s, k, inSpan);
  }
}
