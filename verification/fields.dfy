/**
 * The two helpers that turn a JSON object into an item's fields: `cleanTitle`, which
 * tidies a title for display, and `pickString`, which reads the first usable value
 * among alias keys.
 */
module Fields {
  import opened Wrappers
  import opened Text
  import opened JsonValue
  import opened Seqs

  /** The longest title kept whole. */
  const MaxTitle := 140

  /** The character that marks a shortened title. */
  const Ellipsis := '…'

  /** `cleanTitle(s)`: white space runs collapsed to one space, the ends trimmed, and
    * the result cut to `MaxTitle` characters followed by `…` when longer. */
  function CleanTitle(s: string): (r: string)
    ensures |r| <= MaxTitle + 1
  {
    var t := Trim(CollapseSpaces(s));
    if |t| > MaxTitle then t[..MaxTitle] + [Ellipsis] else t
  }

  /** A collapsed and trimmed title that fits is kept whole; a longer one keeps its
    * first `MaxTitle` characters and gains the ellipsis. */
  lemma CleanTitleCut(s: string)
    ensures var t := Trim(CollapseSpaces(s));
      && (|t| <= MaxTitle ==> CleanTitle(s) == t)
      && (|t| > MaxTitle ==>
            && |CleanTitle(s)| == MaxTitle + 1
            && CleanTitle(s)[..MaxTitle] == t[..MaxTitle]
            && CleanTitle(s)[MaxTitle] == Ellipsis)
  {
    var t := Trim(CollapseSpaces(s));
    if |t| > MaxTitle {
      var r := t[..MaxTitle] + [Ellipsis];
      assert r[..MaxTitle] == t[..MaxTitle];
    }
  }

  /** Neither starts nor ends with white space, holds no white space but the plain
    * space, and never two white space characters in a row. */
  predicate Tidy(r: string) {
    (r == [] || (!IsSpace(r[0]) && !IsSpace(r[|r| - 1]))) && SingleSpaced(r)
  }

  /** A cleaned title is tidy. */
  lemma CleanTitleTidy(s: string)
    ensures Tidy(CleanTitle(s))
  {
    var c := CollapseSpaces(s);
    var t := Trim(c);
    CollapseSpacesSingle(s);
    TrimSingle(c);
    if |t| > MaxTitle {
      ShortenedTidy(t, MaxTitle);
    }
  }

  /** Cutting a tidy string and marking the cut keeps it tidy. */
  lemma ShortenedTidy(t: string, n: nat)
    requires Tidy(t) && 0 < n <= |t|
    ensures Tidy(t[..n] + [Ellipsis])
  {
    var r := t[..n] + [Ellipsis];
    assert r[0] == t[0] && r[n] == Ellipsis;
    forall i | 0 <= i < |r| ensures !DoubleSpaceAt(r, i) {
      if i < n - 1 { assert r[i] == t[i] && r[i + 1] == t[i + 1] && !DoubleSpaceAt(t, i); }
    }
    forall i | 0 <= i < |r| ensures IsSpace(r[i]) ==> r[i] == ' ' {
      if i < n { assert r[i] == t[i]; }
    }
  }

  /** A title short enough to keep loses no character other than white space. */
  lemma CleanTitleKeepsText(s: string)
    requires |CleanTitle(s)| <= MaxTitle
    ensures NonSpace(CleanTitle(s)) == NonSpace(s)
  {
    var c := CollapseSpaces(s);
    CollapseSpacesKeepsText(s);
    TrimKeepsText(c);
  }

  /** A title that is not blank cleans to a non-empty one. */
  lemma CleanTitleNonEmpty(s: string)
    requires !IsBlank(s)
    ensures CleanTitle(s) != []
  {
    var c := CollapseSpaces(s);
    CollapseSpacesKeepsText(s);
    NonSpaceNotBlank(s);
    if IsBlank(c) {
      NonSpaceBlank(c);
    }
  }

  /** Cleaning a cleaned title changes nothing. */
  lemma CleanTitleIdempotent(s: string)
    ensures CleanTitle(CleanTitle(s)) == CleanTitle(s)
  {
    var r := CleanTitle(s);
    CleanTitleTidy(s);
    CollapseSpacesOfSingle(r);
    TrimOfTrimmed(r);
    CleanTitleCut(s);
    CleanTitleCut(r);
    if |r| > MaxTitle {
      assert r == r[..MaxTitle] + [Ellipsis];
    }
  }

  /** The value at `key` trimmed, when it is a string that is not blank. */
  function NonBlankAt(obj: Json, key: string): (r: Option<string>)
    ensures r.Some? <==> GetString(Some(obj), key).Some? && !IsBlank(GetString(Some(obj), key).value)
    ensures r.Some? ==> r.value == Trim(GetString(Some(obj), key).value) && r.value != []
  {
    var v := GetString(Some(obj), key);
    if v.Some? && !IsBlank(v.value) then Some(Trim(v.value)) else None
  }

  /** `pickString(obj, keys)`: the value at the first key whose value is a string
    * that is not blank, trimmed. */
  function PickString(obj: Json, keys: seq<string>): (r: Option<string>)
    ensures r.Some? ==> r.value != []
    ensures r.None? <==> forall i | 0 <= i < |keys| :: NonBlankAt(obj, keys[i]).None?
    ensures r.Some? ==> exists i | 0 <= i < |keys| ::
      && r == NonBlankAt(obj, keys[i])
      && forall j | 0 <= j < i :: NonBlankAt(obj, keys[j]).None?
  {
    var usable := (i: nat) => i < |keys| && NonBlankAt(obj, keys[i]).Some?;
    match FirstWhere(0, |keys|, usable)
    case None =>
      forall i | 0 <= i < |keys| ensures NonBlankAt(obj, keys[i]).None? {
        assert !usable(i);
      }
      None
    case Some(i) =>
      forall j | 0 <= j < i ensures NonBlankAt(obj, keys[j]).None? {
        assert !usable(j);
      }
      NonBlankAt(obj, keys[i])
  }
}
