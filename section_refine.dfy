/**
 * Cleaning up the extracted sections: `refine_extracted_sections` (the
 * title taken off the front, sections that are too short emptied, a
 * numbered heading taken off the front) and `remove_title_from_text`
 * (everything up to and including the first occurrence of the title
 * without its numbering dropped).
 */
module SectionRefine {
  import opened Results
  import opened Text
  import opened OrderedDict

  // ---------------------------------------------------------------------
  // Numbers in titles and texts
  // ---------------------------------------------------------------------

  predicate IsSeparator(c: char) { c == '.' || IsSpace(c) }

  /** End of the run of dots and whitespace that starts at `i` (the regex `[\.\s]*`). */
  function SeparatorsEnd(s: string, i: nat): (e: nat)
    requires i <= |s|
    ensures i <= e <= |s|
    decreases |s| - i
  {
    if i < |s| && IsSeparator(s[i]) then SeparatorsEnd(s, i + 1) else i
  }

  /**
   * `re.sub(r"\d+[\.\s]*", "", s[i:])`: every number is deleted together
   * with the dots and whitespace that follow it.
   */
  function DeleteNumbers(s: string, i: nat): (r: string)
    requires i <= |s|
    ensures |r| <= |s| - i
    decreases |s| - i
  {
    if i == |s| then ""
    else if IsDigit(s[i]) then DeleteNumbers(s, SeparatorsEnd(s, DigitsEnd(s, i)))
    else [s[i]] + DeleteNumbers(s, i + 1)
  }

  /** No digit survives the deletion. */
  lemma {:induction false} DeleteNumbersNoDigits(s: string, i: nat)
    requires i <= |s|
    ensures forall k :: 0 <= k < |DeleteNumbers(s, i)| ==> !IsDigit(DeleteNumbers(s, i)[k])
    decreases |s| - i
  {
    if i < |s| {
      if IsDigit(s[i]) {
        DeleteNumbersNoDigits(s, SeparatorsEnd(s, DigitsEnd(s, i)));
      } else {
        DeleteNumbersNoDigits(s, i + 1);
      }
    }
  }

  /** A text without digits is left as it is. */
  lemma {:induction false} DeleteNumbersWithoutDigits(s: string, i: nat)
    requires i <= |s| && forall k :: i <= k < |s| ==> !IsDigit(s[k])
    ensures DeleteNumbers(s, i) == s[i..]
    decreases |s| - i
  {
    if i < |s| {
      DeleteNumbersWithoutDigits(s, i + 1);
      assert s[i..] == [s[i]] + s[i + 1..];
    }
  }

  /** Deleting the numbers twice deletes nothing more. */
  lemma DeleteNumbersIdempotent(s: string)
    ensures DeleteNumbers(DeleteNumbers(s, 0), 0) == DeleteNumbers(s, 0)
  {
    var r := DeleteNumbers(s, 0);
    DeleteNumbersNoDigits(s, 0);
    DeleteNumbersWithoutDigits(r, 0);
  }

  /** The last dot before index `j`, searching down. */
  function LastDotBelow(s: string, j: nat): (r: Option<nat>)
    requires j <= |s|
    ensures r.Some? ==> r.value < j && s[r.value] == '.' && forall k :: r.value < k < j ==> s[k] != '.'
    ensures r.None? ==> forall k :: 0 <= k < j ==> s[k] != '.'
    decreases j
  {
    if j == 0 then None else if s[j - 1] == '.' then Some(j - 1) else LastDotBelow(s, j - 1)
  }

  /**
   * End of the match of `^(\d+(\.\d+)*\.)`: the greedy numbering followed
   * by a dot, or, backtracking, the numbering cut at its last inner dot.
   */
  function NumberingMatch(s: string): (r: Option<nat>)
  {
    if s == [] || !IsDigit(s[0]) then None
    else
      var e := ChainEnd(s, 0);
      if e < |s| && s[e] == '.' then Some(e + 1)
      else match LastDotBelow(s, e)
        case None => None
        case Some(d) => Some(d + 1)
  }

  /** A dot inside a numbering ends a shorter numbering. */
  lemma ChainAtInnerDot(s: string, e: nat, d: nat)
    requires ChainAt(s, 0, e) && 0 <= d < e && s[d] == '.'
    ensures ChainAt(s, 0, d)
  {
    assert d > 0;
  }

  /**
   * The match is a numbering followed by a dot, and it is the longest one:
   * every numbering at the start of `s` that is followed by a dot ends
   * within it.
   */
  lemma NumberingMatchSpec(s: string)
    ensures var r := NumberingMatch(s);
      r.Some? ==> 2 <= r.value <= |s| && s[r.value - 1] == '.' && ChainAt(s, 0, r.value - 1)
    ensures forall x: nat :: ChainAt(s, 0, x) && x < |s| && s[x] == '.' ==>
      NumberingMatch(s).Some? && x + 1 <= NumberingMatch(s).value
  {
    if s != [] && IsDigit(s[0]) {
      var e := ChainEnd(s, 0);
      ChainEndIsChain(s, 0);
      var l := LastDotBelow(s, e);
      if !(e < |s| && s[e] == '.') && l.Some? {
        ChainAtInnerDot(s, e, l.value);
      }
      forall x: nat | ChainAt(s, 0, x) && x < |s| && s[x] == '.'
        ensures NumberingMatch(s).Some? && x + 1 <= NumberingMatch(s).value
      {
        ChainAtWithin(s, 0, x);
      }
    }
  }

  // ---------------------------------------------------------------------
  // refine_extracted_sections
  // ---------------------------------------------------------------------

  /** Sections whose text, numbers deleted, is at most this long are emptied. */
  const MaxShortLength := 50

  /** Step 1: the title taken off the front of the text. */
  function WithoutTitle(title: string, text: string): string
  {
    if title <= text then Strip(text[|title|..]) else text
  }

  /** The numbered heading a section may start with: the numbering, a space, and the title without numbers. */
  function ExpectedStart(title: string, m: nat): string
    requires m <= |title|
  {
    title[..m] + " " + Strip(DeleteNumbers(title, 0))
  }

  /** The refined text of one section. */
  function RefineText(title: string, text: string): string
  {
    var t1 := WithoutTitle(title, text);
    var t2 := if |Strip(DeleteNumbers(t1, 0))| <= MaxShortLength then "" else t1;
    match NumberingMatch(title)
    case None => t2
    case Some(m) =>
      var expected := ExpectedStart(title, m);
      if expected <= t2 then Strip(t2[|expected|..]) else t2
  }

  /** Stripping never lengthens. */
  lemma StripShorter(s: string)
    ensures |Strip(s)| <= |s|
  {
    StripSpec(s);
  }

  /** A text of at most 50 characters is emptied. */
  lemma RefineShort(title: string, text: string)
    requires |text| <= MaxShortLength
    ensures RefineText(title, text) == ""
  {
    var t1 := WithoutTitle(title, text);
    if title <= text {
      StripShorter(text[|title|..]);
    }
    StripShorter(DeleteNumbers(t1, 0));
    NumberingMatchSpec(title);
  }

  /** A section survives only if, after its title is taken off and its numbers deleted, more than 50 characters remain. */
  lemma RefineKeepsLong(title: string, text: string)
    requires RefineText(title, text) != ""
    ensures |Strip(DeleteNumbers(WithoutTitle(title, text), 0))| > MaxShortLength
  {
    NumberingMatchSpec(title);
  }

  /** Step 1 keeps a contiguous piece of the text. */
  lemma WithoutTitleIsPiece(title: string, text: string) returns (a: nat, b: nat)
    ensures a <= b <= |text| && WithoutTitle(title, text) == text[a..b]
  {
    if title <= text {
      assert text[|title|..] == text[|title|..|text|];
      a, b := StripInfix(text, |title|, |text|);
    } else {
      a, b := 0, |text|;
    }
  }

  /** The refined text is a contiguous piece of the section text. */
  lemma RefineIsPiece(title: string, text: string) returns (a: nat, b: nat)
    ensures a <= b <= |text| && RefineText(title, text) == text[a..b]
  {
    var lo, hi := WithoutTitleIsPiece(title, text);
    var t1 := WithoutTitle(title, text);
    if |Strip(DeleteNumbers(t1, 0))| <= MaxShortLength {
      NumberingMatchSpec(title);
      a, b := 0, 0;
    } else if NumberingMatch(title).Some? && ExpectedStart(title, NumberingMatch(title).value) <= t1 {
      a, b := HeadingCutIsPiece(title, text, lo, hi);
    } else {
      a, b := lo, hi;
    }
  }

  /** Step 3 applied to a long text keeps a contiguous piece of it. */
  lemma HeadingCutIsPiece(title: string, text: string, lo: nat, hi: nat) returns (a: nat, b: nat)
    requires lo <= hi <= |text| && WithoutTitle(title, text) == text[lo..hi]
    requires |Strip(DeleteNumbers(WithoutTitle(title, text), 0))| > MaxShortLength
    requires NumberingMatch(title).Some? && ExpectedStart(title, NumberingMatch(title).value) <= WithoutTitle(title, text)
    ensures a <= b <= |text| && RefineText(title, text) == text[a..b]
  {
    var t1 := WithoutTitle(title, text);
    var expected := ExpectedStart(title, NumberingMatch(title).value);
    assert RefineText(title, text) == Strip(t1[|expected|..]);
    var p := lo + |expected|;
    assert t1[|expected|..] == text[p..hi];
    a, b := StripInfix(text, p, hi);
  }

  /** A long section that starts with its unnumbered title loses the title and the whitespace after it. */
  lemma RefineDropsTitle(title: string, body: string)
    requires NumberingMatch(title).None?
    requires |Strip(DeleteNumbers(Strip(body), 0))| > MaxShortLength
    ensures RefineText(title, title + body) == Strip(body)
  {
    assert (title + body)[|title|..] == body;
  }

  /** A long section that starts with "<numbering> <title without numbers>" loses that heading. */
  lemma RefineDropsNumberedHeading(title: string, m: nat, body: string)
    requires NumberingMatch(title) == Some(m)
    requires !(title <= ExpectedStart(title, m) + body)
    requires |Strip(DeleteNumbers(ExpectedStart(title, m) + body, 0))| > MaxShortLength
    ensures RefineText(title, ExpectedStart(title, m) + body) == Strip(body)
  {
    NumberingMatchSpec(title);
    var expected := ExpectedStart(title, m);
    assert (expected + body)[|expected|..] == body;
  }

  /**
   * `refine_extracted_sections`: every section refined, under the same
   * title and in the same order.
   */
  method RefineSections(d: Dict<string>) returns (r: Dict<string>)
    requires UniqueKeys(d)
    ensures |r| == |d| && forall i :: 0 <= i < |d| ==> r[i] == (d[i].0, RefineText(d[i].0, d[i].1))
    ensures Keys(r) == Keys(d)
  {
    ghost var ps := UpdateValues(d, RefineText);
    r := [];
    for i := 0 to |d|
      invariant r == FromPairs(ps[..i])
    {
      var (title, text) := d[i];
      r := Put(r, title, RefineText(title, text));
      FromPairsStep(ps, i);
    }
    assert ps[..|d|] == ps;
    UpdateValuesRebuilt(d, RefineText);
  }

  // ---------------------------------------------------------------------
  // remove_title_from_text
  // ---------------------------------------------------------------------

  /** `remove_numbering`: `re.sub(r'^\d+(\.\d+)*\.\s*', '', title).strip()` */
  function RemoveNumbering(title: string): string
  {
    match NumberingMatch(title)
    case None => Strip(title)
    case Some(m) => Strip(title[SpaceEnd(title, m)..])
  }

  /** Taking the numbering off "<numbering>. <text>" gives back the text. */
  lemma RemoveNumberingRoundTrip(n: string, x: string)
    requires ChainAt(n, 0, |n|)
    requires x == [] || (!IsSpace(x[0]) && !IsSpace(x[|x| - 1]))
    ensures RemoveNumbering(n + ". " + x) == x
  {
    var t := n + ". " + x;
    assert ChainAt(t, 0, |n|);
    ChainEndUnique(t, 0, |n|);
    assert NumberingMatch(t) == Some(|n| + 1);
    assert SpaceEnd(t, |n| + 1) == |n| + 2;
    assert t[|n| + 2..] == x;
    StripTrimmed(x);
  }

  /** A title that does not start with a digit is only stripped. */
  lemma RemoveNumberingUnnumbered(title: string)
    requires title == [] || !IsDigit(title[0])
    ensures RemoveNumbering(title) == Strip(title)
  {
  }

  /** `find_and_remove` as a value: the text after the first occurrence of `title`, left-stripped; the text itself when there is none. */
  function AfterFirst(text: string, title: string): string
  {
    var k := Find(text, title);
    if k == -1 then text else LStrip(text[k + |title|..])
  }

  /** `find_and_remove`: the character-by-character scan for the first occurrence. */
  method FindAndRemove(text: string, title: string) returns (r: string)
    ensures r == AfterFirst(text, title)
  {
    var i := 0;
    while i < |text| - |title| + 1
      invariant 0 <= i
      invariant NotBefore(text, title, i)
      decreases |text| - |title| + 1 - i
    {
      if text[i..i + |title|] == title {
        AfterFirstAt(text, title, i);
        return LStrip(text[i + |title|..]);
      }
      i := i + 1;
    }
    AfterFirstNone(text, title);
    return text;
  }

  lemma AfterFirstAt(text: string, title: string, i: nat)
    requires OccursAt(text, title, i) && NotBefore(text, title, i)
    ensures AfterFirst(text, title) == LStrip(text[i + |title|..])
  {
    FindFirst(text, title, i);
  }

  lemma AfterFirstNone(text: string, title: string)
    requires NotBefore(text, title, |text| - |title| + 1)
    ensures AfterFirst(text, title) == text
  {
    FindNone(text, title);
  }

  /** The text after the first occurrence of the title, when the title does not occur earlier. */
  lemma AfterFirstRoundTrip(before: string, title: string, after: string)
    requires forall k :: 0 <= k < |before| ==> !OccursAt(before + title + after, title, k)
    ensures AfterFirst(before + title + after, title) == LStrip(after)
  {
    var t := before + title + after;
    assert t[|before|..|before| + |title|] == title;
    assert OccursAt(t, title, |before|);
    assert Find(t, title) == |before|;
    assert t[|before| + |title|..] == after;
  }

  /**
   * The result is what follows the first occurrence of the title, without
   * the whitespace in between; no occurrence, no change.
   */
  lemma AfterFirstSpec(text: string, title: string)
    ensures var k := Find(text, title);
      k != -1 ==> exists j :: && k + |title| <= j <= |text| && AfterFirst(text, title) == text[j..]
                              && forall i :: k + |title| <= i < j ==> IsSpace(text[i])
    ensures (forall k :: !OccursAt(text, title, k)) ==> AfterFirst(text, title) == text
  {
    var k := Find(text, title);
    if k != -1 {
      var s := text[k + |title|..];
      var j := k + |title| + (|s| - |LStrip(s)|);
      assert LStrip(s) == s[|s| - |LStrip(s)|..];
      assert text[j..] == s[|s| - |LStrip(s)|..];
      forall i | k + |title| <= i < j ensures IsSpace(text[i]) {
        assert text[i] == s[i - k - |title|];
      }
    }
  }

  /** The text kept for a title: everything after its numbering-stripped form. */
  function TitleRemoved(title: string, text: string): string
  {
    AfterFirst(text, RemoveNumbering(title))
  }

  /**
   * `remove_title_from_text`: every text cut after the first occurrence of
   * its numbering-stripped title, under the same title and in the same order.
   */
  method RemoveTitleFromText(d: Dict<string>) returns (r: Dict<string>)
    requires UniqueKeys(d)
    ensures |r| == |d| && forall i :: 0 <= i < |d| ==> r[i] == (d[i].0, TitleRemoved(d[i].0, d[i].1))
    ensures Keys(r) == Keys(d)
  {
    ghost var ps := UpdateValues(d, TitleRemoved);
    r := [];
    for i := 0 to |d|
      invariant r == FromPairs(ps[..i])
    {
      var (title, text) := d[i];
      var cleanTitle := RemoveNumbering(title);
      var updated := FindAndRemove(text, cleanTitle);
      r := Put(r, title, updated);
      FromPairsStep(ps, i);
    }
    assert ps[..|d|] == ps;
    UpdateValuesRebuilt(d, TitleRemoved);
  }
}
