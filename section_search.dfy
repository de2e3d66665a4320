/**
 * Cutting each section out of the text gathered for its title
 * (`extract_sections_from_processed_text`). The title becomes a search key
 * according to the depth of its numbering, the key is looked up in the
 * text, and the section runs up to where the next title's key occurs.
 */
module SectionSearch {
  import opened Results
  import opened Text
  import opened OrderedDict

  // ---------------------------------------------------------------------
  // The numbering patterns matched against a title
  // ---------------------------------------------------------------------

  /** End of a group `\d+\.` at `i`: a run of digits and the dot that follows it. */
  function DotGroup(s: string, i: nat): (r: Option<nat>)
    requires i <= |s|
    ensures r.Some? ==> i + 2 <= r.value <= |s| && s[r.value - 1] == '.'
    ensures r.Some? ==> forall k :: i <= k < r.value - 1 ==> IsDigit(s[k])
    ensures r.None? ==> i == DigitsEnd(s, i) || DigitsEnd(s, i) == |s| || s[DigitsEnd(s, i)] != '.'
  {
    var d := DigitsEnd(s, i);
    if i < d < |s| && s[d] == '.' then Some(d + 1) else None
  }

  /** A run of digits followed by a dot is a group. */
  lemma DotGroupAt(s: string, i: nat, e: nat)
    requires i < e < |s| && s[e] == '.' && forall k :: i <= k < e ==> IsDigit(s[k])
    ensures DotGroup(s, i) == Some(e + 1)
  {
    assert DigitsEnd(s, i) == e;
  }

  /** End of `n` groups `\d+\.` in a row from the start of `s`. */
  function Groups(s: string, n: nat): (r: Option<nat>)
    ensures r.Some? ==> 2 * n <= r.value <= |s|
  {
    if n == 0 then Some(0)
    else match Groups(s, n - 1)
      case None => None
      case Some(e) => DotGroup(s, e)
  }

  /** `re.match(r"^\d+\.\d+\.\d+\.\s+.+", t)` */
  predicate SpacedThreeLevel(t: string)
  {
    match Groups(t, 3)
    case None => false
    case Some(c) => c < |t| && IsSpace(t[c]) && HasLineCharFrom(t, c + 1)
  }

  /** `re.match(r"^\d+\.\d+\.\d+\..+", t)` */
  predicate ThreeLevel(t: string)
  {
    match Groups(t, 3)
    case None => false
    case Some(c) => c < |t| && t[c] != '\n'
  }

  /** `re.match(r"^\d+\.\d+\..+", t)` */
  predicate TwoLevel(t: string)
  {
    match Groups(t, 2)
    case None => false
    case Some(b) => b < |t| && t[b] != '\n'
  }

  /** `re.match(r"^\d+\..+", t)` */
  predicate OneLevel(t: string)
  {
    match Groups(t, 1)
    case None => false
    case Some(a) => a < |t| && t[a] != '\n'
  }

  /** `re.match(r"^\d+\.\s*.+", t)` */
  predicate OneLevelLoose(t: string)
  {
    match Groups(t, 1)
    case None => false
    case Some(a) => HasLineCharFrom(t, a)
  }

  /** `re.sub(r"^\d+\.\s*", "", t)`: the leading group and the whitespace after it removed. */
  function DropLeadingNumber(t: string): (r: string)
    ensures |r| <= |t| && r == t[|t| - |r|..]
  {
    match Groups(t, 1)
    case None => t
    case Some(a) => t[SpaceEnd(t, a)..]
  }

  /** End of the greedy match of `(\d+\.){2,3}` at `i`: three groups when there are three, else two. */
  function GroupRun(s: string, i: nat): (r: Option<nat>)
    requires i <= |s|
    ensures r.Some? ==> i < r.value <= |s|
  {
    match DotGroup(s, i)
    case None => None
    case Some(a) =>
      match DotGroup(s, a)
      case None => None
      case Some(b) =>
        match DotGroup(s, b)
        case Some(c) => Some(c)
        case None => Some(b)
  }

  /**
   * `re.sub(r"((\d+\.){2,3})", r"\1 ", s[i:])`: scanning left to right, a
   * space is inserted after every run of two or three groups.
   */
  function SpaceAfterGroups(s: string, i: nat): string
    requires i <= |s|
    decreases |s| - i
  {
    if i == |s| then ""
    else match GroupRun(s, i)
      case Some(e) => s[i..e] + " " + SpaceAfterGroups(s, e)
      case None => [s[i]] + SpaceAfterGroups(s, i + 1)
  }

  /** Where no digit is left, nothing is inserted. */
  lemma {:induction false} SpaceAfterNoDigits(s: string, i: nat)
    requires i <= |s| && forall k :: i <= k < |s| ==> !IsDigit(s[k])
    ensures SpaceAfterGroups(s, i) == s[i..]
    decreases |s| - i
  {
    if i < |s| {
      SpaceAfterNoDigits(s, i + 1);
      assert s[i..] == [s[i]] + s[i + 1..];
    }
  }

  /** The search key for a title, chosen by the depth of its numbering. */
  function ModifiedTitle(t: string): string
  {
    if SpacedThreeLevel(t) then t
    else if TwoLevel(t) || ThreeLevel(t) then Strip(SpaceAfterGroups(t, 0))
    else if OneLevel(t) then DropLeadingNumber(t)
    else t
  }

  /** A title that does not start with a digit is its own key. */
  lemma ModifiedUnnumbered(t: string)
    requires t == [] || !IsDigit(t[0])
    ensures ModifiedTitle(t) == t
    ensures DropLeadingNumber(t) == t && !OneLevelLoose(t)
  {
    assert DigitsEnd(t, 0) == 0;
    assert Groups(t, 1).None?;
    assert Groups(t, 2).None?;
    assert Groups(t, 3).None?;
  }

  /** Text after a numbering: present, trimmed, on one line and without digits. */
  predicate PlainText(x: string)
  {
    x != [] && !IsSpace(x[0]) && !IsSpace(x[|x| - 1]) && forall k :: 0 <= k < |x| ==> !IsDigit(x[k])
  }

  /** "<n>. <text>" is searched for by its text alone. */
  lemma ModifiedOneLevel(n: string, x: string)
    requires n != [] && AllDigits(n)
    requires x == [] || !IsSpace(x[0])
    ensures ModifiedTitle(n + ". " + x) == x
    ensures DropLeadingNumber(n + ". " + x) == x
  {
    var t := n + ". " + x;
    var a := |n| + 1;
    DotGroupAt(t, 0, |n|);
    assert Groups(t, 1) == Some(a);
    assert DigitsEnd(t, a) == a;
    assert Groups(t, 2).None?;
    assert Groups(t, 3).None?;
    assert SpaceEnd(t, a) == a + 1;
    assert t[a + 1..] == x;
  }

  /** Position `m < |p| - 1` of the first dot in "<a>.<b>.": digits everywhere else. */
  predicate TwoNumbers(p: string, m: nat)
  {
    && 0 < m && m + 2 < |p| && p[m] == '.' && p[|p| - 1] == '.'
    && (forall k :: 0 <= k < m ==> IsDigit(p[k]))
    && (forall k :: m < k < |p| - 1 ==> IsDigit(p[k]))
  }

  lemma TwoNumbersOf(a: string, b: string)
    requires a != [] && AllDigits(a) && b != [] && AllDigits(b)
    ensures TwoNumbers(a + "." + b + ".", |a|)
  {
  }

  /** "<a>.<b>." followed by text that does not start with a digit: two groups and one run of groups. */
  lemma TwoGroups(p: string, x: string, m: nat)
    requires TwoNumbers(p, m) && x != [] && !IsDigit(x[0])
    ensures Groups(p + x, 2) == Some(|p|) && GroupRun(p + x, 0) == Some(|p|)
  {
    var t := p + x;
    DotGroupAt(t, 0, m);
    DotGroupAt(t, m + 1, |p| - 1);
    assert Groups(t, 1) == Some(m + 1);
    assert DigitsEnd(t, |p|) == |p|;
  }

  lemma TwoLevelTitle(p: string, x: string, m: nat)
    requires TwoNumbers(p, m) && PlainText(x)
    ensures ModifiedTitle(p + x) == p + " " + x
  {
    var t := p + x;
    ConcatHalves(p, x);
    TwoGroups(p, x, m);
    assert t[|p|] == x[0];
    TwoLevelKey(t, |p|);
    SpacedRun(t, |p|, p, x);
  }

  /** "<a>.<b>.<text>" is searched for as "<a>.<b>. <text>". */
  lemma ModifiedTwoLevel(a: string, b: string, x: string)
    requires a != [] && AllDigits(a) && b != [] && AllDigits(b)
    requires PlainText(x)
    ensures ModifiedTitle(a + "." + b + "." + x) == a + "." + b + ". " + x
  {
    var q := a + "." + b;
    TwoNumbersOf(a, b);
    TwoLevelTitle(q + ".", x, |a|);
    ConcatAssoc(q, ".", " ");
  }

  /** Two groups followed by text that does not start with a digit take the middle branch. */
  lemma TwoLevelKey(t: string, e: nat)
    requires Groups(t, 2) == Some(e) && e < |t| && !IsDigit(t[e]) && t[e] != '\n'
    ensures ModifiedTitle(t) == Strip(SpaceAfterGroups(t, 0))
  {
    assert DigitsEnd(t, e) == e;
    assert Groups(t, 3).None?;
    assert TwoLevel(t);
  }

  /** Positions `m1 < m2 < |p| - 1` of the dots in "<a>.<b>.<c>.": digits everywhere else. */
  predicate ThreeNumbers(p: string, m1: nat, m2: nat)
  {
    && 0 < m1 && m1 + 1 < m2 && m2 + 2 < |p|
    && p[m1] == '.' && p[m2] == '.' && p[|p| - 1] == '.'
    && (forall k :: 0 <= k < m1 ==> IsDigit(p[k]))
    && (forall k :: m1 < k < m2 ==> IsDigit(p[k]))
    && (forall k :: m2 < k < |p| - 1 ==> IsDigit(p[k]))
  }

  lemma ThreeNumbersOf(a: string, b: string, c: string)
    requires a != [] && AllDigits(a) && b != [] && AllDigits(b) && c != [] && AllDigits(c)
    ensures ThreeNumbers(a + "." + b + "." + c + ".", |a|, |a| + 1 + |b|)
  {
  }

  /** Three groups at the start of a title: a run of three groups. */
  lemma ThreeGroupsAt(p: string, x: string, m1: nat, m2: nat)
    requires ThreeNumbers(p, m1, m2)
    ensures Groups(p + x, 3) == Some(|p|) && GroupRun(p + x, 0) == Some(|p|)
  {
    var t := p + x;
    DotGroupAt(t, 0, m1);
    DotGroupAt(t, m1 + 1, m2);
    DotGroupAt(t, m2 + 1, |p| - 1);
    assert Groups(t, 1) == Some(m1 + 1);
    assert Groups(t, 2) == Some(m2 + 1);
  }

  /** Three groups followed by text that does not start with whitespace take the middle branch. */
  lemma ThreeLevelKey(t: string, e: nat)
    requires Groups(t, 3) == Some(e) && e < |t| && !IsSpace(t[e])
    ensures ModifiedTitle(t) == Strip(SpaceAfterGroups(t, 0))
  {
    assert !SpacedThreeLevel(t);
    assert ThreeLevel(t);
  }

  /** A run of groups at the start followed by plain text gets one space inserted after it. */
  lemma SpacedRun(t: string, e: nat, p: string, x: string)
    requires GroupRun(t, 0) == Some(e) && t[..e] == p && t[e..] == x && PlainText(x)
    ensures Strip(SpaceAfterGroups(t, 0)) == p + " " + x
  {
    SpaceAfterNoDigits(t, e);
    assert SpaceAfterGroups(t, 0) == p + " " + x;
    StripTrimmed(p + " " + x);
  }

  lemma ThreeLevelTitle(p: string, x: string, m1: nat, m2: nat)
    requires ThreeNumbers(p, m1, m2) && PlainText(x)
    ensures ModifiedTitle(p + x) == p + " " + x
  {
    var t := p + x;
    ConcatHalves(p, x);
    ThreeGroupsAt(p, x, m1, m2);
    assert t[|p|] == x[0];
    ThreeLevelKey(t, |p|);
    SpacedRun(t, |p|, p, x);
  }

  /** "<a>.<b>.<c>.<text>" is searched for as "<a>.<b>.<c>. <text>". */
  lemma ModifiedThreeLevel(a: string, b: string, c: string, x: string)
    requires a != [] && AllDigits(a) && b != [] && AllDigits(b) && c != [] && AllDigits(c)
    requires PlainText(x)
    ensures ModifiedTitle(a + "." + b + "." + c + "." + x) == a + "." + b + "." + c + ". " + x
  {
    var q := a + "." + b + "." + c;
    ThreeNumbersOf(a, b, c);
    ThreeLevelTitle(q + ".", x, |a|, |a| + 1 + |b|);
    ConcatAssoc(q, ".", " ");
  }

  /** A title numbered with three groups and a space after them is its own key. */
  lemma SpacedThreeLevelTitle(p: string, y: string, m1: nat, m2: nat)
    requires ThreeNumbers(p, m1, m2) && y != [] && y[0] != '\n'
    ensures ModifiedTitle(p + " " + y) == p + " " + y
  {
    var t := p + " " + y;
    ConcatAssoc(p, " ", y);
    ThreeGroupsAt(p, " " + y, m1, m2);
    assert t[|p|] == ' ' && t[|p| + 1] == y[0];
    assert SpacedThreeLevel(t);
  }

  /** "<a>.<b>.<c>. <text>" is already spaced and is its own key. */
  lemma ModifiedSpacedThreeLevel(a: string, b: string, c: string, x: string)
    requires a != [] && AllDigits(a) && b != [] && AllDigits(b) && c != [] && AllDigits(c)
    requires x != [] && x[0] != '\n'
    ensures ModifiedTitle(a + "." + b + "." + c + ". " + x) == a + "." + b + "." + c + ". " + x
  {
    var q := a + "." + b + "." + c;
    ThreeNumbersOf(a, b, c);
    SpacedThreeLevelTitle(q + ".", x, |a|, |a| + 1 + |b|);
    ConcatAssoc(q, ".", " ");
    assert "." + " " == ". ";
  }

  // ---------------------------------------------------------------------
  // extract_sections_from_processed_text
  // ---------------------------------------------------------------------

  /** `processed_text.get(title, "")` */
  function TextFor(processed: Dict<string>, title: string): string
  {
    match Get(processed, title)
    case Some(v) => v
    case None => ""
  }

  /**
   * A title with the strings it is searched by: its key, and for a title
   * numbered "<n>." with text after it, the title without that numbering.
   */
  datatype SearchTitle = SearchTitle(title: string, key: string, plain: Option<string>)

  /** The search strings of `title`. */
  function SearchTitleOf(title: string): SearchTitle
  {
    SearchTitle(title, ModifiedTitle(title), if OneLevelLoose(title) then Some(DropLeadingNumber(title)) else None)
  }

  /**
   * `start_index` for a title followed by another: the first occurrence of
   * its key, else of the title itself, else of the title without its
   * numbering.
   */
  function StartIndex(cur: string, t: SearchTitle): (r: int)
    ensures r == -1 || 0 <= r <= |cur|
  {
    var s1 := Find(cur, t.key);
    var s2 := if s1 == -1 then Find(cur, t.title) else s1;
    if s2 == -1 && t.plain.Some? then Find(cur, t.plain.value) else s2
  }

  /**
   * The start is where one of the search strings occurs, the key's first
   * occurrence when there is one, and -1 exactly when none of them occurs.
   */
  lemma StartIndexSpec(cur: string, t: SearchTitle)
    ensures var r := StartIndex(cur, t);
      && (r != -1 ==>
           OccursAt(cur, t.key, r) || OccursAt(cur, t.title, r) || (t.plain.Some? && OccursAt(cur, t.plain.value, r)))
      && (r == -1 <==>
           && (forall k :: !OccursAt(cur, t.key, k))
           && (forall k :: !OccursAt(cur, t.title, k))
           && (t.plain.Some? ==> forall k :: !OccursAt(cur, t.plain.value, k)))
      && (Find(cur, t.key) != -1 ==> r == Find(cur, t.key))
  {
  }

  /**
   * `end_index`: the next title's key, else the next title itself, searched
   * from `from` (Python's `find` counts a negative start from the end).
   */
  function EndIndex(cur: string, from: int, next: SearchTitle): (r: int)
    ensures r == -1 || OccursAt(cur, next.key, r) || OccursAt(cur, next.title, r)
  {
    var e1 := PyFindFrom(cur, next.key, from);
    if e1 == -1 then PyFindFrom(cur, next.title, from) else e1
  }

  /**
   * The section cut from `cur`, the text gathered for `t`; `next` is the
   * title that follows, if any.
   */
  function SectionOf(cur: string, t: SearchTitle, next: Option<SearchTitle>): string
  {
    if cur == "" then ""
    else if next.Some? then SectionBefore(cur, t, next.value)
    else SectionToEnd(cur, t)
  }

  /** The section of a title followed by `next`. */
  function SectionBefore(cur: string, t: SearchTitle, next: SearchTitle): string
  {
    var start := StartIndex(cur, t);
    if start != -1 then Cut(cur, start, EndAfter(cur, start, t, next)) else cur
  }

  /** `end_index`, searched from just past the current title's key at `start`. */
  function EndAfter(cur: string, start: int, t: SearchTitle, next: SearchTitle): int
  {
    EndIndex(cur, start + |t.key|, next)
  }

  /** `cur[start:end].strip()` */
  function Cut(cur: string, start: int, end: int): string
  {
    Strip(Slice(cur, start, end))
  }

  /** The section of the last title. */
  function SectionToEnd(cur: string, t: SearchTitle): string
  {
    var start := Find(cur, t.key);
    if start != -1 then Strip(cur[start..]) else cur
  }

  /** The section stored for `titles[i]`. */
  function SectionText(titles: seq<string>, processed: Dict<string>, i: nat): string
    requires i < |titles|
  {
    var next := if i + 1 < |titles| then Some(SearchTitleOf(titles[i + 1])) else None;
    SectionOf(TextFor(processed, titles[i]), SearchTitleOf(titles[i]), next)
  }

  /** The sections of all titles, in the order of the titles. */
  function Sections(titles: seq<string>, processed: Dict<string>): seq<string>
  {
    seq(|titles|, i requires 0 <= i < |titles| => SectionText(titles, processed, i))
  }

  /**
   * `extract_sections_from_processed_text`: one entry per title, in order of
   * first appearance; a title listed twice keeps its last section.
   */
  method ExtractSections(titles: seq<string>, processed: Dict<string>) returns (r: Dict<string>)
    ensures r == FromPairs(Zip(titles, Sections(titles, processed)))
    ensures UniqueKeys(r) && forall k :: k in Keys(r) <==> k in titles
    ensures forall i :: 0 <= i < |titles| && (forall j :: i < j < |titles| ==> titles[j] != titles[i]) ==>
      Get(r, titles[i]) == Some(SectionText(titles, processed, i))
  {
    ghost var ss := Sections(titles, processed);
    ghost var ps := Zip(titles, ss);
    r := [];
    for i := 0 to |titles|
      invariant r == FromPairs(ps[..i])
    {
      r := Put(r, titles[i], SectionText(titles, processed, i));
      FromPairsStep(ps, i);
    }
    assert ps[..|titles|] == ps;
    ZipFilled(titles, ss);
  }

  // ---------------------------------------------------------------------
  // What a section is
  // ---------------------------------------------------------------------

  /** A title whose text is missing or empty gets an empty section. */
  lemma SectionOfMissingText(titles: seq<string>, processed: Dict<string>, i: nat)
    requires i < |titles| && (Get(processed, titles[i]).None? || Get(processed, titles[i]) == Some(""))
    ensures SectionText(titles, processed, i) == ""
  {
  }

  /** Every section is a contiguous piece of its title's text. */
  lemma SectionIsPiece(cur: string, t: SearchTitle, next: Option<SearchTitle>) returns (a: nat, b: nat)
    ensures a <= b <= |cur| && SectionOf(cur, t, next) == cur[a..b]
  {
    if cur == "" {
      a, b := 0, 0;
    } else if next.Some? && StartIndex(cur, t) != -1 {
      a, b := PieceBetween(cur, t, next.value);
    } else if next.None? && Find(cur, t.key) != -1 {
      a, b := PieceToEnd(cur, t);
    } else {
      a, b := 0, |cur|;
    }
  }

  lemma PieceBetween(cur: string, t: SearchTitle, next: SearchTitle) returns (a: nat, b: nat)
    requires cur != "" && StartIndex(cur, t) != -1
    ensures a <= b <= |cur| && SectionOf(cur, t, Some(next)) == cur[a..b]
  {
    var start := StartIndex(cur, t);
    var end := EndIndex(cur, start + |t.key|, next);
    SectionCut(cur, t, next, start, end);
    var lo, hi := SliceInfix(cur, start, end);
    a, b := StripInfix(cur, lo, hi);
  }

  lemma PieceToEnd(cur: string, t: SearchTitle) returns (a: nat, b: nat)
    requires cur != "" && Find(cur, t.key) != -1
    ensures a <= b <= |cur| && SectionOf(cur, t, None) == cur[a..b]
  {
    var start := Find(cur, t.key);
    assert SectionOf(cur, t, None) == Strip(cur[start..]);
    assert cur[start..] == cur[start..|cur|];
    a, b := StripInfix(cur, start, |cur|);
  }

  /** A title none of whose search strings occurs in its text keeps the whole text. */
  lemma SectionWithoutKey(cur: string, t: SearchTitle, next: Option<SearchTitle>)
    requires forall k :: !OccursAt(cur, t.key, k)
    requires forall k :: !OccursAt(cur, t.title, k)
    requires t.plain.Some? ==> forall k :: !OccursAt(cur, t.plain.value, k)
    ensures SectionOf(cur, t, next) == cur
  {
    StartIndexSpec(cur, t);
  }

  /**
   * Between two titles whose keys are both found, the section runs from the
   * first occurrence of the current title's search string up to the first
   * occurrence of the next title's key after it, or of the next title itself
   * when its key does not occur there, stripped.
   */
  lemma SectionBetweenKeys(cur: string, t: SearchTitle, next: SearchTitle, start: int, end: int)
    requires cur != "" && start == StartIndex(cur, t) && start != -1
    requires end == EndIndex(cur, start + |t.key|, next) && end != -1
    ensures start + |t.key| <= end
    ensures SectionOf(cur, t, Some(next)) == Strip(cur[start..end])
    ensures OccursAt(cur, next.key, end) || OccursAt(cur, next.title, end)
    ensures forall k :: start + |t.key| <= k < end ==> !OccursAt(cur, next.key, k)
    ensures (forall k :: start + |t.key| <= k ==> !OccursAt(cur, next.key, k)) ==>
      OccursAt(cur, next.title, end) && forall k :: start + |t.key| <= k < end ==> !OccursAt(cur, next.title, k)
  {
    EndIndexFound(cur, start + |t.key|, next);
    SectionCut(cur, t, next, start, end);
    SliceInside(cur, start, end);
  }

  /**
   * When the next title is not found after the current key, `end_index` is
   * -1 and the slice `[start_index:-1]` stops one character short of the end
   * of the text.
   */
  lemma SectionLosesLastChar(cur: string, t: SearchTitle, next: SearchTitle, start: int)
    requires cur != "" && start == StartIndex(cur, t) && start != -1
    requires EndIndex(cur, start + |t.key|, next) == -1
    ensures forall k :: start + |t.key| <= k ==> !OccursAt(cur, next.title, k) && !OccursAt(cur, next.key, k)
    ensures SectionOf(cur, t, Some(next)) == if start < |cur| - 1 then Strip(cur[start..|cur| - 1]) else ""
  {
    EndIndexMissing(cur, start + |t.key|, next);
    SectionCut(cur, t, next, start, -1);
    SliceToLast(cur, start);
  }

  /** A found `end_index` lies at or after where the search began, at the first later occurrence of the key, or else of the title. */
  lemma EndIndexFound(cur: string, from: nat, next: SearchTitle)
    requires EndIndex(cur, from, next) != -1
    ensures var e := EndIndex(cur, from, next);
      && from <= e
      && (OccursAt(cur, next.key, e) || OccursAt(cur, next.title, e))
      && (forall k :: from <= k < e ==> !OccursAt(cur, next.key, k))
      && ((forall k :: from <= k ==> !OccursAt(cur, next.key, k)) ==>
           OccursAt(cur, next.title, e) && forall k :: from <= k < e ==> !OccursAt(cur, next.title, k))
  {
    assert PyFindFrom(cur, next.key, from) == FindFrom(cur, next.key, from);
    assert PyFindFrom(cur, next.title, from) == FindFrom(cur, next.title, from);
  }

  /** A missing `end_index` means neither the key nor the title occurs from there on. */
  lemma EndIndexMissing(cur: string, from: nat, next: SearchTitle)
    requires EndIndex(cur, from, next) == -1
    ensures forall k :: from <= k ==> !OccursAt(cur, next.title, k) && !OccursAt(cur, next.key, k)
  {
    assert PyFindFrom(cur, next.key, from) == FindFrom(cur, next.key, from);
    assert PyFindFrom(cur, next.title, from) == FindFrom(cur, next.title, from);
  }

  /** With a next title and a found start, the section is the stripped slice between the two indices. */
  lemma SectionCut(cur: string, t: SearchTitle, next: SearchTitle, start: int, end: int)
    requires cur != "" && start == StartIndex(cur, t) && start != -1
    requires end == EndAfter(cur, start, t, next)
    ensures SectionOf(cur, t, Some(next)) == Cut(cur, start, end)
  {
    assert SectionOf(cur, t, Some(next)) == SectionBefore(cur, t, next);
  }

  /** The last title's section runs from the first occurrence of its key to the end of the text, stripped. */
  lemma SectionOfLastTitle(cur: string, t: SearchTitle, start: int)
    requires cur != "" && start == Find(cur, t.key) && start != -1
    ensures OccursAt(cur, t.key, start)
    ensures forall k :: 0 <= k < start ==> !OccursAt(cur, t.key, k)
    ensures SectionOf(cur, t, None) == Strip(cur[start..])
  {
  }
}
