/**
 * Rewriting of section-title keys: `normalize_keys_with_numbering`
 * ("<numbering>. <title>"), `process_string` / `process_titles` (numbering
 * separated from the text, text cut at its last capital letter) and
 * `process_titles_in_one_step` (numbering taken from the TOC, text from the
 * key).
 */
module TitleKeys {
  import opened Results
  import opened Text
  import opened OrderedDict
  import opened Toc

  /** Index after an optional dot at `i` (the regex `\.?`). */
  function OptDot(s: string, i: nat): (e: nat)
    requires i <= |s|
    ensures i <= e <= |s|
  {
    if i < |s| && s[i] == '.' then i + 1 else i
  }

  /** A prefix that is a whole numbering match stays one inside any string that shares it. */
  lemma ChainAtShared(s: string, u: string, e: nat)
    requires ChainAt(s, 0, e) && e <= |u|
    requires forall k :: 0 <= k < e ==> u[k] == s[k]
    ensures ChainAt(u, 0, e)
  {
  }

  /** What `(.*)` followed by `.strip()` yields: no newline and no whitespace at either end. */
  predicate LineText(t: string)
  {
    '\n' !in t && (t == [] || (!IsSpace(t[0]) && !IsSpace(t[|t| - 1])))
  }

  /** The text `Strip(s[q..LineEnd(s, q)])` is a line text. */
  lemma LineTextShape(s: string, q: nat)
    requires q <= |s|
    ensures LineText(Strip(s[q..LineEnd(s, q)]))
  {
    var line := s[q..LineEnd(s, q)];
    assert '\n' !in line;
    StripChars(line, '\n');
    StripSpec(line);
  }

  /** A stripped line of text read back from the index where it starts. */
  lemma LineTextAt(r: string, q: nat, t: string)
    requires q <= |r| && r[q..] == t && LineText(t)
    ensures Strip(r[q..LineEnd(r, q)]) == t
  {
    var l := LineEnd(r, q);
    assert r[q..l] == t;
    StripTrimmed(t);
  }

  /** In "<numbering>. <text>" the numbering match ends before the dot and the text starts after the space. */
  lemma DottedTitle(c: string, t: string)
    requires ChainAt(c, 0, |c|) && LineText(t)
    ensures var r := c + ". " + t;
      && SpaceEnd(r, 0) == 0 && ChainEnd(r, 0) == |c| && r[..|c|] == c
      && OptDot(r, |c|) == |c| + 1 && SpaceEnd(r, |c| + 1) == |c| + 2
      && Strip(r[|c| + 2..LineEnd(r, |c| + 2)]) == t
  {
    var r := c + ". " + t;
    ChainAtShared(c, r, |c|);
    ChainEndUnique(r, 0, |c|);
    assert r[|c| + 2..] == t;
    LineTextAt(r, |c| + 2, t);
  }

  /** In "<numbering>." the numbering match ends before the dot and no text follows. */
  lemma DottedAlone(c: string)
    requires ChainAt(c, 0, |c|)
    ensures var r := c + ".";
      && SpaceEnd(r, 0) == 0 && ChainEnd(r, 0) == |c| && r[..|c|] == c
      && OptDot(r, |c|) == |c| + 1 && SpaceEnd(r, |c| + 1) == |c| + 1
      && Strip(r[|c| + 1..LineEnd(r, |c| + 1)]) == ""
  {
    var r := c + ".";
    ChainAtShared(c, r, |c|);
    ChainEndUnique(r, 0, |c|);
  }

  // ---------------------------------------------------------------------
  // normalize_keys_with_numbering: `^(\d+(\.\d+)*)(\.?)(\s*)(.*)`
  // ---------------------------------------------------------------------

  /** A key starting with a numbering becomes "<numbering>. <title>"; any other key is kept. */
  function NormalizeKey(key: string): string
  {
    if |key| > 0 && IsDigit(key[0]) then
      var e := ChainEnd(key, 0);
      var q := SpaceEnd(key, OptDot(key, e));
      key[..e] + ". " + Strip(key[q..LineEnd(key, q)])
    else key
  }

  /**
   * A key starting with a numbering becomes that numbering, ". " and a line
   * text: the numbering is kept and the title has no edge whitespace.
   */
  lemma NormalizeKeyShape(key: string)
    requires |key| > 0 && IsDigit(key[0])
    ensures var e := ChainEnd(key, 0); var r := NormalizeKey(key);
      ChainAt(key[..e], 0, e) && e + 2 <= |r| && r[..e + 2] == key[..e] + ". " && LineText(r[e + 2..])
  {
    var e := ChainEnd(key, 0);
    var q := SpaceEnd(key, OptDot(key, e));
    LineTextShape(key, q);
    ChainEndIsChain(key, 0);
    ChainAtShared(key, key[..e], e);
    var r := NormalizeKey(key);
    assert r[e + 2..] == Strip(key[q..LineEnd(key, q)]);
  }

  /** Normalising a normalised key changes nothing. */
  lemma NormalizeKeyIdempotent(key: string)
    ensures NormalizeKey(NormalizeKey(key)) == NormalizeKey(key)
  {
    if |key| > 0 && IsDigit(key[0]) {
      var e := ChainEnd(key, 0);
      var r := NormalizeKey(key);
      NormalizeKeyShape(key);
      var c := key[..e];
      var t := r[e + 2..];
      assert r == c + ". " + t;
      NormalizedFixed(c, t);
    }
  }

  /** "<numbering>. <line text>" is already normalised. */
  lemma NormalizedFixed(c: string, t: string)
    requires ChainAt(c, 0, |c|) && LineText(t)
    ensures NormalizeKey(c + ". " + t) == c + ". " + t
  {
    var r := c + ". " + t;
    DottedTitle(c, t);
    assert r[0] == c[0];
  }

  /** `normalize_keys_with_numbering`: every key normalised; colliding keys merge, the last value winning. */
  function NormalizeKeys<V>(d: Dict<V>): Dict<V>
  {
    RenameKeys(d, NormalizeKey)
  }

  /** Normalising a normalised dict changes nothing. */
  lemma NormalizeKeysIdempotent<V>(d: Dict<V>)
    ensures NormalizeKeys(NormalizeKeys(d)) == NormalizeKeys(d)
  {
    forall i | 0 <= i < |d| ensures NormalizeKey(NormalizeKey(d[i].0)) == NormalizeKey(d[i].0) {
      NormalizeKeyIdempotent(d[i].0);
    }
    RenameKeysIdempotent(d, NormalizeKey);
  }

  // ---------------------------------------------------------------------
  // process_string / process_titles: `^(\d+(?:\.\d+)*\.*)(.*)$`
  // ---------------------------------------------------------------------

  /** `text[i]` is an uppercase letter and none follows it. */
  predicate IsLastUpper(t: string, i: int)
  {
    0 <= i < |t| && IsUpper(t[i]) && forall j :: i < j < |t| ==> !IsUpper(t[j])
  }

  /** The last uppercase letter is not the first character and is followed by a character other than a space. */
  predicate CutPoint(t: string, i: int)
  {
    IsLastUpper(t, i) && 0 < i && i + 1 < |t| && t[i + 1] != ' '
  }

  /** The last uppercase letter among `t[..n]`. */
  function LastUpperBelow(t: string, n: nat): (r: Option<nat>)
    requires n <= |t|
    ensures r.Some? ==> r.value < n && IsUpper(t[r.value]) && forall j :: r.value < j < n ==> !IsUpper(t[j])
    ensures r.None? ==> forall j :: 0 <= j < n ==> !IsUpper(t[j])
  {
    if n == 0 then None
    else if IsUpper(t[n - 1]) then Some(n - 1)
    else LastUpperBelow(t, n - 1)
  }

  /** The text cut off at its last uppercase letter, when that letter is a cut point. */
  function CutAtLastUpper(t: string): string
  {
    match LastUpperBelow(t, |t|)
    case Some(i) => if i > 0 && i + 1 < |t| && t[i + 1] != ' ' then t[..i] else t
    case None => t
  }

  /**
   * The cut keeps a prefix of the text: it ends just before the last
   * uppercase letter when that is a cut point, and it is the whole text
   * when there is no cut point.
   */
  lemma CutAtLastUpperSpec(t: string)
    ensures CutAtLastUpper(t) <= t
    ensures forall i :: CutPoint(t, i) ==> CutAtLastUpper(t) == t[..i]
    ensures (forall i :: !CutPoint(t, i)) ==> CutAtLastUpper(t) == t
  {
    var l := LastUpperBelow(t, |t|);
    forall i | IsLastUpper(t, i) ensures l == Some(i) {
    }
    if l.Some? {
      assert IsLastUpper(t, l.value);
      if forall i :: !CutPoint(t, i) {
        assert !CutPoint(t, l.value);
      }
    }
  }

  /** Where the numbering group ends: digits and dots of the numbering, then any further dots. */
  function NumberingEnd(s: string): (e: nat)
    requires |s| > 0 && IsDigit(s[0])
    ensures 0 < e <= |s|
  {
    DotsEnd(s, ChainEnd(s, 0))
  }

  /** `(.*)$` matches from `e`: there is no newline after `e` except possibly a final one. */
  predicate TailMatches(s: string, e: nat)
    requires e <= |s|
  {
    var l := LineEnd(s, e);
    l == |s| || l == |s| - 1
  }

  /** `process_string` */
  function ProcessedTitle(s: string): string
  {
    if |s| > 0 && IsDigit(s[0]) && TailMatches(s, NumberingEnd(s)) then
      var e := NumberingEnd(s);
      s[..e] + " " + CutAtLastUpper(Strip(s[e..LineEnd(s, e)]))
    else s
  }

  /**
   * A title that starts with a numbering and holds no newline before its
   * end becomes its numbering group, one space, and a prefix of the
   * stripped text after it; any other string is kept.
   */
  lemma ProcessedTitleShape(s: string)
    ensures !(|s| > 0 && IsDigit(s[0]) && TailMatches(s, NumberingEnd(s))) ==> ProcessedTitle(s) == s
    ensures |s| > 0 && IsDigit(s[0]) && TailMatches(s, NumberingEnd(s)) ==>
      var e := NumberingEnd(s); var r := ProcessedTitle(s);
      && e < |r| && r[..e] == s[..e] && r[e] == ' '
      && r[e + 1..] <= Strip(s[e..LineEnd(s, e)])
  {
    if |s| > 0 && IsDigit(s[0]) && TailMatches(s, NumberingEnd(s)) {
      var e := NumberingEnd(s);
      var t := Strip(s[e..LineEnd(s, e)]);
      CutAtLastUpperSpec(t);
      var r := ProcessedTitle(s);
      assert r[e + 1..] == CutAtLastUpper(t);
    }
  }

  /** `process_string`, with its backward scan for the last uppercase letter. */
  method ProcessString(s: string) returns (r: string)
    ensures r == ProcessedTitle(s)
  {
    if !(|s| > 0 && IsDigit(s[0])) {
      return s;
    }
    var e := DotsEnd(s, ChainEnd(s, 0));
    var l := LineEnd(s, e);
    if !(l == |s| || l == |s| - 1) {
      return s;
    }
    var text := Strip(s[e..l]);
    var cut := text;
    var i := |text|;
    while i > 0
      invariant 0 <= i <= |text| && cut == text
      invariant forall j :: i <= j < |text| ==> !IsUpper(text[j])
    {
      i := i - 1;
      if IsUpper(text[i]) {
        assert LastUpperBelow(text, |text|) == Some(i);
        if i != 0 && i + 1 < |text| && text[i + 1] != ' ' {
          cut := text[..i];
        }
        break;
      }
    }
    assert cut == CutAtLastUpper(text);
    r := s[..e] + " " + cut;
  }

  /** `process_titles`: every key passed through `process_string`. */
  function ProcessTitles<V>(d: Dict<V>): Dict<V>
  {
    RenameKeys(d, ProcessedTitle)
  }

  /** When no two keys process alike, every entry is kept in order with its processed key. */
  lemma ProcessTitlesDistinct<V>(d: Dict<V>)
    requires forall i, j :: 0 <= i < j < |d| ==> ProcessedTitle(d[i].0) != ProcessedTitle(d[j].0)
    ensures |ProcessTitles(d)| == |d|
    ensures forall i :: 0 <= i < |d| ==> ProcessTitles(d)[i] == (ProcessedTitle(d[i].0), d[i].1)
  {
    RenameKeysDistinct(d, ProcessedTitle);
  }

  // ---------------------------------------------------------------------
  // process_titles_in_one_step
  // ---------------------------------------------------------------------

  /** Step 1: the numbering `^(\d+(\.\d+)*)` at the start of a TOC title, with a dot appended; "" without one. */
  function TocNumbering(title: string): string
  {
    if |title| > 0 && IsDigit(title[0]) then title[..ChainEnd(title, 0)] + "." else ""
  }

  /** Step 2: the text of a key after `^\s*(\d+(\.\d+)*\.?\s*)?`, up to the end of the line, stripped. */
  function KeyText(key: string): string
  {
    var p := SpaceEnd(key, 0);
    var q := if p < |key| && IsDigit(key[p]) then SpaceEnd(key, OptDot(key, ChainEnd(key, p))) else p;
    Strip(key[q..LineEnd(key, q)])
  }

  /** Step 3: the TOC numbering and the key text joined by a space, or the text alone. */
  function Reconstructed(numbering: string, text: string): string
  {
    if numbering != "" then Strip(numbering + " " + text) else text
  }

  /** A key text is a line text. */
  lemma KeyTextShape(key: string)
    ensures LineText(KeyText(key))
  {
    var p := SpaceEnd(key, 0);
    var q := if p < |key| && IsDigit(key[p]) then SpaceEnd(key, OptDot(key, ChainEnd(key, p))) else p;
    LineTextShape(key, q);
  }

  /** A TOC numbering is empty, or a numbering match followed by one dot. */
  lemma TocNumberingShape(title: string)
    ensures var n := TocNumbering(title);
      n == "" || (|n| >= 2 && n[|n| - 1] == '.' && ChainAt(n[..|n| - 1], 0, |n| - 1))
  {
    if |title| > 0 && IsDigit(title[0]) {
      var e := ChainEnd(title, 0);
      ChainEndIsChain(title, 0);
      var n := TocNumbering(title);
      assert n[..|n| - 1] == title[..e];
      ChainAtShared(title, title[..e], e);
    }
  }

  /** Joined with a TOC numbering, a non-empty text is kept whole after "<numbering> ". */
  lemma ReconstructedWithText(c: string, t: string)
    requires ChainAt(c, 0, |c|) && LineText(t) && t != []
    ensures Reconstructed(c + ".", t) == c + ". " + t
  {
    assert c + "." + " " + t == c + ". " + t;
    StripTrimmed(c + ". " + t);
  }

  /** Joined with a TOC numbering, an empty text leaves the numbering alone: the trailing space is stripped. */
  lemma ReconstructedWithoutText(c: string)
    requires ChainAt(c, 0, |c|)
    ensures Reconstructed(c + ".", "") == c + "."
  {
    var w := c + "." + " " + "";
    StripSpec(w);
    assert SpaceEnd(w, 0) == 0;
    assert w[|w| - 1] == ' ' && w[|w| - 2] == '.';
    assert StripEnd(w) == |w| - 1;
    assert w[..|w| - 1] == c + ".";
  }

  /**
   * Round trip: the title rebuilt from a TOC numbering and a key text gives
   * back that numbering and that text.
   */
  lemma ReconstructedRoundTrip(n: string, t: string)
    requires |n| >= 2 && n[|n| - 1] == '.' && ChainAt(n[..|n| - 1], 0, |n| - 1)
    requires LineText(t)
    ensures TocNumbering(Reconstructed(n, t)) == n
    ensures KeyText(Reconstructed(n, t)) == t
  {
    var c := n[..|n| - 1];
    assert n == c + ".";
    if t == [] {
      ReconstructedWithoutText(c);
      ReadBackAlone(c);
    } else {
      ReconstructedWithText(c, t);
      ReadBackDotted(c, t);
    }
  }

  lemma ReadBackDotted(c: string, t: string)
    requires ChainAt(c, 0, |c|) && LineText(t) && t != []
    ensures TocNumbering(c + ". " + t) == c + "." && KeyText(c + ". " + t) == t
  {
    DottedTitle(c, t);
  }

  lemma ReadBackAlone(c: string)
    requires ChainAt(c, 0, |c|)
    ensures TocNumbering(c + ".") == c + "." && KeyText(c + ".") == ""
  {
    DottedAlone(c);
  }

  /** Without a TOC numbering, a key text not starting with a digit is read back unchanged. */
  lemma KeyTextFixed(t: string)
    requires LineText(t) && !(|t| > 0 && IsDigit(t[0]))
    ensures KeyText(Reconstructed("", t)) == t
  {
    assert SpaceEnd(t, 0) == 0;
    LineTextAt(t, 0, t);
  }

  /** The reconstructed pairs: `zip` stops at the shorter of the dict and the TOC. */
  function OneStepPairs<V>(d: Dict<V>, toc: seq<TocEntry>): (ps: seq<(string, V)>)
    ensures |ps| == if |d| < |toc| then |d| else |toc|
  {
    var n := if |d| < |toc| then |d| else |toc|;
    seq(n, i requires 0 <= i < n => (Reconstructed(TocNumbering(toc[i].title), KeyText(d[i].0)), d[i].1))
  }

  /** `process_titles_in_one_step` */
  function OneStep<V>(d: Dict<V>, toc: seq<TocEntry>): Dict<V>
  {
    FromPairs(OneStepPairs(d, toc))
  }

  /**
   * Entry `i` of the zip carries the value of the `i`-th key, the numbering
   * of the `i`-th TOC title and the text of the `i`-th key.
   */
  lemma OneStepEntry<V>(d: Dict<V>, toc: seq<TocEntry>, i: nat)
    requires i < |d| && i < |toc|
    requires TocNumbering(toc[i].title) != ""
    ensures var e := OneStepPairs(d, toc)[i];
      e.1 == d[i].1 && TocNumbering(e.0) == TocNumbering(toc[i].title) && KeyText(e.0) == KeyText(d[i].0)
  {
    TocNumberingShape(toc[i].title);
    KeyTextShape(d[i].0);
    ReconstructedRoundTrip(TocNumbering(toc[i].title), KeyText(d[i].0));
  }

  /** When the rebuilt keys are distinct, the dict holds exactly the zipped entries, in order. */
  lemma OneStepDistinct<V>(d: Dict<V>, toc: seq<TocEntry>)
    requires UniqueKeys(OneStepPairs(d, toc))
    ensures OneStep(d, toc) == OneStepPairs(d, toc)
  {
    FromUniquePairs(OneStepPairs(d, toc));
  }
}
