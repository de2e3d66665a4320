/**
 * `structure_raw_text_by_toc_no_numbering`: cutting the document into one
 * section per TOC entry when the TOC carries no numbering. The page texts
 * are given, already cleaned, as `pages` (page `p` of the document is
 * `pages[p]`); reading them from the PDF is not part of this model.
 *
 * For each entry the scan runs over the pages from the entry's page to the
 * next entry's page. Pages before the title is found are skipped; on the page
 * where it is found the text from the title onwards is kept, and the next
 * title is not looked for on that page; on later pages the whole page is
 * kept until a page holds the next title, of which only the part before the
 * next title is kept, and the scan stops.
 */
module Segmenter {
  import opened Results
  import opened Text
  import opened Toc
  import opened OrderedDict
  import opened Titles

  // ---------------------------------------------------------------------
  // The trailing numbering of a title: the regex `(.*?)(\d+(\.\d+)*\.)$`
  // ---------------------------------------------------------------------

  /** `s[k..m]` is a whole match of `\d+(\.\d+)*\.`: a chain of numbers ended by a dot. */
  predicate DottedChainAt(s: string, k: nat, m: nat)
  {
    k + 1 < m <= |s| && s[m - 1] == '.' && ChainAt(s, k, m - 1)
  }

  /** The numbering group followed by `$` matches at `k`: up to the end, or up to a final newline. */
  predicate TrailerMatchesAt(t: string, k: nat)
  {
    DottedChainAt(t, k, |t|) || (|t| > 0 && t[|t| - 1] == '\n' && DottedChainAt(t, k, |t| - 1))
  }

  /** The lazy `.*?` tries `k`, `k + 1`, … and cannot step over a newline. */
  function TrailerCut(t: string, k: nat): (r: Option<nat>)
    requires k <= |t|
    ensures r.Some? ==> k <= r.value < |t| && TrailerMatchesAt(t, r.value)
    decreases |t| - k
  {
    if TrailerMatchesAt(t, k) then Some(k)
    else if k == |t| || t[k] == '\n' then None
    else TrailerCut(t, k + 1)
  }

  /** The cut is the first index from `k` where the numbering matches, with no newline before it. */
  lemma {:induction false} TrailerCutFirst(t: string, k: nat)
    requires k <= |t|
    ensures var r := TrailerCut(t, k);
      r.Some? ==> '\n' !in t[k..r.value] && forall j :: k <= j < r.value ==> !TrailerMatchesAt(t, j)
    decreases |t| - k
  {
    if !TrailerMatchesAt(t, k) && k < |t| && t[k] != '\n' {
      TrailerCutFirst(t, k + 1);
      var r := TrailerCut(t, k + 1);
      if r.Some? {
        assert t[k..r.value] == [t[k]] + t[k + 1..r.value];
      }
    }
  }

  /**
   * The converse: when the numbering matches at `j` and no newline lies
   * between `k` and `j`, the cut is found, at `j` or earlier.
   */
  lemma {:induction false} TrailerCutComplete(t: string, k: nat, j: nat)
    requires k <= j <= |t| && '\n' !in t[k..j] && TrailerMatchesAt(t, j)
    ensures TrailerCut(t, k).Some? && TrailerCut(t, k).value <= j
    decreases j - k
  {
    if !TrailerMatchesAt(t, k) {
      assert k < j;
      assert t[k] == t[k..j][0];
      assert t[k + 1..j] == t[k..j][1..];
      TrailerCutComplete(t, k + 1, j);
    }
  }

  /** The title used as the section key: group 1 of the match, stripped; the title itself when nothing matches. */
  function SectionTitle(title: string): string
  {
    match TrailerCut(title, 0)
    case Some(k) => Strip(title[..k])
    case None => title
  }

  /** A title that does not end with a dot (or a dot and a newline) is kept as it is. */
  lemma SectionTitleUndotted(title: string)
    requires title == [] || (title[|title| - 1] != '.' && title[|title| - 1] != '\n')
    ensures SectionTitle(title) == title
  {
    if TrailerCut(title, 0).Some? {
      assert false;
    }
  }

  /**
   * A title ending with a numbering such as "2.1." glued after a word and a
   * space loses that numbering and the whitespace before it.
   */
  lemma SectionTitleDropsNumbering(x: string, c: string)
    requires '\n' !in x
    requires x != [] && !IsDigit(x[|x| - 1]) && x[|x| - 1] != '.'
    requires ChainAt(c, 0, |c|)
    ensures SectionTitle(x + c + ".") == Strip(x)
  {
    var t := x + c + ".";
    assert t[..|x|] == x;
    assert DottedChainAt(t, |x|, |t|) by {
      assert t[|x|..|t| - 1] == c;
      forall k | |x| <= k < |t| - 1 ensures IsDigit(t[k]) || t[k] == '.' {
        assert t[k] == c[k - |x|];
      }
      forall k | |x| <= k < |t| - 1 && t[k] == '.' ensures k + 1 < |t| - 1 && IsDigit(t[k + 1]) {
        assert t[k] == c[k - |x|];
        assert k + 1 - |x| < |c|;
        assert t[k + 1] == c[k + 1 - |x|];
      }
    }
    NoTrailerBefore(t, |x|, 0);
  }

  /** No match starts before a character that is neither a digit nor a dot and precedes every newline. */
  lemma {:induction false} NoTrailerBefore(t: string, n: nat, k: nat)
    requires 0 < n < |t| && k <= n && !IsDigit(t[n - 1]) && t[n - 1] != '.'
    requires forall j :: 0 <= j < n ==> t[j] != '\n'
    requires TrailerMatchesAt(t, n)
    ensures TrailerCut(t, k) == Some(n)
    decreases n - k
  {
    if k < n {
      assert !TrailerMatchesAt(t, k);
      NoTrailerBefore(t, n, k + 1);
    }
  }

  // ---------------------------------------------------------------------
  // The page scan for one entry
  // ---------------------------------------------------------------------

  const PageError := "Error structuring raw text by TOC: page not in document"

  /** `s` prepended to the text of a successful result; an error stays an error. */
  function PrefixOk(s: string, r: Result<string>): (q: Result<string>)
    ensures q.Ok? <==> r.Ok?
  {
    match r
    case Ok(t) => Ok(s + t)
    case Err(m) => Err(m)
  }

  lemma PrefixOkEmpty(r: Result<string>)
    ensures PrefixOk("", r) == r
  {
    if r.Ok? {
      assert "" + r.value == r.value;
    }
  }

  lemma PrefixOkTwice(a: string, b: string, r: Result<string>)
    ensures PrefixOk(a, PrefixOk(b, r)) == PrefixOk(a + b, r)
  {
    if r.Ok? {
      assert a + (b + r.value) == (a + b) + r.value;
    }
  }

  /**
   * The text collected from page `p` to page `last`; `found` says whether the
   * title was already found on an earlier page, and `next` is the next
   * entry's title, if there is a next entry.
   */
  function Scan(pages: seq<string>, title: string, next: Option<string>, p: int, last: int, found: bool): Result<string>
    decreases if p <= last then last + 1 - p else 0
  {
    if p > last then Ok("")
    else if p < 0 || p >= |pages| then Err(PageError)
    else
      var pt := pages[p];
      if !found then
        var k := ScanFor(pt, title);
        if k == -1 then Scan(pages, title, next, p + 1, last, false)
        else PrefixOk(pt[k..] + "\n", Scan(pages, title, next, p + 1, last, true))
      else
        var e := if next.Some? then ScanFor(pt, next.value) else -1;
        if e != -1 then Ok(pt[..e])
        else PrefixOk(pt + "\n", Scan(pages, title, next, p + 1, last, true))
  }

  /** `for i in range(len(s)): if s[i:].startswith(p)`: the character-by-character scan. */
  method FirstMatch(s: string, p: string) returns (k: int)
    ensures k == -1 || (0 <= k < |s| && p <= s[k..])
    ensures k != -1 ==> forall j :: 0 <= j < k ==> !(p <= s[j..])
    ensures k == -1 ==> forall j :: 0 <= j < |s| ==> !(p <= s[j..])
  {
    k := 0;
    while k < |s|
      invariant 0 <= k <= |s|
      invariant forall j :: 0 <= j < k ==> !(p <= s[j..])
    {
      if p <= s[k..] {
        return;
      }
      k := k + 1;
    }
    k := -1;
  }

  /** Both scans find the same first match. */
  lemma FirstMatchIsScanFor(s: string, p: string, k: int)
    requires k == -1 || (0 <= k < |s| && p <= s[k..])
    requires k != -1 ==> forall j :: 0 <= j < k ==> !(p <= s[j..])
    requires k == -1 ==> forall j :: 0 <= j < |s| ==> !(p <= s[j..])
    ensures k == ScanFor(s, p)
  {
  }

  /** The page loop of `structure_raw_text_by_toc_no_numbering` for one entry. */
  method ScanPages(pages: seq<string>, title: string, next: Option<string>, first: int, last: int)
    returns (r: Result<string>)
    ensures r == Scan(pages, title, next, first, last, false)
  {
    var text := "";
    var found := false;
    var p := first;
    PrefixOkEmpty(Scan(pages, title, next, first, last, false));
    while p <= last
      invariant PrefixOk(text, Scan(pages, title, next, p, last, found)) == Scan(pages, title, next, first, last, false)
      decreases last + 1 - p
    {
      if p < 0 || p >= |pages| {
        return Err(PageError);
      }
      var pt := pages[p];
      if !found {
        var k := FirstMatch(pt, title);
        FirstMatchIsScanFor(pt, title, k);
        if k != -1 {
          PrefixOkTwice(text, pt[k..] + "\n", Scan(pages, title, next, p + 1, last, true));
          text := text + (pt[k..] + "\n");
          found := true;
        }
        p := p + 1;
        continue;
      }
      if next.Some? {
        var e := FirstMatch(pt, next.value);
        FirstMatchIsScanFor(pt, next.value, e);
        if e != -1 {
          text := text + pt[..e];
          return Ok(text);
        }
      }
      PrefixOkTwice(text, pt + "\n", Scan(pages, title, next, p + 1, last, true));
      text := text + (pt + "\n");
      p := p + 1;
    }
    assert text + "" == text;
    return Ok(text);
  }

  // ---------------------------------------------------------------------
  // What the page scan collects
  // ---------------------------------------------------------------------

  /** Every page of `ps` followed by a newline. */
  function Lines(ps: seq<string>): string
  {
    if ps == [] then "" else ps[0] + "\n" + Lines(ps[1..])
  }

  /** The pages of the range exist. */
  predicate InDocument(pages: seq<string>, first: int, last: int)
  {
    first > last || (0 <= first && last < |pages|)
  }

  /** Over pages that exist the scan succeeds. */
  lemma {:induction false} ScanOk(pages: seq<string>, title: string, next: Option<string>, p: int, last: int, found: bool)
    requires InDocument(pages, p, last)
    ensures Scan(pages, title, next, p, last, found).Ok?
    decreases if p <= last then last + 1 - p else 0
  {
    if p <= last {
      ScanOk(pages, title, next, p + 1, last, true);
      ScanOk(pages, title, next, p + 1, last, false);
    }
  }

  /** A page the scan reaches that does not exist makes it fail. */
  lemma {:induction false} ScanMissingPage(pages: seq<string>, title: string, next: Option<string>, p: int, last: int)
    requires p <= last && (p < 0 || p >= |pages|)
    ensures Scan(pages, title, next, p, last, false).Err?
  {
  }

  /** A title found on no page of the range yields the empty text. */
  lemma {:induction false} ScanNeverFound(pages: seq<string>, title: string, next: Option<string>, p: int, last: int)
    requires InDocument(pages, p, last)
    requires forall q :: p <= q <= last ==> ScanFor(pages[q], title) == -1
    ensures Scan(pages, title, next, p, last, false) == Ok("")
    decreases if p <= last then last + 1 - p else 0
  {
    if p <= last {
      ScanNeverFound(pages, title, next, p + 1, last);
    }
  }

  /**
   * Once the title is found, the scan keeps whole pages, each with a newline,
   * up to the first page `q` holding the next title, of which it keeps the part
   * before the next title; when no page holds it, every page up to `last`.
   */
  lemma {:induction false} ScanAfterStart(pages: seq<string>, title: string, next: Option<string>, p: int, q: int, last: int)
    requires 0 <= p <= q && q <= last + 1 && last < |pages|
    requires forall j :: p <= j < q ==> next.None? || ScanFor(pages[j], next.value) == -1
    requires q <= last ==> next.Some? && ScanFor(pages[q], next.value) != -1
    ensures Scan(pages, title, next, p, last, true) ==
      Ok(Lines(pages[p..q]) + if q <= last then pages[q][..ScanFor(pages[q], next.value)] else "")
    decreases q - p
  {
    if p < q {
      ScanAfterStart(pages, title, next, p + 1, q, last);
      assert pages[p..q][1..] == pages[p + 1..q];
      var tail := if q <= last then pages[q][..ScanFor(pages[q], next.value)] else "";
      PrefixOkTwice(pages[p] + "\n", Lines(pages[p + 1..q]), Ok(tail));
      assert (pages[p] + "\n") + (Lines(pages[p + 1..q]) + tail) == (pages[p] + "\n" + Lines(pages[p + 1..q])) + tail;
    } else {
      assert pages[p..q] == [];
      var tail := if q <= last then pages[q][..ScanFor(pages[q], next.value)] else "";
      assert Lines(pages[p..q]) + tail == tail;
    }
  }

  /**
   * The title found first on page `s`: the scan yields that page from the
   * title on, whatever else that page holds, followed by what is collected
   * from the next page on.
   */
  lemma {:induction false} ScanFromTitle(pages: seq<string>, title: string, next: Option<string>, p: int, s: int, last: int)
    requires 0 <= p <= s <= last < |pages|
    requires forall j :: p <= j < s ==> ScanFor(pages[j], title) == -1
    requires ScanFor(pages[s], title) != -1
    ensures Scan(pages, title, next, p, last, false) ==
      PrefixOk(pages[s][ScanFor(pages[s], title)..] + "\n", Scan(pages, title, next, s + 1, last, true))
    decreases s - p
  {
    if p < s {
      ScanFromTitle(pages, title, next, p + 1, s, last);
    }
  }

  /** The collected text of a found title starts with the title itself. */
  lemma ScanStartsWithTitle(pages: seq<string>, title: string, next: Option<string>, p: int, s: int, last: int)
    requires 0 <= p <= s <= last < |pages|
    requires forall j :: p <= j < s ==> ScanFor(pages[j], title) == -1
    requires ScanFor(pages[s], title) != -1
    ensures Scan(pages, title, next, p, last, false).Ok?
    ensures title <= Scan(pages, title, next, p, last, false).value
  {
    ScanFromTitle(pages, title, next, p, s, last);
    ScanOk(pages, title, next, s + 1, last, true);
  }

  // ---------------------------------------------------------------------
  // One section per TOC entry
  // ---------------------------------------------------------------------

  /** `for t in texts_to_remove: text = text.replace(t, "").strip()` */
  function RemoveEach(text: string, removals: seq<string>): string
    decreases |removals|
  {
    if removals == [] then text else RemoveEach(Strip(DeleteAll(text, removals[0])), removals[1..])
  }

  /** The text stored for a section: boilerplate removed, then `clean_text`. */
  function SectionValue(raw: string, removals: seq<string>, specials: seq<string>): string
  {
    Collapse(DeleteEach(RemoveEach(raw, removals), specials))
  }

  lemma {:induction false} RemoveEachEmpty(removals: seq<string>)
    ensures RemoveEach("", removals) == ""
    decreases |removals|
  {
    if removals != [] {
      StripTrimmed("");
      RemoveEachEmpty(removals[1..]);
    }
  }

  lemma {:induction false} DeleteEachEmpty(specials: seq<string>)
    ensures DeleteEach("", specials) == ""
    decreases |specials|
  {
    if specials != [] {
      DeleteEachEmpty(specials[1..]);
    }
  }

  /** The empty text stays empty. */
  lemma SectionValueEmpty(removals: seq<string>, specials: seq<string>)
    ensures SectionValue("", removals, specials) == ""
  {
    RemoveEachEmpty(removals);
    DeleteEachEmpty(specials);
    StripTrimmed("");
  }

  /** The first page of entry `i`'s range (0-based). */
  function FirstPage(toc: seq<TocEntry>, i: nat): int
    requires i < |toc|
  {
    toc[i].page - 1
  }

  /** The last page of entry `i`'s range: the next entry's page, or the last page of the document. */
  function LastPage(toc: seq<TocEntry>, pages: seq<string>, i: nat): int
    requires i < |toc|
  {
    if i + 1 < |toc| then toc[i + 1].page - 1 else |pages| - 1
  }

  /** The title the scan for entry `i` stops at: the next entry's title as it stands in the TOC. */
  function NextTitle(toc: seq<TocEntry>, i: nat): Option<string>
    requires i < |toc|
  {
    if i + 1 < |toc| then Some(toc[i + 1].title) else None
  }

  /** The text collected for entry `i`, before boilerplate removal and cleaning. */
  function RawSection(toc: seq<TocEntry>, pages: seq<string>, i: nat): Result<string>
    requires i < |toc|
  {
    Scan(pages, SectionTitle(toc[i].title), NextTitle(toc, i), FirstPage(toc, i), LastPage(toc, pages, i), false)
  }

  /** The text stored for entry `i`: its collected text, boilerplate removed and cleaned. */
  function EntrySection(toc: seq<TocEntry>, pages: seq<string>, removals: seq<string>, specials: seq<string>, i: nat)
    : Result<string>
    requires i < |toc|
  {
    match RawSection(toc, pages, i)
    case Err(m) => Err(m)
    case Ok(raw) => Ok(SectionValue(raw, removals, specials))
  }

  /** The key and the stored text (or the error) of every TOC entry, in TOC order. */
  function Entries(toc: seq<TocEntry>, pages: seq<string>, removals: seq<string>, specials: seq<string>)
    : seq<(string, Result<string>)>
  {
    seq(|toc|, i requires 0 <= i < |toc| => (SectionTitle(toc[i].title), EntrySection(toc, pages, removals, specials, i)))
  }

  /** `sections[key] = text` for each entry in turn; the first error ends the run. */
  function AssignAll(es: seq<(string, Result<string>)>): Result<Dict<string>>
  {
    if es == [] then Ok([])
    else match AssignAll(es[..|es| - 1])
      case Err(m) => Err(m)
      case Ok(d) =>
        match es[|es| - 1].1
        case Err(m) => Err(m)
        case Ok(v) => Ok(Put(d, es[|es| - 1].0, v))
  }

  /** The sections of all TOC entries. */
  function Sections(toc: seq<TocEntry>, pages: seq<string>, removals: seq<string>, specials: seq<string>)
    : Result<Dict<string>>
  {
    AssignAll(Entries(toc, pages, removals, specials))
  }

  /** The body of the loop over the TOC: scan the pages of entry `i`, then remove boilerplate and clean. */
  method SectionFor(toc: seq<TocEntry>, pages: seq<string>, removals: seq<string>, specials: seq<string>, i: nat)
    returns (r: Result<string>)
    requires i < |toc|
    ensures r == EntrySection(toc, pages, removals, specials, i)
    ensures r.Ok? ==> Normalized(r.value)
  {
    var title := SectionTitle(toc[i].title);
    var first := toc[i].page - 1;
    var last := if i + 1 < |toc| then toc[i + 1].page - 1 else |pages| - 1;
    var next := if i + 1 < |toc| then Some(toc[i + 1].title) else None;
    var raw := ScanPages(pages, title, next, first, last);
    if raw.Err? {
      return Err(raw.msg);
    }
    var text := raw.value;
    for j := 0 to |removals|
      invariant RemoveEach(text, removals[j..]) == RemoveEach(raw.value, removals)
    {
      text := Strip(DeleteAll(text, removals[j]));
    }
    var cleaned := CleanText(text, specials);
    return Ok(cleaned);
  }

  /**
   * `structure_raw_text_by_toc_no_numbering` with the cleaned page texts as
   * `pages`, `texts_to_remove` as `removals` and the configured special
   * characters as `specials`.
   */
  method StructureByToc(toc: seq<TocEntry>, pages: seq<string>, removals: seq<string>, specials: seq<string>)
    returns (r: Result<Dict<string>>)
    ensures r == Sections(toc, pages, removals, specials)
  {
    ghost var es := Entries(toc, pages, removals, specials);
    var sections: Dict<string> := [];
    for i := 0 to |toc|
      invariant AssignAll(es[..i]) == Ok(sections)
    {
      var text := SectionFor(toc, pages, removals, specials, i);
      assert es[..i + 1][..i] == es[..i];
      if text.Err? {
        AssignAllErrorStays(es, i + 1);
        return Err(text.msg);
      }
      sections := Put(sections, SectionTitle(toc[i].title), text.value);
    }
    assert es[..|toc|] == es;
    return Ok(sections);
  }

  /** An error in one entry is the error of the whole run. */
  lemma {:induction false} AssignAllErrorStays(es: seq<(string, Result<string>)>, i: nat)
    requires i <= |es| && AssignAll(es[..i]).Err?
    ensures AssignAll(es) == AssignAll(es[..i])
    decreases |es|
  {
    if i < |es| {
      assert es[..|es| - 1][..i] == es[..i];
      AssignAllErrorStays(es[..|es| - 1], i);
    } else {
      assert es[..i] == es;
    }
  }

  /** The keys are those of the entries, each once, and the run fails exactly when some entry failed. */
  lemma {:induction false} AssignAllKeys(es: seq<(string, Result<string>)>)
    ensures AssignAll(es).Ok? <==> forall i :: 0 <= i < |es| ==> es[i].1.Ok?
    ensures AssignAll(es).Ok? ==> UniqueKeys(AssignAll(es).value)
    ensures AssignAll(es).Ok? ==> forall k :: k in Keys(AssignAll(es).value) <==> k in Keys(es)
  {
    if es != [] {
      var init := es[..|es| - 1];
      AssignAllKeys(init);
      assert Keys(es) == Keys(init) + [es[|es| - 1].0];
      assert forall i :: 0 <= i < |init| ==> init[i] == es[i];
    }
  }

  /** Every stored text is the text of some entry. */
  lemma {:induction false} AssignAllValues(es: seq<(string, Result<string>)>)
    requires AssignAll(es).Ok?
    ensures forall x :: x in Values(AssignAll(es).value) ==> exists i :: 0 <= i < |es| && es[i].1 == Ok(x)
  {
    if es != [] {
      var init := es[..|es| - 1];
      AssignAllValues(init);
      var d := AssignAll(init).value;
      PutValues(d, es[|es| - 1].0, es[|es| - 1].1.value);
      forall x | x in Values(AssignAll(es).value) ensures exists i :: 0 <= i < |es| && es[i].1 == Ok(x) {
        if x != es[|es| - 1].1.value {
          var i :| 0 <= i < |init| && init[i].1 == Ok(x);
          assert es[i] == init[i];
        }
      }
    }
  }

  /** An entry whose key no later entry shares keeps its own text. */
  lemma {:induction false} AssignAllLastWins(es: seq<(string, Result<string>)>, i: nat)
    requires i < |es| && AssignAll(es).Ok?
    requires forall j :: i < j < |es| ==> es[j].0 != es[i].0
    ensures es[i].1.Ok? && Get(AssignAll(es).value, es[i].0) == Some(es[i].1.value)
  {
    var init := es[..|es| - 1];
    if i < |es| - 1 {
      assert init[i] == es[i];
      AssignAllLastWins(init, i);
    }
  }

  /**
   * The result of `structure_raw_text_by_toc_no_numbering`: one key per
   * distinct TOC title without its trailing numbering, every text in normal
   * form (single spaces, none at the ends).
   */
  lemma SectionsShape(toc: seq<TocEntry>, pages: seq<string>, removals: seq<string>, specials: seq<string>)
    requires Sections(toc, pages, removals, specials).Ok?
    ensures var d := Sections(toc, pages, removals, specials).value;
      && UniqueKeys(d)
      && (forall k :: k in Keys(d) <==> exists i :: 0 <= i < |toc| && k == SectionTitle(toc[i].title))
      && (forall x :: x in Values(d) ==> Normalized(x))
  {
    var es := Entries(toc, pages, removals, specials);
    AssignAllKeys(es);
    AssignAllValues(es);
    var d := AssignAll(es).value;
    forall k ensures k in Keys(d) <==> exists i :: 0 <= i < |toc| && k == SectionTitle(toc[i].title) {
      if k in Keys(es) {
        var i :| 0 <= i < |es| && Keys(es)[i] == k;
      }
      if exists i :: 0 <= i < |toc| && k == SectionTitle(toc[i].title) {
        var i :| 0 <= i < |toc| && k == SectionTitle(toc[i].title);
        assert Keys(es)[i] == k;
      }
    }
    forall x | x in Values(d) ensures Normalized(x) {
      var i :| 0 <= i < |es| && es[i].1 == Ok(x);
      EntrySectionNormalized(toc, pages, removals, specials, i);
    }
  }

  /** Every stored text is in normal form: single spaces, none at the ends. */
  lemma EntrySectionNormalized(toc: seq<TocEntry>, pages: seq<string>, removals: seq<string>, specials: seq<string>, i: nat)
    requires i < |toc| && EntrySection(toc, pages, removals, specials, i).Ok?
    ensures Normalized(EntrySection(toc, pages, removals, specials, i).value)
  {
    var raw := RawSection(toc, pages, i).value;
    CollapseNormalized(DeleteEach(RemoveEach(raw, removals), specials));
  }

  /**
   * An entry whose title appears on no page of its range, and whose title no
   * later entry shares, is stored with the empty text.
   */
  lemma SectionNeverFound(toc: seq<TocEntry>, pages: seq<string>, removals: seq<string>, specials: seq<string>, i: nat)
    requires i < |toc| && InDocument(pages, FirstPage(toc, i), LastPage(toc, pages, i))
    requires forall q :: FirstPage(toc, i) <= q <= LastPage(toc, pages, i) ==>
      ScanFor(pages[q], SectionTitle(toc[i].title)) == -1
    requires forall j :: i < j < |toc| ==> SectionTitle(toc[j].title) != SectionTitle(toc[i].title)
    requires Sections(toc, pages, removals, specials).Ok?
    ensures Get(Sections(toc, pages, removals, specials).value, SectionTitle(toc[i].title)) == Some("")
  {
    ScanNeverFound(pages, SectionTitle(toc[i].title), NextTitle(toc, i), FirstPage(toc, i), LastPage(toc, pages, i));
    SectionValueEmpty(removals, specials);
    AssignAllLastWins(Entries(toc, pages, removals, specials), i);
  }
}
