/**
 * Cleaning of title text: `clean_text` (deleting configured special strings
 * and normalising whitespace) and `clean_title_suffix` (dropping a trailing
 * run of capital letters and digits, such as a running header glued to a
 * TOC title).
 */
module Titles {
  import opened Results
  import opened Text

  // ---------------------------------------------------------------------
  // clean_text
  // ---------------------------------------------------------------------

  /** `text.replace(sp, "")` for each configured special string, first to last. */
  function DeleteEach(text: string, specials: seq<string>): string
    decreases |specials|
  {
    if specials == [] then text else DeleteEach(DeleteAll(text, specials[0]), specials[1..])
  }

  /** A character absent from the text stays absent whatever is deleted. */
  lemma {:induction false} DeleteEachKeepsAbsent(text: string, specials: seq<string>, c: char)
    requires c !in text
    ensures c !in DeleteEach(text, specials)
    decreases |specials|
  {
    if specials != [] {
      DeleteAllChars(text, specials[0], c);
      DeleteEachKeepsAbsent(DeleteAll(text, specials[0]), specials[1..], c);
    }
  }

  /** A configured special character does not survive the deletions. */
  lemma {:induction false} DeleteEachRemoves(text: string, specials: seq<string>, c: char)
    requires [c] in specials
    ensures c !in DeleteEach(text, specials)
    decreases |specials|
  {
    if specials[0] == [c] {
      DeleteCharRemovesIt(text, c);
      DeleteEachKeepsAbsent(DeleteAll(text, [c]), specials[1..], c);
    } else {
      DeleteEachRemoves(DeleteAll(text, specials[0]), specials[1..], c);
    }
  }

  /**
   * `clean_text` with the configured `special_characters` as `specials`: the
   * strings are deleted one after another, then whitespace is collapsed.
   * The result is in normal form and holds none of the configured
   * single characters other than the space.
   */
  method CleanText(text: string, specials: seq<string>) returns (r: string)
    ensures r == Collapse(DeleteEach(text, specials))
    ensures Normalized(r)
    ensures forall c :: [c] in specials && c != ' ' ==> c !in r
  {
    var t := text;
    for i := 0 to |specials|
      invariant DeleteEach(t, specials[i..]) == DeleteEach(text, specials)
    {
      t := DeleteAll(t, specials[i]);
    }
    r := Collapse(t);
    CollapseNormalized(t);
    forall c | [c] in specials && c != ' ' ensures c !in r {
      DeleteEachRemoves(text, specials, c);
      CollapseChars(t, c);
    }
  }

  // ---------------------------------------------------------------------
  // clean_title_suffix: the regex `(.*?)([A-Z]+\s*|\d+\s*)*$`
  // ---------------------------------------------------------------------

  predicate IsUpperOrDigit(c: char) { IsUpper(c) || IsDigit(c) }

  /**
   * `u` is matched by `([A-Z]+\s*|\d+\s*)*`: empty, or it starts with a
   * capital letter or digit and holds nothing but those and whitespace.
   */
  predicate SuffixRun(u: string)
  {
    u == [] || (IsUpperOrDigit(u[0]) && forall j :: 0 <= j < |u| ==> IsUpperOrDigit(u[j]) || IsSpace(u[j]))
  }

  /** The suffix group followed by `$` matches at index `k`: up to the end, or up to a final newline. */
  predicate SuffixMatchesAt(t: string, k: nat)
    requires k <= |t|
  {
    SuffixRun(t[k..]) || (k < |t| && t[|t| - 1] == '\n' && SuffixRun(t[k..|t| - 1]))
  }

  /**
   * The lazy `.*?` tries the end of group 1 at `k`, `k + 1`, … and cannot
   * step over a newline: the first index from `k` where the rest matches.
   */
  function SuffixCut(t: string, k: nat): (r: Option<nat>)
    requires k <= |t|
    ensures r.Some? ==> k <= r.value <= |t|
    decreases |t| - k
  {
    if SuffixMatchesAt(t, k) then Some(k)
    else if k == |t| || t[k] == '\n' then None
    else SuffixCut(t, k + 1)
  }

  /** The cut is the first index from `k` where the suffix group matches, with no newline before it. */
  lemma {:induction false} SuffixCutSpec(t: string, k: nat)
    requires k <= |t|
    ensures var r := SuffixCut(t, k);
      r.Some? ==> SuffixMatchesAt(t, r.value) && '\n' !in t[k..r.value]
    ensures var r := SuffixCut(t, k);
      r.Some? ==> forall j :: k <= j < r.value ==> !SuffixMatchesAt(t, j)
    decreases |t| - k
  {
    if !SuffixMatchesAt(t, k) && k < |t| && t[k] != '\n' {
      SuffixCutSpec(t, k + 1);
      var r := SuffixCut(t, k + 1);
      if r.Some? {
        assert t[k..r.value] == [t[k]] + t[k + 1..r.value];
      }
    }
  }

  /** `clean_title_suffix`: group 1 of the match, stripped; the title itself when nothing matches. */
  function CleanTitleSuffix(t: string): string
  {
    match SuffixCut(t, 0)
    case Some(k) => Strip(t[..k])
    case None => t
  }

  /** The pattern always matches a title without a newline before its last character. */
  lemma {:induction false} SuffixCutFound(t: string, k: nat)
    requires k <= |t|
    requires forall j :: k <= j < |t| - 1 ==> t[j] != '\n'
    ensures SuffixCut(t, k).Some?
    decreases |t| - k
  {
    if !SuffixMatchesAt(t, k) {
      assert t[|t|..] == [];
      if k == |t| - 1 && t[k] == '\n' {
        assert t[k..|t| - 1] == [];
      }
      SuffixCutFound(t, k + 1);
    }
  }

  /** A capital letter or digit followed by whitespace extends a suffix run to the left. */
  lemma SuffixRunExtend(u: string, v: string)
    requires |u| > 0 && IsUpperOrDigit(u[0]) && AllSpace(u[1..])
    requires SuffixRun(v)
    ensures SuffixRun(u + v)
  {
    var w := u + v;
    forall j | 0 <= j < |w| ensures IsUpperOrDigit(w[j]) || IsSpace(w[j]) {
      if 0 < j < |u| {
        assert u[1..][j - 1] == w[j];
      } else if j >= |u| {
        assert w[j] == v[j - |u|];
      }
    }
  }

  /** Where the suffix group matches, the rest of the title is capital letters, digits and whitespace. */
  lemma MatchTail(t: string, k: nat)
    requires k <= |t| && SuffixMatchesAt(t, k)
    ensures forall j :: k <= j < |t| ==> IsUpperOrDigit(t[j]) || IsSpace(t[j])
  {
    forall j | k <= j < |t| ensures IsUpperOrDigit(t[j]) || IsSpace(t[j]) {
      if SuffixRun(t[k..]) {
        assert t[k..][j - k] == t[j];
      } else if j < |t| - 1 {
        assert t[k..|t| - 1][j - k] == t[j];
      }
    }
  }

  /** A match at `k` preceded by a capital letter or digit and whitespace gives a match earlier. */
  lemma MatchEarlier(t: string, k: nat, b: nat)
    requires 0 < b <= k <= |t| && SuffixMatchesAt(t, k)
    requires IsUpperOrDigit(t[b - 1]) && AllSpace(t[b..k])
    ensures SuffixMatchesAt(t, b - 1)
  {
    var u := t[b - 1..k];
    assert u[1..] == t[b..k];
    if SuffixRun(t[k..]) {
      SuffixRunExtend(u, t[k..]);
      assert t[b - 1..] == u + t[k..];
    } else {
      SuffixRunExtend(u, t[k..|t| - 1]);
      assert t[b - 1..|t| - 1] == u + t[k..|t| - 1];
    }
  }

  /** The stripped group 1 does not end with a capital letter or digit: the match would have ended it earlier. */
  lemma CutEndsClean(t: string)
    requires SuffixCut(t, 0).Some?
    ensures var r := CleanTitleSuffix(t); r == [] || !IsUpperOrDigit(r[|r| - 1])
  {
    var k := SuffixCut(t, 0).value;
    SuffixCutSpec(t, 0);
    var p := t[..k];
    StripSpec(p);
    var b := StripEnd(p);
    if SpaceEnd(p, 0) < b && IsUpperOrDigit(p[b - 1]) {
      assert AllSpace(t[b..k]) by {
        forall i | 0 <= i < k - b ensures IsSpace(t[b..k][i]) {
          assert t[b..k][i] == p[b + i];
        }
      }
      MatchEarlier(t, k, b);
      assert false;
    }
  }

  /** When the pattern matches, the result has no whitespace at its ends and no capital letter or digit at its end. */
  lemma CleanTitleSuffixTrimmed(t: string)
    requires SuffixCut(t, 0).Some?
    ensures var r := CleanTitleSuffix(t);
      r == [] || (!IsSpace(r[0]) && !IsSpace(r[|r| - 1]) && !IsUpperOrDigit(r[|r| - 1]))
  {
    CutEndsClean(t);
    StripSpec(t[..SuffixCut(t, 0).value]);
  }

  /**
   * When the pattern matches, the result is a piece of the title with only
   * whitespace before it and only capital letters, digits and whitespace
   * after it.
   */
  lemma CleanTitleSuffixPiece(t: string)
    requires SuffixCut(t, 0).Some?
    ensures var r := CleanTitleSuffix(t);
      exists a :: 0 <= a && a + |r| <= |t| && r == t[a..a + |r|] && AllSpace(t[..a])
        && forall j :: a + |r| <= j < |t| ==> IsUpperOrDigit(t[j]) || IsSpace(t[j])
  {
    var k := SuffixCut(t, 0).value;
    SuffixCutSpec(t, 0);
    MatchTail(t, k);
    var p := t[..k];
    StripSpec(p);
    var a, b := SpaceEnd(p, 0), StripEnd(p);
    StrippedPrefix(t, k, a, b);
    PieceWitness(t, a, b);
  }

  /** Stripping the prefix `t[..k]` to `t[a..b]`, when only capitals, digits and whitespace follow `k`. */
  lemma StrippedPrefix(t: string, k: nat, a: nat, b: nat)
    requires a <= b <= k <= |t|
    requires forall i :: 0 <= i < a ==> IsSpace(t[..k][i])
    requires forall i :: b <= i < k ==> IsSpace(t[..k][i])
    requires forall j :: k <= j < |t| ==> IsUpperOrDigit(t[j]) || IsSpace(t[j])
    ensures t[..k][a..b] == t[a..b] && AllSpace(t[..a])
    ensures forall j :: b <= j < |t| ==> IsUpperOrDigit(t[j]) || IsSpace(t[j])
  {
    var p := t[..k];
    forall i | 0 <= i < a ensures IsSpace(t[..a][i]) {
      assert t[..a][i] == p[i];
    }
    forall j | b <= j < k ensures IsSpace(t[j]) {
      assert t[j] == p[j];
    }
  }

  /** The piece `t[a..b]`, with its surroundings, witnesses the existential above. */
  lemma PieceWitness(t: string, a: nat, b: nat)
    requires a <= b <= |t| && AllSpace(t[..a])
    requires forall j :: b <= j < |t| ==> IsUpperOrDigit(t[j]) || IsSpace(t[j])
    ensures var r := t[a..b];
      exists a' :: 0 <= a' && a' + |r| <= |t| && r == t[a'..a' + |r|] && AllSpace(t[..a'])
        && forall j :: a' + |r| <= j < |t| ==> IsUpperOrDigit(t[j]) || IsSpace(t[j])
  {
    assert a + |t[a..b]| == b;
  }

  /** The result of a match holds no newline, since `.*?` cannot cross one. */
  lemma CutHasNoNewline(t: string)
    requires SuffixCut(t, 0).Some?
    ensures '\n' !in CleanTitleSuffix(t)
  {
    SuffixCutSpec(t, 0);
    StripChars(t[..SuffixCut(t, 0).value], '\n');
  }

  /** Cleaning an already cleaned title changes nothing. */
  lemma CleanTitleSuffixIdempotent(t: string)
    ensures CleanTitleSuffix(CleanTitleSuffix(t)) == CleanTitleSuffix(t)
  {
    if SuffixCut(t, 0).Some? {
      var r := CleanTitleSuffix(t);
      CleanTitleSuffixTrimmed(t);
      CutHasNoNewline(t);
      SuffixCutFound(r, 0);
      var k := SuffixCut(r, 0).value;
      SuffixCutSpec(r, 0);
      if k < |r| {
        MatchTail(r, k);
        assert false;
      }
      assert r[..k] == r;
      StripTrimmed(r);
    }
  }
}
