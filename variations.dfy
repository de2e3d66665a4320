/**
 * `generate_title_variations`: the spellings of a TOC title that are
 * searched for in the page text. Every choice of keeping or dropping the
 * space between two words gives a variant; each variant then gets four
 * regex patterns that put a numbering of depth 1 to 4 in front of it.
 */
module Variations {
  import opened Results
  import opened Text

  // ---------------------------------------------------------------------
  // title.split()
  // ---------------------------------------------------------------------

  /** End of the run of non-whitespace characters that starts at `i`. */
  function WordEnd(s: string, i: nat): (e: nat)
    requires i <= |s|
    ensures i <= e <= |s| && forall k :: i <= k < e ==> !IsSpace(s[k])
    ensures e == |s| || IsSpace(s[e])
    decreases |s| - i
  {
    if i < |s| && !IsSpace(s[i]) then WordEnd(s, i + 1) else i
  }

  /** `s[i:].split()`: the maximal runs of non-whitespace characters, in order. */
  function WordsFrom(s: string, i: nat): seq<string>
    requires i <= |s|
    decreases |s| - i
  {
    var j := SpaceEnd(s, i);
    if j == |s| then [] else [s[j..WordEnd(s, j)]] + WordsFrom(s, WordEnd(s, j))
  }

  function Words(s: string): seq<string>
  {
    WordsFrom(s, 0)
  }

  /** A word is not empty and holds no whitespace. */
  predicate IsWord(w: string)
  {
    w != [] && forall k :: 0 <= k < |w| ==> !IsSpace(w[k])
  }

  lemma {:induction false} WordsAreWords(s: string, i: nat)
    requires i <= |s|
    ensures forall k :: 0 <= k < |WordsFrom(s, i)| ==> IsWord(WordsFrom(s, i)[k])
    decreases |s| - i
  {
    var j := SpaceEnd(s, i);
    if j < |s| {
      var e := WordEnd(s, j);
      WordsAreWords(s, e);
      var w := s[j..e];
      assert forall k :: 0 <= k < |w| ==> w[k] == s[j + k];
    }
  }

  /** There are no words exactly when the title is all whitespace. */
  lemma NoWords(s: string)
    ensures Words(s) == [] <==> AllSpace(s)
  {
    assert AllSpace(s) <== SpaceEnd(s, 0) == |s|;
  }

  /** The words of `t` from position `i` on, joined by single spaces, give back the rest of `t`. */
  predicate JoinsFrom(t: string, i: nat)
    requires i <= |t|
  {
    WordsFrom(t, i) != [] && Join(WordsFrom(t, i), ' ') == t[i..]
  }

  /** In a string with single spaces between words, the words from a word start joined by spaces give the rest of the string. */
  lemma {:induction false} WordsJoin(t: string, i: nat)
    requires Normalized(t) && i < |t| && !IsSpace(t[i])
    ensures JoinsFrom(t, i)
    decreases |t| - i
  {
    var e := WordEnd(t, i);
    if e < |t| {
      NextWord(t, e);
      WordsJoin(t, e + 1);
      WordsJoinStep(t, i, e);
    } else {
      WordsJoinLast(t, i);
    }
  }

  /** The last word of a string. */
  lemma WordsJoinLast(t: string, i: nat)
    requires i < |t| && !IsSpace(t[i]) && WordEnd(t, i) == |t|
    ensures JoinsFrom(t, i)
  {
    var w := t[i..WordEnd(t, i)];
    assert SpaceEnd(t, i) == i;
    assert WordsFrom(t, |t|) == [];
    assert WordsFrom(t, i) == [w] + [];
    assert w == t[i..];
  }

  /** One word, one space, and the rest already joined. */
  lemma WordsJoinStep(t: string, i: nat, e: nat)
    requires Normalized(t) && i < e < |t| && !IsSpace(t[i]) && e == WordEnd(t, i)
    requires e + 1 <= |t| && JoinsFrom(t, e + 1)
    ensures JoinsFrom(t, i)
  {
    var rest := WordsFrom(t, e + 1);
    WordsStep(t, i, e);
    JoinFront(t[i..e], rest, ' ');
    SliceAround(t, i, e);
  }

  /** The words from a word start are that word followed by the words after the single space behind it. */
  lemma WordsStep(t: string, i: nat, e: nat)
    requires Normalized(t) && i < e < |t| && !IsSpace(t[i]) && e == WordEnd(t, i)
    ensures t[e] == ' ' && WordsFrom(t, i) == [t[i..e]] + WordsFrom(t, e + 1)
  {
    SingleSpace(t, e);
    assert SpaceEnd(t, i) == i;
  }

  /** Joining a word in front of a non-empty list. */
  lemma JoinFront(w: string, rest: seq<string>, c: char)
    requires rest != []
    ensures Join([w] + rest, c) == w + [c] + Join(rest, c)
  {
    assert ([w] + rest)[1..] == rest;
  }

  /** A suffix split around one position. */
  lemma SliceAround(t: string, i: nat, e: nat)
    requires i <= e < |t|
    ensures t[i..] == t[i..e] + [t[e]] + t[e + 1..]
  {
  }

  /** In a normalised string a space is a single blank followed by a word. */
  lemma NextWord(t: string, e: nat)
    requires Normalized(t) && e < |t| && IsSpace(t[e])
    ensures t[e] == ' ' && e + 1 < |t| && !IsSpace(t[e + 1])
  {
    assert NoDoubleSpaceAt(t, e);
  }

  /** In a normalised string a space is followed by the next word. */
  lemma SingleSpace(t: string, e: nat)
    requires Normalized(t) && e < |t| && IsSpace(t[e])
    ensures t[e] == ' ' && e + 1 < |t| && !IsSpace(t[e + 1])
    ensures WordsFrom(t, e) == WordsFrom(t, e + 1)
  {
    assert NoDoubleSpaceAt(t, e);
    assert SpaceEnd(t, e) == e + 1 && SpaceEnd(t, e + 1) == e + 1;
  }

  /** A normalised title is its words joined by single spaces. */
  lemma WordsJoinNormalized(t: string)
    requires Normalized(t) && t != []
    ensures Words(t) != [] && Join(Words(t), ' ') == t
  {
    WordsJoin(t, 0);
    assert t[0..] == t;
  }

  // ---------------------------------------------------------------------
  // The spacing variants
  // ---------------------------------------------------------------------

  function Pow2(n: nat): (p: nat)
    ensures p >= 1
  {
    if n == 0 then 1 else 2 * Pow2(n - 1)
  }

  /** Every tuple of `r` with `b` put in front. */
  function Prefixed(b: bool, r: seq<seq<bool>>): (q: seq<seq<bool>>)
    ensures |q| == |r| && forall k :: 0 <= k < |r| ==> q[k] == [b] + r[k]
  {
    seq(|r|, k requires 0 <= k < |r| => [b] + r[k])
  }

  /** `product([True, False], repeat=n)`: all `n`-tuples, the first position varying slowest, `True` before `False`. */
  function Spacings(n: nat): (r: seq<seq<bool>>)
    ensures |r| == Pow2(n)
    ensures forall k :: 0 <= k < |r| ==> |r[k]| == n
  {
    if n == 0 then [[]]
    else Prefixed(true, Spacings(n - 1)) + Prefixed(false, Spacings(n - 1))
  }

  function Constant(b: bool, n: nat): (r: seq<bool>)
    ensures |r| == n && forall k :: 0 <= k < n ==> r[k] == b
  {
    if n == 0 then [] else [b] + Constant(b, n - 1)
  }

  /** The first tuple keeps every space and the last drops every space. */
  lemma SpacingsEnds(n: nat)
    ensures var r := Spacings(n); r[0] == Constant(true, n) && r[|r| - 1] == Constant(false, n)
  {
    SpacingsFirst(n);
    SpacingsLast(n);
  }

  lemma {:induction false} SpacingsFirst(n: nat)
    ensures Spacings(n)[0] == Constant(true, n)
  {
    if n > 0 {
      SpacingsFirst(n - 1);
      var r := Spacings(n - 1);
      var left := Prefixed(true, r);
      assert Spacings(n)[0] == left[0];
      assert left[0] == [true] + r[0];
      assert Constant(true, n) == [true] + Constant(true, n - 1);
    }
  }

  lemma {:induction false} SpacingsLast(n: nat)
    ensures var r := Spacings(n); r[|r| - 1] == Constant(false, n)
  {
    if n > 0 {
      SpacingsLast(n - 1);
      var r := Spacings(n - 1);
      PrefixedLast(Prefixed(true, r), r);
      assert Constant(false, n) == [false] + Constant(false, n - 1);
    }
  }

  /** The last tuple of a doubled list is the last tuple of its second half. */
  lemma PrefixedLast(left: seq<seq<bool>>, r: seq<seq<bool>>)
    requires r != []
    ensures var all := left + Prefixed(false, r); all[|all| - 1] == [false] + r[|r| - 1]
  {
    var right := Prefixed(false, r);
    assert (left + right)[|left + right| - 1] == right[|right| - 1];
  }

  /** The tuples are pairwise different. */
  lemma {:induction false} SpacingsDistinct(n: nat)
    ensures forall a, b :: 0 <= a < b < Pow2(n) ==> Spacings(n)[a] != Spacings(n)[b]
  {
    if n > 0 {
      SpacingsDistinct(n - 1);
      PrefixedDistinct(Spacings(n - 1));
    }
  }

  /** Putting `true` in front of one copy and `false` in front of another keeps distinct tuples distinct. */
  lemma PrefixedDistinct(r: seq<seq<bool>>)
    requires forall a, b :: 0 <= a < b < |r| ==> r[a] != r[b]
    ensures var all := Prefixed(true, r) + Prefixed(false, r);
      forall a, b :: 0 <= a < b < |all| ==> all[a] != all[b]
  {
    var all := Prefixed(true, r) + Prefixed(false, r);
    var h := |r|;
    forall a, b | 0 <= a < b < |all| ensures all[a] != all[b] {
      var x, y := all[a], all[b];
      if b < h {
        assert x[1..] == r[a] && y[1..] == r[b];
      } else if a >= h {
        assert x[1..] == r[a - h] && y[1..] == r[b - h];
      } else {
        assert x[0] != y[0];
      }
    }
  }

  /**
   * The title built from `words`, with a space before word `i + 1` exactly
   * where `keep[i]` holds.
   */
  function Spaced(words: seq<string>, keep: seq<bool>): string
    requires |words| == |keep| + 1
    decreases |keep|
  {
    if keep == [] then words[0]
    else words[0] + (if keep[0] then " " else "") + Spaced(words[1..], keep[1..])
  }

  /** Keeping every space gives the words joined by single spaces. */
  lemma {:induction false} SpacedAll(words: seq<string>)
    requires |words| >= 1
    ensures Spaced(words, Constant(true, |words| - 1)) == Join(words, ' ')
    decreases |words|
  {
    if |words| > 1 {
      SpacedAll(words[1..]);
      assert Constant(true, |words| - 1)[1..] == Constant(true, |words| - 2);
    }
  }

  /** `s` with its space characters removed. */
  function Unspaced(s: string): (r: string)
  {
    if s == [] then [] else (if s[0] == ' ' then [] else [s[0]]) + Unspaced(s[1..])
  }

  lemma {:induction false} UnspacedConcat(a: string, b: string)
    ensures Unspaced(a + b) == Unspaced(a) + Unspaced(b)
    decreases |a|
  {
    if a != [] {
      UnspacedConcat(a[1..], b);
      assert (a + b)[1..] == a[1..] + b;
    } else {
      assert a + b == b;
    }
  }

  /** The words run together. */
  function Concat(words: seq<string>): string
  {
    if words == [] then "" else words[0] + Concat(words[1..])
  }

  /** Whatever spaces are kept, removing them leaves the words run together. */
  lemma {:induction false} SpacedUnspaced(words: seq<string>, keep: seq<bool>)
    requires |words| == |keep| + 1
    requires forall k :: 0 <= k < |words| ==> ' ' !in words[k]
    ensures Unspaced(Spaced(words, keep)) == Concat(words)
    decreases |keep|
  {
    NoSpaceUnspaced(words[0]);
    if keep == [] {
      assert words[1..] == [];
      assert Concat(words) == words[0] + Concat([]) == words[0];
    } else {
      SpacedUnspaced(words[1..], keep[1..]);
      var sep: string := if keep[0] then " " else "";
      var rest := Spaced(words[1..], keep[1..]);
      assert Unspaced(sep) == [];
      UnspacedConcat(words[0] + sep, rest);
      UnspacedConcat(words[0], sep);
      assert Unspaced(words[0] + sep) == words[0];
      assert Spaced(words, keep) == (words[0] + sep) + rest;
    }
  }

  lemma {:induction false} NoSpaceUnspaced(s: string)
    requires ' ' !in s
    ensures Unspaced(s) == s
  {
    if s != [] {
      assert ' ' !in s[1..];
      NoSpaceUnspaced(s[1..]);
    }
  }

  // ---------------------------------------------------------------------
  // generate_title_variations
  // ---------------------------------------------------------------------

  /** `'.'.join(['\\d+'] * depth)` */
  function NumberPattern(depth: nat): string
    requires depth >= 1
  {
    if depth == 1 then "\\d+" else NumberPattern(depth - 1) + ".\\d+"
  }

  /** The spacing variants of a title with the words `words`, in `product` order. */
  function Bases(words: seq<string>): (bs: seq<string>)
    requires |words| >= 1
    ensures |bs| == Pow2(|words| - 1)
  {
    var sp := Spacings(|words| - 1);
    seq(|sp|, k requires 0 <= k < |sp| => Spaced(words, sp[k]))
  }

  /** Four numbered patterns per variant, the variants in order and the depths 1 to 4 within each. */
  function Numbered(bases: seq<string>, escape: string -> string): (ns: seq<string>)
    ensures |ns| == 4 * |bases|
  {
    seq(4 * |bases|, k requires 0 <= k < 4 * |bases| =>
      NumberPattern(k % 4 + 1) + "\\s*" + escape(bases[k / 4]))
  }

  /**
   * `generate_title_variations`, with `re.escape` given as `escape`. A
   * title without words makes `product` reject its negative `repeat`.
   */
  function TitleVariations(title: string, escape: string -> string): Result<seq<string>>
  {
    var words := Words(title);
    if words == [] then Err("repeat argument cannot be negative")
    else
      var bases := Bases(words);
      Ok(bases + Numbered(bases, escape))
  }

  /** `product` rejects the title exactly when it has no words, that is, when it is all whitespace. */
  lemma VariationsError(title: string, escape: string -> string)
    ensures TitleVariations(title, escape).Err? <==> AllSpace(title)
  {
    NoWords(title);
  }

  /**
   * A title with `w` words has `2^(w-1)` spacing variants, followed by the
   * four numbered patterns of each variant in turn.
   */
  lemma VariationsLayout(title: string, escape: string -> string)
    requires !AllSpace(title)
    ensures TitleVariations(title, escape).Ok?
    ensures var vs := TitleVariations(title, escape).value; var n := Pow2(|Words(title)| - 1);
      && |vs| == 5 * n
      && forall j, d :: 0 <= j < n && 1 <= d <= 4 ==>
           vs[n + 4 * j + d - 1] == NumberPattern(d) + "\\s*" + escape(vs[j])
  {
    NoWords(title);
    NumberedLayout(Bases(Words(title)), escape);
  }

  /** The numbered patterns follow the variants, four per variant, in the variants' order. */
  lemma NumberedLayout(bases: seq<string>, escape: string -> string)
    ensures var vs := bases + Numbered(bases, escape); var n := |bases|;
      && |vs| == 5 * n
      && forall j, d :: 0 <= j < n && 1 <= d <= 4 ==>
           vs[n + 4 * j + d - 1] == NumberPattern(d) + "\\s*" + escape(vs[j])
  {
    var vs := bases + Numbered(bases, escape);
    var n := |bases|;
    forall j, d | 0 <= j < n && 1 <= d <= 4
      ensures vs[n + 4 * j + d - 1] == NumberPattern(d) + "\\s*" + escape(vs[j])
    {
      DepthIndex(j, d);
      assert vs[n + 4 * j + d - 1] == Numbered(bases, escape)[4 * j + d - 1];
    }
  }

  lemma DepthIndex(j: nat, d: nat)
    requires 1 <= d <= 4
    ensures (4 * j + d - 1) / 4 == j && (4 * j + d - 1) % 4 == d - 1
  {
  }

  /** The first variant keeps every space between the words and the last keeps none. */
  lemma VariationsEnds(title: string, escape: string -> string)
    requires !AllSpace(title)
    ensures TitleVariations(title, escape).Ok?
    ensures var vs := TitleVariations(title, escape).value; var words := Words(title);
      && vs[0] == Join(words, ' ')
      && vs[Pow2(|words| - 1) - 1] == Concat(words)
  {
    NoWords(title);
    var words := Words(title);
    var bases := Bases(words);
    BasesEnds(words);
    FrontOfConcat(bases, Numbered(bases, escape));
  }

  /** Indexing into the first part of a concatenation. */
  lemma FrontOfConcat(a: seq<string>, b: seq<string>)
    requires a != []
    ensures (a + b)[0] == a[0] && (a + b)[|a| - 1] == a[|a| - 1]
  {
  }

  /** The variant that keeps every space and the one that keeps none. */
  lemma BasesEnds(words: seq<string>)
    requires |words| >= 1
    ensures var bs := Bases(words); bs[0] == Join(words, ' ') && bs[|bs| - 1] == Concat(words)
  {
    var m := |words| - 1;
    var sp := Spacings(m);
    SpacingsEnds(m);
    BasesAt(words, 0);
    BasesAt(words, |sp| - 1);
    KeptAs(words, sp[0], Constant(true, m));
    KeptAs(words, sp[|sp| - 1], Constant(false, m));
    SpacedAll(words);
    NoneKept(words);
  }

  lemma KeptAs(words: seq<string>, a: seq<bool>, b: seq<bool>)
    requires |words| == |a| + 1 && a == b
    ensures Spaced(words, a) == Spaced(words, b)
  {
  }

  lemma BasesAt(words: seq<string>, k: nat)
    requires |words| >= 1 && k < |Spacings(|words| - 1)|
    ensures Bases(words)[k] == Spaced(words, Spacings(|words| - 1)[k])
  {
  }

  /** Dropping every space runs the words together. */
  lemma {:induction false} NoneKept(words: seq<string>)
    requires |words| >= 1
    ensures Spaced(words, Constant(false, |words| - 1)) == Concat(words)
    decreases |words|
  {
    if |words| > 1 {
      NoneKept(words[1..]);
      assert Constant(false, |words| - 1)[1..] == Constant(false, |words| - 2);
    } else {
      assert Concat(words) == words[0] + Concat([]);
    }
  }

  /** Each spacing variant is the title's words with some of the spaces between them. */
  lemma BasesSameWords(words: seq<string>)
    requires |words| >= 1 && forall k :: 0 <= k < |words| ==> IsWord(words[k])
    ensures forall j :: 0 <= j < |Bases(words)| ==> Unspaced(Bases(words)[j]) == Concat(words)
  {
    forall j | 0 <= j < |Bases(words)| ensures Unspaced(Bases(words)[j]) == Concat(words) {
      forall k | 0 <= k < |words| ensures ' ' !in words[k] {
        assert IsWord(words[k]);
      }
      SpacedUnspaced(words, Spacings(|words| - 1)[j]);
    }
  }

  /** The first variant of a normalised title is the title itself. */
  lemma FirstVariationIsTitle(title: string, escape: string -> string)
    requires Normalized(title) && title != []
    ensures TitleVariations(title, escape).Ok? && TitleVariations(title, escape).value[0] == title
  {
    WordsJoinNormalized(title);
    NoWords(title);
    VariationsEnds(title, escape);
  }
}
