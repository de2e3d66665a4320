/**
 * Dotted section numberings ("2.1."): reading them as integer components,
 * writing them back, and the set of numberings that may legally follow one
 * (the nested `generate_next_numberings` of `find_and_replace_numberings`).
 */
module Numbering {
  import opened Results
  import opened Text
  import StringOrder

  predicate DigitsAndDots(s: string)
  {
    forall i :: 0 <= i < |s| ==> IsDigit(s[i]) || s[i] == '.'
  }

  /** `s.replace('.', '').isdigit()`: the first word of a title is a numbering. */
  predicate IsNumberingToken(s: string)
  {
    DigitsAndDots(s) && exists i :: 0 <= i < |s| && IsDigit(s[i])
  }

  /** The components of a dotted string, as strings. */
  function Components(s: string): seq<string>
  {
    Split(StripChar(s, '.'), '.')
  }

  /** `list(map(int, comps))`, `None` where `int` raises on an empty or non-digit component. */
  function ParseComponents(comps: seq<string>): (r: Option<seq<nat>>)
    ensures r.Some? ==> |r.value| == |comps|
  {
    if comps == [] then Some([])
    else if comps[0] == "" || !AllDigits(comps[0]) then None
    else
      match ParseComponents(comps[1..])
      case None => None
      case Some(rest) => Some([ParseNat(comps[0])] + rest)
  }

  lemma {:induction false} ParseComponentsFails(comps: seq<string>)
    ensures ParseComponents(comps).None? <==>
      exists k :: 0 <= k < |comps| && (comps[k] == "" || !AllDigits(comps[k]))
  {
    if comps != [] {
      ParseComponentsFails(comps[1..]);
      if exists k :: 0 <= k < |comps| && (comps[k] == "" || !AllDigits(comps[k])) {
        var k :| 0 <= k < |comps| && (comps[k] == "" || !AllDigits(comps[k]));
        if k > 0 {
          assert comps[1..][k - 1] == comps[k];
        }
      }
      if exists k :: 0 <= k < |comps[1..]| && (comps[1..][k] == "" || !AllDigits(comps[1..][k])) {
        var k :| 0 <= k < |comps[1..]| && (comps[1..][k] == "" || !AllDigits(comps[1..][k]));
        assert comps[k + 1] == comps[1..][k];
      }
    }
  }

  /** `list(map(int, s.strip('.').split('.')))`; `None` where that raises `ValueError`. */
  function ParseParts(s: string): (r: Option<seq<nat>>)
    ensures r.Some? ==> |r.value| == |Components(s)| >= 1
  {
    ParseComponents(Components(s))
  }

  lemma ComponentsAreDigits(s: string)
    requires DigitsAndDots(s)
    ensures forall k :: 0 <= k < |Components(s)| ==> AllDigits(Components(s)[k])
  {
    var t := StripChar(s, '.');
    var l := LStripChar(s, '.');
    assert DigitsAndDots(l) by {
      assert l == s[|s| - |l|..];
      forall i | 0 <= i < |l| ensures IsDigit(l[i]) || l[i] == '.' {
        assert l[i] == s[|s| - |l| + i];
      }
    }
    assert DigitsAndDots(t) by {
      assert t == l[..|t|];
    }
    SplitOfDigitsAndDots(t);
  }

  lemma {:induction false} SplitOfDigitsAndDots(t: string)
    requires DigitsAndDots(t)
    ensures forall k :: 0 <= k < |Split(t, '.')| ==> AllDigits(Split(t, '.')[k])
    decreases |t|
  {
    if t != [] {
      assert DigitsAndDots(t[1..]);
      SplitOfDigitsAndDots(t[1..]);
    }
  }

  function ComponentStrings(parts: seq<nat>): (strs: seq<string>)
    ensures |strs| == |parts|
    ensures forall k :: 0 <= k < |parts| ==> strs[k] == NatToString(parts[k])
  {
    seq(|parts|, k requires 0 <= k < |parts| => NatToString(parts[k]))
  }

  /** `'.'.join(map(str, parts)) + '.'` */
  function Render(parts: seq<nat>): string
  {
    Join(ComponentStrings(parts), '.') + "."
  }

  lemma {:induction false} JoinOfDigitStrings(strs: seq<string>)
    requires |strs| >= 1
    requires forall k :: 0 <= k < |strs| ==> |strs[k]| > 0 && AllDigits(strs[k])
    ensures var j := Join(strs, '.'); |j| > 0 && DigitsAndDots(j) && IsDigit(j[0]) && IsDigit(j[|j| - 1])
    decreases |strs|
  {
    if |strs| > 1 {
      JoinOfDigitStrings(strs[1..]);
      var j := Join(strs, '.');
      var rest := Join(strs[1..], '.');
      assert j == strs[0] + ['.'] + rest;
      assert j[0] == strs[0][0];
      assert j[|j| - 1] == rest[|rest| - 1];
      forall i | 0 <= i < |j| ensures IsDigit(j[i]) || j[i] == '.' {
        if i < |strs[0]| {
          assert j[i] == strs[0][i];
        } else if i > |strs[0]| {
          assert j[i] == rest[i - |strs[0]| - 1];
        }
      }
    }
  }

  /** A rendered numbering is a digits-and-dots string with at least one digit. */
  lemma RenderIsToken(q: seq<nat>)
    requires |q| >= 1
    ensures IsNumberingToken(Render(q)) && Render(q) != ""
  {
    JoinOfDigitStrings(ComponentStrings(q));
    var j := Join(ComponentStrings(q), '.');
    var r := Render(q);
    assert r == j + ".";
    assert IsDigit(r[0]);
    forall i | 0 <= i < |r| ensures IsDigit(r[i]) || r[i] == '.' {
      if i < |j| {
        assert r[i] == j[i];
      }
    }
  }

  /** Reading back a rendered numbering gives its components: `parse(render(q)) == q`. */
  lemma ParseRender(q: seq<nat>)
    requires |q| >= 1
    ensures DigitsAndDots(Render(q))
    ensures ParseParts(Render(q)) == Some(q)
  {
    RenderIsToken(q);
    var strs := ComponentStrings(q);
    JoinOfDigitStrings(strs);
    var j := Join(strs, '.');
    var r := Render(q);
    assert LStripChar(r, '.') == r;
    assert r[..|r| - 1] == j;
    assert RStripChar(r, '.') == RStripChar(j, '.') == j;
    assert StripChar(r, '.') == j;
    forall k | 0 <= k < |strs| ensures '.' !in strs[k] {
      assert AllDigits(strs[k]);
    }
    SplitJoin(strs, '.');
    assert Components(r) == strs;
    ParseComponentStrings(q);
  }

  lemma {:induction false} ParseComponentStrings(q: seq<nat>)
    ensures ParseComponents(ComponentStrings(q)) == Some(q)
  {
    if q != [] {
      ParseComponentStrings(q[1..]);
      assert ComponentStrings(q)[1..] == ComponentStrings(q[1..]);
      ParseNatToString(q[0]);
      assert q == [q[0]] + q[1..];
    }
  }

  /**
   * The numberings that may follow `p`, stated declaratively: the next
   * sibling and up to eight further siblings, a child or grandchild (1-9)
   * while the depth stays at most 4, the child of a later sibling, an
   * increment by 1-9 of any non-first component that drops the deeper ones,
   * or the next top-level number.
   */
  predicate Legal(p: seq<nat>, q: seq<nat>)
    requires |p| >= 1
  {
    var n := |p|;
    var last := p[n - 1];
    || (n < 4 && |q| == n + 1 && q[..n] == p && 1 <= q[n] <= 9)
    || (n < 3 && |q| == n + 2 && q[..n] == p && 1 <= q[n] <= 9 && 1 <= q[n + 1] <= 9)
    || (|q| == n && q[..n - 1] == p[..n - 1] && last + 1 <= q[n - 1] <= last + 9)
    || (n < 4 && |q| == n + 1 && q[..n - 1] == p[..n - 1] && last + 1 <= q[n - 1] <= last + 9 && 1 <= q[n] <= 9)
    || (2 <= |q| <= n && q[..|q| - 1] == p[..|q| - 1] && p[|q| - 1] + 1 <= q[|q| - 1] <= p[|q| - 1] + 9)
    || q == [p[0] + 1]
  }

  /**
   * Python's tuple comparison `p < q` on components, decided at position `k`:
   * the first `k` components agree and then `p` ends or has the smaller one.
   */
  predicate LexLessAt(p: seq<nat>, q: seq<nat>, k: nat)
  {
    k <= |p| && k < |q| && p[..k] == q[..k] && (k == |p| || p[k] < q[k])
  }

  ghost predicate LexLess(p: seq<nat>, q: seq<nat>)
  {
    exists k: nat :: LexLessAt(p, q, k)
  }

  ghost predicate LexLeq(p: seq<nat>, q: seq<nat>)
  {
    p == q || LexLess(p, q)
  }

  lemma LexLessIrreflexive(p: seq<nat>, q: seq<nat>)
    requires LexLess(p, q)
    ensures p != q
  {
    var k: nat :| LexLessAt(p, q, k);
  }

  lemma LexLessTransitive(a: seq<nat>, b: seq<nat>, c: seq<nat>)
    requires LexLeq(a, b) && LexLess(b, c)
    ensures LexLess(a, c)
  {
    if a != b {
      var k1: nat :| LexLessAt(a, b, k1);
      var k2: nat :| LexLessAt(b, c, k2);
      var k := if k1 < k2 then k1 else k2;
      assert a[..k] == b[..k][..k] == c[..k] by {
        assert a[..k] == a[..k1][..k] && b[..k] == b[..k1][..k];
        assert b[..k] == b[..k2][..k] && c[..k] == c[..k2][..k];
      }
      if k1 < k2 {
        assert b[k1] == b[..k2][k1] == c[..k2][k1] == c[k1];
      } else if k2 < k1 {
        assert a[k2] == a[..k1][k2] == b[..k1][k2] == b[k2];
      }
      assert LexLessAt(a, c, k);
    }
  }

  /** Every legal successor of `p` compares greater than `p` as a tuple. */
  lemma LegalIsGreater(p: seq<nat>, q: seq<nat>)
    requires |p| >= 1 && Legal(p, q)
    ensures LexLess(p, q)
  {
    var n := |p|;
    if |q| > n && q[..n] == p {
      assert LexLessAt(p, q, n);
    } else if q == [p[0] + 1] {
      assert LexLessAt(p, q, 0);
    } else if |q| >= n && q[..n - 1] == p[..n - 1] && p[n - 1] < q[n - 1] {
      assert LexLessAt(p, q, n - 1);
    } else {
      assert LexLessAt(p, q, |q| - 1);
    }
  }

  /** `parts + [x]` for x in 1..9, each followed (below depth 3) by its children. */
  function SubLevels(p: seq<nat>): seq<seq<nat>>
  {
    if |p| < 4 then
      seq(9, x requires 0 <= x < 9 => p + [x + 1])
      + (if |p| < 3 then seq(81, k requires 0 <= k < 81 => p + [k / 9 + 1, k % 9 + 1]) else [])
    else []
  }

  /** The nine following siblings, each with its children while the depth stays at most 4. */
  function Siblings(p: seq<nat>): seq<seq<nat>>
    requires |p| >= 1
  {
    var n := |p|;
    var last := p[n - 1];
    seq(9, x requires 0 <= x < 9 => p[..n - 1] + [last + x + 1])
    + (if n < 4 then seq(81, k requires 0 <= k < 81 => p[..n - 1] + [last + k / 9 + 1, k % 9 + 1]) else [])
  }

  /** `parts[:i + 1] + [parts[i + 1] + x]` for the levels from `m` down. */
  function HigherLevels(p: seq<nat>, m: nat): seq<seq<nat>>
    requires 1 <= m <= |p|
    decreases |p| - m
  {
    if m == |p| then []
    else seq(9, x requires 0 <= x < 9 => p[..m] + [p[m] + x + 1]) + HigherLevels(p, m + 1)
  }

  /**
   * The list `possibilities` built by `generate_next_numberings`, block by
   * block: increment, sub-levels, siblings, higher levels, top level. Within
   * the sub-level and sibling blocks the source interleaves each level with
   * its children; only the set of entries matters, since the list is then
   * passed through `sorted(set(...))`.
   */
  function Possibilities(p: seq<nat>): seq<seq<nat>>
    requires |p| >= 1
  {
    [p[..|p| - 1] + [p[|p| - 1] + 1]] + SubLevels(p) + Siblings(p) + HigherLevels(p, 1) + [[p[0] + 1]]
  }

  lemma SubLevelsLegal(p: seq<nat>, q: seq<nat>)
    ensures q in SubLevels(p) <==>
      || (|p| < 4 && |q| == |p| + 1 && q[..|p|] == p && 1 <= q[|p|] <= 9)
      || (|p| < 3 && |q| == |p| + 2 && q[..|p|] == p && 1 <= q[|p|] <= 9 && 1 <= q[|p| + 1] <= 9)
  {
    var n := |p|;
    if n < 4 {
      var c1: seq<seq<nat>> := seq(9, x requires 0 <= x < 9 => p + [x + 1]);
      var c2: seq<seq<nat>> := if n < 3 then seq(81, k requires 0 <= k < 81 => p + [k / 9 + 1, k % 9 + 1]) else [];
      assert SubLevels(p) == c1 + c2;
      if q in c1 {
        var i :| 0 <= i < 9 && c1[i] == q;
        assert q[..n] == p;
      }
      if q in c2 {
        var i :| 0 <= i < 81 && c2[i] == q;
        assert q[..n] == p;
      }
      if |q| == n + 1 && q[..n] == p && 1 <= q[n] <= 9 {
        assert q == p + [q[n]];
        assert c1[q[n] - 1] == q;
      }
      if n < 3 && |q| == n + 2 && q[..n] == p && 1 <= q[n] <= 9 && 1 <= q[n + 1] <= 9 {
        var k := (q[n] - 1) * 9 + (q[n + 1] - 1);
        assert k / 9 == q[n] - 1 && k % 9 == q[n + 1] - 1;
        assert q == p + [q[n], q[n + 1]];
        assert c2[k] == q;
      }
    }
  }

  lemma SiblingsLegal(p: seq<nat>, q: seq<nat>)
    requires |p| >= 1
    ensures var n := |p|; var last := p[n - 1];
      q in Siblings(p) <==>
      || (|q| == n && q[..n - 1] == p[..n - 1] && last + 1 <= q[n - 1] <= last + 9)
      || (n < 4 && |q| == n + 1 && q[..n - 1] == p[..n - 1] && last + 1 <= q[n - 1] <= last + 9 && 1 <= q[n] <= 9)
  {
    var n := |p|;
    var last := p[n - 1];
    var init := p[..n - 1];
    var c1: seq<seq<nat>> := seq(9, x requires 0 <= x < 9 => init + [last + x + 1]);
    var c2: seq<seq<nat>> := if n < 4 then seq(81, k requires 0 <= k < 81 => init + [last + k / 9 + 1, k % 9 + 1]) else [];
    assert Siblings(p) == c1 + c2;
    if q in c1 {
      var i :| 0 <= i < 9 && c1[i] == q;
      assert q[..n - 1] == init;
    }
    if q in c2 {
      var i :| 0 <= i < 81 && c2[i] == q;
      assert q[..n - 1] == init;
    }
    if |q| == n && q[..n - 1] == init && last + 1 <= q[n - 1] <= last + 9 {
      assert q == init + [q[n - 1]];
      assert c1[q[n - 1] - last - 1] == q;
    }
    if n < 4 && |q| == n + 1 && q[..n - 1] == init && last + 1 <= q[n - 1] <= last + 9 && 1 <= q[n] <= 9 {
      var k := (q[n - 1] - last - 1) * 9 + (q[n] - 1);
      assert k / 9 == q[n - 1] - last - 1 && k % 9 == q[n] - 1;
      assert q == init + [q[n - 1], q[n]];
      assert c2[k] == q;
    }
  }

  lemma {:induction false} HigherLevelsLegal(p: seq<nat>, m: nat, q: seq<nat>)
    requires 1 <= m <= |p|
    ensures q in HigherLevels(p, m) <==>
      m + 1 <= |q| <= |p| && q[..|q| - 1] == p[..|q| - 1] && p[|q| - 1] + 1 <= q[|q| - 1] <= p[|q| - 1] + 9
    decreases |p| - m
  {
    if m < |p| {
      HigherLevelsLegal(p, m + 1, q);
      var c: seq<seq<nat>> := seq(9, x requires 0 <= x < 9 => p[..m] + [p[m] + x + 1]);
      assert HigherLevels(p, m) == c + HigherLevels(p, m + 1);
      if q in c {
        var i :| 0 <= i < 9 && c[i] == q;
        assert q[..m] == p[..m];
      }
      if |q| == m + 1 && q[..m] == p[..m] && p[m] + 1 <= q[m] <= p[m] + 9 {
        assert q == p[..m] + [q[m]];
        assert c[q[m] - p[m] - 1] == q;
      }
    }
  }

  /** The enumeration holds exactly the legal successors. */
  lemma PossibilitiesAreLegal(p: seq<nat>, q: seq<nat>)
    requires |p| >= 1
    ensures q in Possibilities(p) <==> Legal(p, q)
  {
    SubLevelsLegal(p, q);
    SiblingsLegal(p, q);
    HigherLevelsLegal(p, 1, q);
    var n := |p|;
    if q == p[..n - 1] + [p[n - 1] + 1] {
      assert q[..n - 1] == p[..n - 1];
    }
    if |q| == n && q[..n - 1] == p[..n - 1] && q[n - 1] == p[n - 1] + 1 {
      assert q == p[..n - 1] + [p[n - 1] + 1];
    }
  }

  /** `'.'.join(map(str, q)) + '.'` for each entry of `possibilities` */
  function RenderAll(ps: seq<seq<nat>>): seq<string>
  {
    if ps == [] then [] else [Render(ps[0])] + RenderAll(ps[1..])
  }

  lemma {:induction false} RenderAllMembership(ps: seq<seq<nat>>, t: string)
    ensures t in RenderAll(ps) <==> exists i :: 0 <= i < |ps| && Render(ps[i]) == t
  {
    if ps != [] {
      RenderAllMembership(ps[1..], t);
      if exists i :: 0 <= i < |ps| && Render(ps[i]) == t {
        var i :| 0 <= i < |ps| && Render(ps[i]) == t;
        if i > 0 {
          assert Render(ps[1..][i - 1]) == t;
        }
      }
    }
  }

  /** `sorted(set(...))` of the rendered possibilities following `p`. */
  function SuccessorList(p: seq<nat>): seq<string>
    requires |p| >= 1
  {
    StringOrder.SortUnique(RenderAll(Possibilities(p)))
  }

  /** `generate_next_numberings(s)`; raises (here `Err`) when a component is empty. */
  function NextNumberings(s: string): Result<seq<string>>
  {
    match ParseParts(s)
    case None => Err("Invalid numbering format: " + s)
    case Some(p) => Ok(SuccessorList(p))
  }

  /** A numbering follows `p` exactly when it is the rendering of a legal successor. */
  lemma SuccessorListMembership(p: seq<nat>, t: string)
    requires |p| >= 1
    ensures t in SuccessorList(p) <==>
      DigitsAndDots(t) && ParseParts(t).Some? && Legal(p, ParseParts(t).value) && Render(ParseParts(t).value) == t
  {
    var ps := Possibilities(p);
    StringOrder.SortUniqueSpec(RenderAll(ps));
    RenderAllMembership(ps, t);
    if t in SuccessorList(p) {
      var i :| 0 <= i < |ps| && Render(ps[i]) == t;
      PossibilitiesAreLegal(p, ps[i]);
      assert |ps[i]| >= 1;
      ParseRender(ps[i]);
    }
    if DigitsAndDots(t) && ParseParts(t).Some? && Legal(p, ParseParts(t).value) && Render(ParseParts(t).value) == t {
      var q := ParseParts(t).value;
      PossibilitiesAreLegal(p, q);
      var i :| 0 <= i < |ps| && ps[i] == q;
      assert Render(ps[i]) == t;
    }
  }

  /**
   * The successor list of a well-formed numbering holds its last component
   * incremented, and is sorted without duplicates.
   */
  lemma NextHoldsIncrement(s: string)
    requires ParseParts(s).Some?
    ensures var p := ParseParts(s).value;
      && NextNumberings(s).Ok?
      && Render(p[..|p| - 1] + [p[|p| - 1] + 1]) in NextNumberings(s).value
      && StringOrder.StrictlySorted(NextNumberings(s).value)
      && forall i, j :: 0 <= i < j < |NextNumberings(s).value| ==> NextNumberings(s).value[i] != NextNumberings(s).value[j]
  {
    var p := ParseParts(s).value;
    var q := p[..|p| - 1] + [p[|p| - 1] + 1];
    ParseRender(q);
    assert q[..|p| - 1] == p[..|p| - 1];
    SuccessorListMembership(p, Render(q));
    StringOrder.SortUniqueSpec(RenderAll(Possibilities(p)));
    StringOrder.StrictlySortedDistinct(SuccessorList(p));
  }

  /** `generate_next_numberings` fails exactly on a numbering with an empty component. */
  lemma NextFailsIffUnparsable(s: string)
    requires DigitsAndDots(s)
    ensures NextNumberings(s).Err? <==> exists k :: 0 <= k < |Components(s)| && Components(s)[k] == ""
  {
    ComponentsAreDigits(s);
    ParseComponentsFails(Components(s));
  }
}
