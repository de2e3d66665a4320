/**
 * The three tree-building steps run one after the other on the smallest
 * interesting input: a chapter "<c>.<r1>" and one of its sections
 * "<c>.<n>.<r2>".
 */
module Pipeline {
  import opened Results
  import opened Text
  import opened OrderedDict
  import opened Levels
  import opened Resolve

  /** A one-part numbering `c`, a section number `n` and the title texts after them. */
  predicate ChapterInput(c: string, n: string, r1: string, r2: string)
  {
    && |c| > 0 && AllDigits(c)
    && |n| > 0 && AllDigits(n)
    && (r1 == [] || !IsDigit(r1[0]))
    && (r2 == [] || !IsDigit(r2[0]))
    && '\n' !in r1
  }

  function Chapter(c: string, r1: string): string { c + "." + r1 }

  function Section(c: string, n: string, r2: string): string { c + "." + n + "." + r2 }

  lemma DigitsChain(c: string)
    requires |c| > 0 && AllDigits(c)
    ensures ChainAt(c, 0, |c|) && '.' !in c
  {
  }

  /** The leading digits of "<c>.<rest>" are `c`. */
  lemma DigitsEndBeforeDot(c: string, rest: string)
    requires |c| > 0 && AllDigits(c)
    ensures DigitsEnd(c + "." + rest, 0) == |c|
  {
    var s := c + "." + rest;
    assert forall k :: 0 <= k < |c| ==> s[k] == c[k];
    assert s[|c|] == '.';
  }

  lemma TitlesDiffer(c: string, n: string, r1: string, r2: string)
    requires ChapterInput(c, n, r1, r2)
    ensures Chapter(c, r1) != Section(c, n, r2)
    ensures Chapter(c, r1) != "introduction" && Section(c, n, r2) != "introduction"
    ensures Chapter(c, r1) != ""
  {
    var t1 := Chapter(c, r1);
    var t2 := Section(c, n, r2);
    assert t2[|c| + 1] == n[0];
    if |t1| > |c| + 1 {
      assert t1[|c| + 1] == r1[0];
    }
    assert t1[0] == c[0] && t2[0] == c[0];
    assert "introduction"[0] == 'i';
  }

  /** "<c>.<n>" is a numbering. */
  lemma ChainTwo(c: string, n: string)
    requires |c| > 0 && AllDigits(c) && |n| > 0 && AllDigits(n)
    ensures ChainAt(c + "." + n, 0, |c + "." + n|)
  {
    var c2 := c + "." + n;
    assert forall k :: 0 <= k < |c| ==> c2[k] == c[k];
    assert c2[|c|] == '.';
    assert forall k :: |c| < k < |c2| ==> c2[k] == n[k - |c| - 1];
  }

  /** The chapter is filed under "level 1". */
  lemma ChapterLabel(c: string, r1: string)
    requires |c| > 0 && AllDigits(c) && (r1 == [] || !IsDigit(r1[0]))
    ensures TitleNumbering(Chapter(c, r1)).Some? && GroupLabel(Chapter(c, r1)) == "level 1"
  {
    DigitsChain(c);
    GroupLabelTop(c, r1);
    TitleNumberingOf(c, r1);
  }

  /** The section is filed under "level 2 for <c>". */
  lemma SectionLabel(c: string, n: string, r2: string)
    requires |c| > 0 && AllDigits(c) && |n| > 0 && AllDigits(n) && (r2 == [] || !IsDigit(r2[0]))
    ensures TitleNumbering(Section(c, n, r2)).Some? && GroupLabel(Section(c, n, r2)) == "level 2 for " + c
  {
    DigitsChain(c);
    GroupLabelChild(c, n, r2);
    SplitNoSeparator(c, '.');
    assert NatToString(2) == "2";
    ChainTwo(c, n);
    assert Section(c, n, r2) == (c + "." + n) + "." + r2;
    TitleNumberingOf(c + "." + n, r2);
  }

  /** `L` names a group whose parent numbering is `p`, not "level 0", "level 1" or an unlisted level. */
  predicate ChildLabel(L: string, p: string)
  {
    L != "level 0" && L != "level 1" && CopiedToRoot(L) && NamesParent(L) && ParentKey(L) == p
  }

  /** Two distinct titles, neither empty nor "introduction". */
  predicate DistinctTitles(t1: string, t2: string)
  {
    t1 != t2 && t1 != "" && t1 != "introduction" && t2 != "introduction"
  }

  lemma NumberedTwo(t1: string, t2: string, a: string, b: string, L: string)
    requires TitleNumbering(t1).Some? && GroupLabel(t1) == "level 1"
    requires TitleNumbering(t2).Some? && GroupLabel(t2) == L && L != "level 1"
    ensures Numbered([(t1, a), (t2, b)]) == [("level 1", [(t1, a)]), (L, [(t2, b)])]
  {
    var d := [(t1, a), (t2, b)];
    assert d[..1] == [(t1, a)];
    assert d[..1][..0] == [];
    var g1 := [("level 1", [(t1, a)])];
    assert Put([], t1, a) == [(t1, a)];
    assert Put([], "level 1", [(t1, a)]) == g1;
    assert Numbered(d[..1]) == g1;
    assert Get(g1, L) == None;
    assert Put([], t2, b) == [(t2, b)];
  }

  lemma UnnumberedTwo(t1: string, t2: string, a: string, b: string)
    requires TitleNumbering(t1).Some? && TitleNumbering(t2).Some?
    ensures Unnumbered([(t1, a), (t2, b)]) == []
  {
    var d := [(t1, a), (t2, b)];
    assert d[..1] == [(t1, a)];
    assert d[..1][..0] == [];
    assert Unnumbered(d[..1]) == [];
  }

  lemma RootCopiesTwo(t1: string, t2: string, a: string, b: string, L: string)
    requires t1 != t2 && L != "level 0" && CopiedToRoot(L)
    ensures RootCopies([("level 1", [(t1, a)]), (L, [(t2, b)])]) == [(t1, Text(a)), (t2, Text(b))]
  {
    var groups := [("level 1", [(t1, a)]), (L, [(t2, b)])];
    var root := [(t1, Text(a)), (t2, Text(b))];
    assert Get(groups, "level 0") == None;
    PutNew([], t1, Text(a));
    assert PutTexts([], [(t1, a)]) == [(t1, Text(a))];
    PutNew([(t1, Text(a))], t2, Text(b));
    assert PutTexts([(t1, Text(a))], [(t2, b)]) == root;
    assert "level 1" <= "level 1";
    assert CopyLevels([], groups) == CopyLevels([(t1, Text(a))], groups[1..]);
    assert groups[1..] == [(L, [(t2, b)])];
    assert groups[1..][1..] == [];
    assert CopyLevels([(t1, Text(a))], groups[1..]) == CopyLevels(root, []);
    assert RootCopies(groups) == CopyLevels([], groups);
  }

  lemma AttachTwo(t1: string, t2: string, a: string, b: string, L: string)
    requires t1 != "" && t2 != "introduction" && ParentKey(L) <= t1
    ensures Attach([(t1, Text(a)), (t2, Text(b))], L, [(t2, b)])
      == [(t1, Group([("introduction", a), (t2, b)])), (t2, Text(b))]
  {
    var root := [(t1, Text(a)), (t2, Text(b))];
    assert FirstWithPrefix(root, ParentKey(L)) == Some(0);
    assert ParentIndex(root, L) == Some(0);
    PutNew([("introduction", a)], t2, b);
    assert PutAll([("introduction", a)], [(t2, b)]) == [("introduction", a), (t2, b)];
  }

  lemma RestructureTwo(t1: string, t2: string, a: string, b: string, L: string)
    requires DistinctTitles(t1, t2) && ParentKey(L) <= t1
    requires L != "level 0" && CopiedToRoot(L) && NamesParent(L) && !NamesParent("level 1")
    ensures Restructured([("level 1", [(t1, a)]), (L, [(t2, b)])])
      == [(t1, Group([("introduction", a), (t2, b)])), (t2, Text(b))]
  {
    var groups := [("level 1", [(t1, a)]), (L, [(t2, b)])];
    var root := [(t1, Text(a)), (t2, Text(b))];
    RootCopiesTwo(t1, t2, a, b, L);
    AttachTwo(t1, t2, a, b, L);
    assert AttachAll(root, groups) == AttachAll(root, groups[1..]);
    assert groups[1..] == [(L, [(t2, b)])];
    assert groups[1..][1..] == [];
  }

  /** `flatten_dict` assigning a title it has not seen yet appends it. */
  lemma FlatPutNew(flat: Dict<Level>, k: string, v: Level)
    requires k !in Keys(flat)
    ensures FlatPut(flat, k, v) == flat + [(k, v)]
  {
    PutNew(flat, k, v);
  }

  lemma FlattenTextsTwo(flat0: Dict<Level>, t2: string, a: string, b: string)
    requires "introduction" !in Keys(flat0) && t2 !in Keys(flat0) && t2 != "introduction"
    ensures FlattenTexts(flat0, [("introduction", a), (t2, b)])
      == flat0 + [("introduction", Text(a))] + [(t2, Text(b))]
  {
    var ch := [("introduction", a), (t2, b)];
    var flat1 := flat0 + [("introduction", Text(a))];
    FlatPutNew(flat0, "introduction", Text(a));
    KeysConcat(flat0, [("introduction", Text(a))]);
    FlatPutNew(flat1, t2, Text(b));
    assert ch[1..] == [(t2, b)];
    assert FlattenTexts(flat0, ch) == FlattenTexts(flat1, ch[1..]);
  }

  lemma FlattenTwo(t1: string, t2: string, a: string, b: string)
    requires DistinctTitles(t1, t2)
    ensures var ch := [("introduction", a), (t2, b)];
      Flattened([(t1, Group(ch)), (t2, Text(b))]) == [(t1, Group(ch)), ("introduction", Text(a)), (t2, Text(b))]
  {
    var ch := [("introduction", a), (t2, b)];
    var tree := [(t1, Group(ch)), (t2, Text(b))];
    var flat0 := [(t1, Group(ch))];
    var flat := flat0 + [("introduction", Text(a))] + [(t2, Text(b))];
    FlatPutNew([], t1, Group(ch));
    assert FlatPut([], t1, Group(ch)) == flat0;
    assert Keys(flat0) == [t1];
    FlattenTextsTwo(flat0, t2, a, b);
    assert Flatten([], tree) == Flatten(FlattenTexts(flat0, ch), tree[1..]);
    var flat1 := flat0 + [("introduction", Text(a))];
    KeysConcat(flat0, [("introduction", Text(a))]);
    FlattenLastTwo(flat1, t2, b);
    assert tree[1..] == [(t2, Text(b))];
  }

  /** A root text already in the mapping, as the last entry, changes nothing. */
  lemma FlattenLastTwo(prefix: Dict<Level>, t2: string, b: string)
    requires t2 !in Keys(prefix)
    ensures Flatten(prefix + [(t2, Text(b))], [(t2, Text(b))]) == prefix + [(t2, Text(b))]
  {
    GetSnoc(prefix, t2, Text(b), t2);
    assert [(t2, Text(b))][1..] == [];
  }

  lemma ResolveTwo(t1: string, t2: string, a: string, b: string)
    requires DistinctTitles(t1, t2) && KeepRootKey(t1) && !KeepRootKey(t2)
    ensures Resolved([(t1, Group([("introduction", a), (t2, b)])), (t2, Text(b))])
      == Ok([(t1, Node([("introduction", Leaf(a)), (t2, Leaf(b))]))])
  {
    var ch := [("introduction", a), (t2, b)];
    var tree := [(t1, Group(ch)), (t2, Text(b))];
    var flat := [(t1, Group(ch)), ("introduction", Text(a)), (t2, Text(b))];
    FlattenTwo(t1, t2, a, b);
    assert tree[..1][..0] == [];
    assert tree[..1] == [tree[0]];
    PutNew([], t1, Group(ch));
    assert FilterRoots(tree[..1]) == [tree[0]];
    assert FilterRoots(tree) == [tree[0]];
    assert GroupOf(flat, "introduction") == None;
    assert GroupOf(flat, t2) == None;
    UnfoldPlain(flat, ch, {t1});
    var leaves := [("introduction", Leaf(a)), (t2, Leaf(b))];
    assert Leaves(ch) == leaves;
    assert UnfoldRoot(flat, t1, Group(ch)) == Ok(Node(leaves));
    var roots := [(t1, Group(ch))];
    assert roots[1..] == [];
    assert UnfoldRoots(flat, roots[1..]) == Ok([]);
    assert UnfoldRoot(flat, roots[0].0, roots[0].1) == Ok(Node(leaves));
    assert [(t1, Node(leaves))] + [] == [(t1, Node(leaves))];
    assert UnfoldRoots(flat, roots) == Ok([(t1, Node(leaves))]);
  }

  /** The chapter is "<c>.<r1>" and the section "<c>.<n>.<r2>". */
  lemma ChapterFacts(c: string, n: string, r1: string, r2: string)
    requires ChapterInput(c, n, r1, r2)
    ensures TitleNumbering(Chapter(c, r1)).Some? && GroupLabel(Chapter(c, r1)) == "level 1"
    ensures TitleNumbering(Section(c, n, r2)).Some? && GroupLabel(Section(c, n, r2)) == "level 2 for " + c
    ensures DistinctTitles(Chapter(c, r1), Section(c, n, r2))
    ensures ChildLabel("level 2 for " + c, c) && c <= Chapter(c, r1) && !NamesParent("level 1")
    ensures KeepRootKey(Chapter(c, r1)) && !KeepRootKey(Section(c, n, r2))
  {
    ChapterLabel(c, r1);
    SectionLabel(c, n, r2);
    TitlesDiffer(c, n, r1, r2);
    ParentOfSection(c);
    assert ("level 2 for " + c)[..7] == "level 2";
    assert |"level 2 for " + c| > |"level 1"|;
    KeepChapterOnly(c, n, r1, r2);
  }

  /**
   * A chapter and one of its sections come out of the three steps as the
   * chapter alone at the root, holding its own text under "introduction"
   * and then the section with its text.
   */
  lemma ChapterWithSection(c: string, n: string, r1: string, r2: string, a: string, b: string)
    requires ChapterInput(c, n, r1, r2)
    ensures Resolved(Restructured(Organize([(Chapter(c, r1), a), (Section(c, n, r2), b)])))
      == Ok([(Chapter(c, r1), Node([("introduction", Leaf(a)), (Section(c, n, r2), Leaf(b))]))])
  {
    var t1 := Chapter(c, r1);
    var t2 := Section(c, n, r2);
    var L := "level 2 for " + c;
    ChapterFacts(c, n, r1, r2);
    NumberedTwo(t1, t2, a, b, L);
    UnnumberedTwo(t1, t2, a, b);
    RestructureTwo(t1, t2, a, b, L);
    ResolveTwo(t1, t2, a, b);
  }

  /** `Find(s, p)` is -1 when `s` does not hold the first character of `p`. */
  lemma FindAbsent(s: string, p: string)
    requires p != [] && forall k :: 0 <= k < |s| ==> s[k] != p[0]
    ensures Find(s, p) == -1
  {
    forall k | 0 <= k && k + |p| <= |s| ensures !OccursAt(s, p, k) {
      assert s[k..k + |p|][0] == s[k];
    }
  }

  lemma FindInLabel(c: string)
    ensures Find("level 1", "for") == -1 && Find("level 2 for " + c, "for") == 8
  {
    var s := "level 2 for " + c;
    FindAbsent("level 1", "for");
    assert OccursAt(s, "for", 8);
    forall k | 0 <= k < 8 ensures !OccursAt(s, "for", k) {
      assert s[k] == "level 2 "[k];
    }
  }

  /** `" <c>".strip()` is `c`. */
  lemma StripSpaceDigits(c: string)
    requires |c| > 0 && AllDigits(c)
    ensures Strip(" " + c) == c
  {
    var t := " " + c;
    assert SpaceEnd(t, 1) == 1;
    assert SpaceEnd(t, 0) == 1;
    assert t[|t| - 1] == c[|c| - 1];
    assert t[1..] == c;
  }

  /** The label names its parent numbering `c`. */
  lemma ParentOfSection(c: string)
    requires |c| > 0 && AllDigits(c)
    ensures !NamesParent("level 1") && NamesParent("level 2 for " + c)
    ensures ParentKey("level 2 for " + c) == c
  {
    var s := "level 2 for " + c;
    FindInLabel(c);
    var t := " " + c;
    assert s[11..] == t;
    forall k | 0 <= k < |t| ensures t[k] != 'f' {
      if k > 0 {
        assert t[k] == c[k - 1];
      }
    }
    FindAbsent(t, "for");
    assert LastPiece(s, "for") == t;
    StripSpaceDigits(c);
  }

  /** Which root titles are kept: the chapter, not the section. */
  lemma KeepChapterOnly(c: string, n: string, r1: string, r2: string)
    requires ChapterInput(c, n, r1, r2)
    ensures KeepRootKey(Chapter(c, r1)) && !KeepRootKey(Section(c, n, r2))
  {
    var t1 := Chapter(c, r1);
    var t2 := Section(c, n, r2);
    DigitsEndBeforeDot(c, r1);
    KeepRootKeySpec(t1);
    if |t1| > |c| + 1 {
      assert t1[|c| + 1] == r1[0];
    }
    forall j | |c| < j < |t1| - 1 ensures t1[j] != '\n' {
      assert t1[j] == r1[j - |c| - 1];
    }
    assert t2 == c + "." + (n + "." + r2);
    DigitsEndBeforeDot(c, n + "." + r2);
    KeepRootKeySpec(t2);
    assert t2[|c| + 1] == n[0];
  }
}
