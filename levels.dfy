/**
 * The first two steps of building the section tree from the flat
 * title -> text dict: `organize_by_levels_with_grouping` (titles grouped by
 * the numbering of their parent) and `restructure_levels` (every group hung
 * under the first root title that starts with its parent numbering).
 */
module Levels {
  import opened Results
  import opened Text
  import opened OrderedDict
  import SectionRefine

  // ---------------------------------------------------------------------
  // Numberings and group labels
  // ---------------------------------------------------------------------

  /**
   * The numbering of a title: the match of `^(\d+(\.\d+)*\.)` with
   * `.rstrip('.')` applied ("2.1." gives "2.1"), or none.
   */
  function TitleNumbering(title: string): Option<string>
  {
    match SectionRefine.NumberingMatch(title)
    case None => None
    case Some(m) => Some(RStripChar(title[..m], '.'))
  }

  /** `'.'.join(numbering.split('.')[:-1])`: the numbering without its last part. */
  function ParentNumbering(numbering: string): string
  {
    var parts := Split(numbering, '.');
    Join(parts[..|parts| - 1], '.')
  }

  /** `numbering.count('.') + 1`: the number of parts of the numbering. */
  function Depth(numbering: string): nat
  {
    |Split(numbering, '.')|
  }

  /** The group a title is filed under: "level 0", "level 1" or "level <depth> for <parent>". */
  function GroupLabel(title: string): string
  {
    match TitleNumbering(title)
    case None => "level 0"
    case Some(n) =>
      var parent := ParentNumbering(n);
      if parent != "" then "level " + NatToString(Depth(n)) + " for " + parent else "level 1"
  }

  /** In "<numbering>.<rest>", with `rest` not starting with a digit, the numbering is read back. */
  lemma TitleNumberingOf(c: string, rest: string)
    requires ChainAt(c, 0, |c|)
    requires rest == [] || !IsDigit(rest[0])
    ensures TitleNumbering(c + "." + rest) == Some(c)
  {
    var s := c + "." + rest;
    assert forall k :: 0 <= k < |c| ==> s[k] == c[k];
    assert s[|c|] == '.';
    assert ChainAt(s, 0, |c|);
    if |c| + 1 < |s| {
      assert s[|c| + 1] == rest[0];
    }
    ChainEndUnique(s, 0, |c|);
    assert s[..|c| + 1] == c + ".";
    assert (c + ".")[..|c|] == c;
    assert RStripChar(c + ".", '.') == RStripChar(c, '.');
  }

  /** A one-part numbering files its title under "level 1". */
  lemma GroupLabelTop(c: string, rest: string)
    requires ChainAt(c, 0, |c|) && '.' !in c
    requires rest == [] || !IsDigit(rest[0])
    ensures GroupLabel(c + "." + rest) == "level 1"
  {
    TitleNumberingOf(c, rest);
    SplitNoSeparator(c, '.');
  }

  /**
   * A numbering "<p>.<last>" files its title under the label naming its depth
   * and its parent numbering `p`.
   */
  lemma GroupLabelChild(p: string, last: string, rest: string)
    requires ChainAt(p, 0, |p|)
    requires |last| > 0 && AllDigits(last)
    requires rest == [] || !IsDigit(rest[0])
    ensures GroupLabel(p + "." + last + "." + rest) == "level " + NatToString(|Split(p, '.')| + 1) + " for " + p
  {
    var c := p + "." + last;
    assert ChainAt(c, 0, |c|) by {
      forall k | 0 <= k < |c| ensures IsDigit(c[k]) || c[k] == '.' {
        if k > |p| {
          assert c[k] == last[k - |p| - 1];
        }
      }
      forall k | 0 <= k < |c| && c[k] == '.' ensures k + 1 < |c| && IsDigit(c[k + 1]) {
        if k < |p| {
          assert p[k] == '.';
          assert c[k + 1] == p[k + 1];
        } else if k == |p| {
          assert c[k + 1] == last[0];
        }
      }
    }
    assert c + "." + rest == p + "." + last + "." + rest;
    TitleNumberingOf(c, rest);
    assert '.' !in last by {
      forall k | 0 <= k < |last| ensures last[k] != '.' {
      }
    }
    SplitSnoc(p, last, '.');
    var parts := Split(c, '.');
    assert parts[..|parts| - 1] == Split(p, '.');
    JoinSplit(p, '.');
  }

  // ---------------------------------------------------------------------
  // organize_by_levels_with_grouping
  // ---------------------------------------------------------------------

  /** The numbered titles, each assigned into the group of its label, groups in order of first use. */
  function Numbered(d: Dict<string>): Dict<Dict<string>>
  {
    if d == [] then []
    else
      var groups := Numbered(d[..|d| - 1]);
      var t := d[|d| - 1].0; var v := d[|d| - 1].1;
      if TitleNumbering(t).None? then groups
      else
        var groupLabel := GroupLabel(t);
        var group := match Get(groups, groupLabel) case Some(g) => g case None => [];
        Put(groups, groupLabel, Put(group, t, v))
  }

  /** The titles without a numbering, in order. */
  function Unnumbered(d: Dict<string>): Dict<string>
  {
    if d == [] then []
    else
      var rest := Unnumbered(d[..|d| - 1]);
      var t := d[|d| - 1].0; var v := d[|d| - 1].1;
      if TitleNumbering(t).None? then Put(rest, t, v) else rest
  }

  /** `organize_by_levels_with_grouping`: the numbered groups, then "level 0" if any title has no numbering. */
  function Organize(d: Dict<string>): Dict<Dict<string>>
  {
    var unnumbered := Unnumbered(d);
    if unnumbered == [] then Numbered(d) else Put(Numbered(d), "level 0", unnumbered)
  }

  /** The value of title `t` in group `label`, if there is such a group holding `t`. */
  function InGroup(groups: Dict<Dict<string>>, groupLabel: string, t: string): Option<string>
  {
    match Get(groups, groupLabel)
    case None => None
    case Some(g) => Get(g, t)
  }

  /** A numbered title is never filed under "level 0". */
  lemma NumberedLabel(t: string)
    requires TitleNumbering(t).Some?
    ensures GroupLabel(t) != "level 0"
  {
    var n := TitleNumbering(t).value;
    var parent := ParentNumbering(n);
    if parent != "" {
      assert |GroupLabel(t)| > |"level 0"|;
    }
  }

  lemma UniqueInit<V>(d: Dict<V>)
    requires UniqueKeys(d) && d != []
    ensures UniqueKeys(d[..|d| - 1]) && d[|d| - 1].0 !in Keys(d[..|d| - 1])
    ensures d == d[..|d| - 1] + [d[|d| - 1]]
  {
  }

  /** Every numbered title is in the group of its label with its own value, and in no other group. */
  lemma {:induction false} NumberedLookup(d: Dict<string>, groupLabel: string, t: string)
    requires UniqueKeys(d)
    ensures InGroup(Numbered(d), groupLabel, t) ==
      if TitleNumbering(t).Some? && groupLabel == GroupLabel(t) then Get(d, t) else None
  {
    if d != [] {
      var init := d[..|d| - 1];
      var t0 := d[|d| - 1].0; var v0 := d[|d| - 1].1;
      UniqueInit(d);
      NumberedLookup(init, groupLabel, t);
      GetSnoc(init, t0, v0, t);
      if TitleNumbering(t0).Some? {
        var groups := Numbered(init);
        var l0 := GroupLabel(t0);
        var group := match Get(groups, l0) case Some(g) => g case None => [];
        if groupLabel == l0 {
          NumberedLookup(init, l0, t);
        }
      }
    }
  }

  /** Exactly the titles without numbering are in the unnumbered group, with their own values. */
  lemma {:induction false} UnnumberedLookup(d: Dict<string>, t: string)
    requires UniqueKeys(d)
    ensures Get(Unnumbered(d), t) == if TitleNumbering(t).None? then Get(d, t) else None
  {
    if d != [] {
      var init := d[..|d| - 1];
      var t0 := d[|d| - 1].0; var v0 := d[|d| - 1].1;
      UniqueInit(d);
      UnnumberedLookup(init, t);
      GetSnoc(init, t0, v0, t);
    }
  }

  /** No group of numbered titles is labelled "level 0". */
  lemma {:induction false} NumberedNoLevel0(d: Dict<string>)
    ensures "level 0" !in Keys(Numbered(d))
  {
    if d != [] {
      NumberedNoLevel0(d[..|d| - 1]);
      if TitleNumbering(d[|d| - 1].0).Some? {
        NumberedLabel(d[|d| - 1].0);
      }
    }
  }

  /**
   * `organize_by_levels_with_grouping` partitions the dict: each title is in
   * exactly one group, the one of its label, with its own value; no group
   * holds anything else.
   */
  lemma OrganizePartition(d: Dict<string>, groupLabel: string, t: string)
    requires UniqueKeys(d)
    ensures InGroup(Organize(d), groupLabel, t) == if groupLabel == GroupLabel(t) then Get(d, t) else None
  {
    NumberedLookup(d, groupLabel, t);
    UnnumberedLookup(d, t);
    var u := Unnumbered(d);
    if TitleNumbering(t).Some? {
      NumberedLabel(t);
    } else if groupLabel == "level 0" && u == [] {
      NumberedNoLevel0(d);
      assert Get(Numbered(d), "level 0") == None;
    }
  }

  /** The group "level 0" is present exactly when some title has no numbering. */
  lemma {:induction false} OrganizeLevel0(d: Dict<string>)
    ensures "level 0" in Keys(Organize(d)) <==> exists i :: 0 <= i < |d| && TitleNumbering(d[i].0).None?
  {
    NumberedNoLevel0(d);
    UnnumberedEmpty(d);
  }

  lemma {:induction false} UnnumberedEmpty(d: Dict<string>)
    ensures Unnumbered(d) == [] <==> AllNumbered(d)
  {
    if d != [] {
      var init := d[..|d| - 1];
      var last := d[|d| - 1];
      UnnumberedEmpty(init);
      AllNumberedSnoc(d);
      if TitleNumbering(last.0).None? {
        PutNonEmpty(Unnumbered(init), last.0, last.1);
      }
    }
  }

  /** Every title of `d` has a numbering. */
  predicate AllNumbered(d: Dict<string>)
  {
    forall i :: 0 <= i < |d| ==> TitleNumbering(d[i].0).Some?
  }

  lemma AllNumberedSnoc(d: Dict<string>)
    requires d != []
    ensures AllNumbered(d) <==> AllNumbered(d[..|d| - 1]) && TitleNumbering(d[|d| - 1].0).Some?
  {
    assert forall i :: 0 <= i < |d| - 1 ==> d[..|d| - 1][i] == d[i];
  }

  /** An assignment leaves a dict non-empty. */
  lemma PutNonEmpty<V>(d: Dict<V>, k: string, v: V)
    ensures Put(d, k, v) != []
  {
    assert Get(Put(d, k, v), k).Some?;
  }

  // ---------------------------------------------------------------------
  // restructure_levels
  // ---------------------------------------------------------------------

  /** A root value of the restructured dict: a section text, or a dict of child titles to texts. */
  datatype Level = Text(text: string) | Group(children: Dict<string>)

  /** `key.startswith("level {i}")` for some `i` in 1..4. */
  predicate CopiedToRoot(key: string)
  {
    "level 1" <= key || "level 2" <= key || "level 3" <= key || "level 4" <= key
  }

  /** `for title, content in entries.items(): d[title] = content` */
  function PutTexts(d: Dict<Level>, entries: Dict<string>): Dict<Level>
    decreases |entries|
  {
    if entries == [] then d else PutTexts(Put(d, entries[0].0, Text(entries[0].1)), entries[1..])
  }

  /** The copy of the groups whose label starts with "level 1" to "level 4", in order. */
  function CopyLevels(d: Dict<Level>, groups: Dict<Dict<string>>): Dict<Level>
    decreases |groups|
  {
    if groups == [] then d
    else CopyLevels(if CopiedToRoot(groups[0].0) then PutTexts(d, groups[0].1) else d, groups[1..])
  }

  /** The root before any group is attached: "level 0", then every group of levels 1 to 4. */
  function RootCopies(groups: Dict<Dict<string>>): Dict<Level>
  {
    var base := match Get(groups, "level 0") case Some(g) => PutTexts([], g) case None => [];
    CopyLevels(base, groups)
  }

  /** `s.split(p)[-1]`: the text after the last occurrence of `p`. */
  function LastPiece(s: string, p: string): (r: string)
    requires p != []
    ensures |r| <= |s|
    decreases |s|
  {
    var k := Find(s, p);
    if k == -1 then s else LastPiece(s[k + |p|..], p)
  }

  /** `nested_key.split("for")[-1].strip()`: the parent numbering named by a group label. */
  function ParentKey(groupLabel: string): string
  {
    Strip(LastPiece(groupLabel, "for"))
  }

  /** `"for" in key` */
  predicate NamesParent(key: string)
  {
    Find(key, "for") != -1
  }

  /** `next((t for t in d if t.startswith(p)), None)`: the first root title starting with `p`. */
  function FirstWithPrefix(d: Dict<Level>, p: string): (r: Option<nat>)
    ensures r.Some? ==> r.value < |d| && p <= d[r.value].0 && forall j :: 0 <= j < r.value ==> !(p <= d[j].0)
    ensures r.None? ==> forall j :: 0 <= j < |d| ==> !(p <= d[j].0)
  {
    if d == [] then None
    else if p <= d[0].0 then Some(0)
    else match FirstWithPrefix(d[1..], p)
      case None => None
      case Some(j) => Some(j + 1)
  }

  /** `for t, c in entries.items(): g[t] = c` */
  function PutAll(g: Dict<string>, entries: Dict<string>): Dict<string>
    decreases |entries|
  {
    if entries == [] then g else PutAll(Put(g, entries[0].0, entries[0].1), entries[1..])
  }

  /** The children a parent holds once the group is added: its text becomes "introduction". */
  function WithChildren(parent: Level, group: Dict<string>): Dict<string>
  {
    var base := match parent case Text(t) => [("introduction", t)] case Group(ch) => ch;
    PutAll(base, group)
  }

  /**
   * The parent title of a group: the first root title starting with the
   * parent numbering, unless that title is empty (`if parent_title:`).
   */
  function ParentIndex(d: Dict<Level>, groupLabel: string): (r: Option<nat>)
    ensures r.Some? ==> r.value < |d| && d[r.value].0 != ""
  {
    match FirstWithPrefix(d, ParentKey(groupLabel))
    case Some(j) => if d[j].0 != "" then Some(j) else None
    case None => None
  }

  /**
   * `add_nested_levels(label, group)`: the group is added under the first
   * root title starting with the parent numbering; without such a title the
   * group itself is stored under its label (when it is not empty).
   */
  function Attach(d: Dict<Level>, groupLabel: string, group: Dict<string>): Dict<Level>
  {
    match ParentIndex(d, groupLabel)
    case Some(j) => d[j := (d[j].0, Group(WithChildren(d[j].1, group)))]
    case None => if group == [] then d else Put(d, groupLabel, Group(group))
  }

  /** Every group whose label contains "for" attached in turn. */
  function AttachAll(d: Dict<Level>, groups: Dict<Dict<string>>): Dict<Level>
    decreases |groups|
  {
    if groups == [] then d
    else AttachAll(if NamesParent(groups[0].0) then Attach(d, groups[0].0, groups[0].1) else d, groups[1..])
  }

  /** `restructure_levels` */
  function Restructured(groups: Dict<Dict<string>>): Dict<Level>
  {
    AttachAll(RootCopies(groups), groups)
  }

  /** The search for the parent title. */
  method FindParent(d: Dict<Level>, p: string) returns (r: Option<nat>)
    ensures r == FirstWithPrefix(d, p)
  {
    var i := 0;
    while i < |d|
      invariant 0 <= i <= |d|
      invariant forall j :: 0 <= j < i ==> !(p <= d[j].0)
    {
      if p <= d[i].0 {
        FirstWithPrefixIsFirst(d, p, i);
        return Some(i);
      }
      i := i + 1;
    }
    return None;
  }

  lemma FirstWithPrefixIsFirst(d: Dict<Level>, p: string, i: nat)
    requires i < |d| && p <= d[i].0 && forall j :: 0 <= j < i ==> !(p <= d[j].0)
    ensures FirstWithPrefix(d, p) == Some(i)
  {
  }

  /** `add_nested_levels` for a group of texts. */
  method AddNestedLevels(d: Dict<Level>, groupLabel: string, group: Dict<string>) returns (r: Dict<Level>)
    ensures r == Attach(d, groupLabel, group)
  {
    var parentKey := ParentKey(groupLabel);
    var parent := FindParent(d, parentKey);
    if parent.Some? && d[parent.value].0 == "" {
      parent := None;
    }
    match parent {
      case Some(j) =>
        var children := match d[j].1 case Text(t) => [("introduction", t)] case Group(ch) => ch;
        for i := 0 to |group|
          invariant PutAll(children, group[i..]) == WithChildren(d[j].1, group)
        {
          children := Put(children, group[i].0, group[i].1);
        }
        return d[j := (d[j].0, Group(children))];
      case None =>
        r := d;
        // Every pass stores the same `Put(d, groupLabel, Group(group))`; only the first one changes `r`.
        for i := 0 to |group|
          invariant r == if i == 0 then d else Put(d, groupLabel, Group(group))
        {
          r := Put(d, groupLabel, Group(group));
        }
    }
  }

  /** `restructure_levels` on the groups made by `organize_by_levels_with_grouping`. */
  method RestructureLevels(groups: Dict<Dict<string>>) returns (r: Dict<Level>)
    ensures r == Restructured(groups)
  {
    r := [];
    var level0 := Get(groups, "level 0");
    if level0.Some? {
      var entries := level0.value;
      for i := 0 to |entries|
        invariant PutTexts(r, entries[i..]) == PutTexts([], entries)
      {
        r := Put(r, entries[i].0, Text(entries[i].1));
      }
    }
    for k := 0 to |groups|
      invariant CopyLevels(r, groups[k..]) == RootCopies(groups)
    {
      if CopiedToRoot(groups[k].0) {
        ghost var before := r;
        var entries := groups[k].1;
        for i := 0 to |entries|
          invariant PutTexts(r, entries[i..]) == PutTexts(before, entries)
        {
          r := Put(r, entries[i].0, Text(entries[i].1));
        }
      }
    }
    for k := 0 to |groups|
      invariant AttachAll(r, groups[k..]) == Restructured(groups)
    {
      if NamesParent(groups[k].0) {
        r := AddNestedLevels(r, groups[k].0, groups[k].1);
      }
    }
  }

  // ---------------------------------------------------------------------
  // What restructuring keeps and changes
  // ---------------------------------------------------------------------

  /** Assigning the entries of a dict: each of its keys takes its value, every other key keeps its own. */
  lemma {:induction false} PutAllLookup(g: Dict<string>, entries: Dict<string>, k: string)
    requires UniqueKeys(entries)
    ensures Get(PutAll(g, entries), k) == if k in Keys(entries) then Get(entries, k) else Get(g, k)
    decreases |entries|
  {
    if entries != [] {
      KeysCons(entries);
      PutAllLookup(Put(g, entries[0].0, entries[0].1), entries[1..], k);
    }
  }

  /** Assigning new keys appends them in order. */
  lemma {:induction false} PutAllKeys(g: Dict<string>, entries: Dict<string>)
    requires UniqueKeys(entries)
    requires forall k :: k in Keys(entries) ==> k !in Keys(g)
    ensures Keys(PutAll(g, entries)) == Keys(g) + Keys(entries)
    decreases |entries|
  {
    if entries != [] {
      var g' := Put(g, entries[0].0, entries[0].1);
      PutFirstNew(g, entries);
      PutAllKeys(g', entries[1..]);
    }
  }

  /** One step of `PutAllKeys`: the first entry is appended and the rest stay new. */
  lemma PutFirstNew(g: Dict<string>, entries: Dict<string>)
    requires entries != [] && UniqueKeys(entries)
    requires forall k :: k in Keys(entries) ==> k !in Keys(g)
    ensures UniqueKeys(entries[1..])
    ensures forall k :: k in Keys(entries[1..]) ==> k !in Keys(Put(g, entries[0].0, entries[0].1))
    ensures Keys(Put(g, entries[0].0, entries[0].1)) + Keys(entries[1..]) == Keys(g) + Keys(entries)
  {
    KeysCons(entries);
    var k0 := entries[0].0;
    assert k0 in Keys(entries);
    var g' := Put(g, k0, entries[0].1);
    assert Keys(g') == Keys(g) + [k0];
    ConcatAssoc(Keys(g), [k0], Keys(entries[1..]));
  }

  /**
   * A group with a parent title: only the parent's entry changes, into a dict
   * of children; the root titles stay as they were, in order.
   */
  lemma AttachToParent(d: Dict<Level>, groupLabel: string, group: Dict<string>, j: nat)
    requires ParentIndex(d, groupLabel) == Some(j)
    ensures |Attach(d, groupLabel, group)| == |d|
    ensures Keys(Attach(d, groupLabel, group)) == Keys(d)
    ensures forall i :: 0 <= i < |d| && i != j ==> Attach(d, groupLabel, group)[i] == d[i]
    ensures Attach(d, groupLabel, group)[j].1 == Group(WithChildren(d[j].1, group))
  {
    var v := Group(WithChildren(d[j].1, group));
    assert Attach(d, groupLabel, group) == d[j := (d[j].0, v)];
    KeysUpdate(d, j, v);
  }

  /**
   * A parent holding a text becomes a dict with that text under
   * "introduction", followed by the group's titles with their texts.
   */
  lemma WithChildrenOfText(t: string, group: Dict<string>)
    requires UniqueKeys(group) && "introduction" !in Keys(group)
    ensures var ch := WithChildren(Text(t), group);
      && Keys(ch) == ["introduction"] + Keys(group)
      && Get(ch, "introduction") == Some(t)
      && forall k :: k in Keys(group) ==> Get(ch, k) == Get(group, k)
  {
    var base := [("introduction", t)];
    assert Keys(base) == ["introduction"];
    PutAllKeys(base, group);
    PutAllLookup(base, group, "introduction");
    forall k | k in Keys(group) ensures Get(WithChildren(Text(t), group), k) == Get(group, k) {
      PutAllLookup(base, group, k);
    }
  }

  /** A parent that already holds a dict has the group's titles assigned into it. */
  lemma WithChildrenOfGroup(ch: Dict<string>, group: Dict<string>)
    requires UniqueKeys(group)
    ensures forall k :: Get(WithChildren(Group(ch), group), k) == if k in Keys(group) then Get(group, k) else Get(ch, k)
  {
    forall k ensures Get(WithChildren(Group(ch), group), k) == if k in Keys(group) then Get(group, k) else Get(ch, k) {
      PutAllLookup(ch, group, k);
    }
  }

  /** A group whose parent is not found is stored under its own label, unless it is empty. */
  lemma AttachOrphan(d: Dict<Level>, groupLabel: string, group: Dict<string>)
    requires ParentIndex(d, groupLabel).None?
    ensures group != [] ==> Get(Attach(d, groupLabel, group), groupLabel) == Some(Group(group))
    ensures group == [] ==> Attach(d, groupLabel, group) == d
    ensures forall k :: k != groupLabel ==> Get(Attach(d, groupLabel, group), k) == Get(d, k)
  {
  }

  /** Attaching never removes a root title. */
  lemma AttachKeepsTitles(d: Dict<Level>, groupLabel: string, group: Dict<string>)
    ensures forall k :: k in Keys(d) ==> k in Keys(Attach(d, groupLabel, group))
    ensures forall k :: k in Keys(Attach(d, groupLabel, group)) ==> k in Keys(d) || k == groupLabel
  {
    match ParentIndex(d, groupLabel)
    case Some(j) =>
      assert Keys(Attach(d, groupLabel, group)) == Keys(d);
    case None =>
  }

  lemma {:induction false} AttachAllKeepsTitles(d: Dict<Level>, groups: Dict<Dict<string>>)
    ensures forall k :: k in Keys(d) ==> k in Keys(AttachAll(d, groups))
    decreases |groups|
  {
    if groups != [] {
      var d' := if NamesParent(groups[0].0) then Attach(d, groups[0].0, groups[0].1) else d;
      AttachKeepsTitles(d, groups[0].0, groups[0].1);
      AttachAllKeepsTitles(d', groups[1..]);
    }
  }

  lemma {:induction false} PutTextsKeys(d: Dict<Level>, entries: Dict<string>)
    ensures forall k :: k in Keys(PutTexts(d, entries)) <==> k in Keys(d) || k in Keys(entries)
    decreases |entries|
  {
    if entries != [] {
      KeysCons(entries);
      PutKeys(d, entries[0].0, Text(entries[0].1));
      PutTextsKeys(Put(d, entries[0].0, Text(entries[0].1)), entries[1..]);
    }
  }

  lemma {:induction false} CopyLevelsKeys(d: Dict<Level>, groups: Dict<Dict<string>>, i: nat)
    requires i < |groups| && CopiedToRoot(groups[i].0)
    ensures forall k :: k in Keys(groups[i].1) ==> k in Keys(CopyLevels(d, groups))
    decreases |groups|
  {
    var d' := if CopiedToRoot(groups[0].0) then PutTexts(d, groups[0].1) else d;
    if i == 0 {
      PutTextsKeys(d, groups[0].1);
      CopyLevelsKeep(d', groups[1..]);
    } else {
      CopyLevelsKeys(d', groups[1..], i - 1);
    }
  }

  lemma {:induction false} CopyLevelsKeep(d: Dict<Level>, groups: Dict<Dict<string>>)
    ensures forall k :: k in Keys(d) ==> k in Keys(CopyLevels(d, groups))
    decreases |groups|
  {
    if groups != [] {
      if CopiedToRoot(groups[0].0) {
        PutTextsKeys(d, groups[0].1);
        CopyLevelsKeep(PutTexts(d, groups[0].1), groups[1..]);
      } else {
        CopyLevelsKeep(d, groups[1..]);
      }
    }
  }

  /**
   * Every title of the group "level 0" and of every group whose label starts
   * with "level 1" to "level 4" is a root title of the restructured dict.
   */
  lemma RestructuredKeepsTitles(groups: Dict<Dict<string>>, i: nat, t: string)
    requires UniqueKeys(groups)
    requires i < |groups| && (groups[i].0 == "level 0" || CopiedToRoot(groups[i].0))
    requires t in Keys(groups[i].1)
    ensures t in Keys(Restructured(groups))
  {
    var base := match Get(groups, "level 0") case Some(g) => PutTexts([], g) case None => [];
    if CopiedToRoot(groups[i].0) {
      CopyLevelsKeys(base, groups, i);
    } else {
      GetAt(groups, i);
      PutTextsKeys([], groups[i].1);
      CopyLevelsKeep(base, groups);
    }
    AttachAllKeepsTitles(RootCopies(groups), groups);
  }
}
